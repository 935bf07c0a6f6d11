/** Finding a highlight's blocks again on a Notion page, as the sync route's queued
    'update' operation and the update route do: the page is split into groups at empty
    paragraphs (the grouping of the import route), each group's text is compared with the
    highlight's original text, and the matched blocks are replaced by the converted new
    content. The sync route takes the first matching group and fails when there is none;
    the update route takes every matching group and answers `updated: false` when there
    is none. */
module Grouping {
  import opened Text
  import opened Wrappers
  import opened Sequences
  import opened Notion
  import opened HtmlToNotion
  import opened PageSplit

  // ---------------------------------------------------------------------------
  // Group text and the match test
  // ---------------------------------------------------------------------------

  /** `s.trim().toLowerCase()`. */
  function Normal(s: String): String {
    ToLower(Trim(s))
  }

  /** `getBlockText`: the block's rich text, trimmed and lower-cased; a block whose type
      carries no rich text gives the empty string. */
  function MatchText(b: Block): String {
    if b.richText.Some? then Normal(PlainText(b.richText.value)) else []
  }

  function MatchTexts(g: seq<Block>): (r: seq<String>)
    ensures |r| == |g|
    ensures forall k :: 0 <= k < |g| ==> r[k] == MatchText(g[k])
  {
    seq(|g|, k requires 0 <= k < |g| => MatchText(g[k]))
  }

  /** `combinedText`: the block texts joined by one space, trimmed and lower-cased. */
  function GroupText(g: seq<Block>): String {
    Normal(Join(MatchTexts(g), " "))
  }

  /** The two strings a group is compared with: `originalText` and `originalPlainText`. */
  datatype Original = Original(text: String, plain: String)

  /** The sync route's queued update compares with
      `(original_html_content || original_text || '')` and `(original_text || '')`. */
  function QueuedOriginal(originalHtml: Option<String>, originalText: Option<String>): (o: Original)
    ensures originalText.None? ==> o.plain == []
    ensures originalHtml.None? ==> o.text == o.plain
  {
    Original(Normal(Source(OrEmpty(originalText), originalHtml)), Normal(OrEmpty(originalText)))
  }

  /** The update route compares with the stored `(html_content || text)` and `text`. */
  function StoredOriginal(text: String, html: Option<String>): (o: Original)
    ensures html.None? || html.value == [] ==> o.text == o.plain
  {
    Original(Normal(Source(text, html)), Normal(text))
  }

  /** The match test of both routes: the group text equals either original, contains the
      plain original, or is contained in it. */
  predicate Matches(o: Original, g: seq<Block>) {
    var c := GroupText(g);
    c == o.text || c == o.plain || Contains(c, o.plain) || Contains(o.plain, c)
  }

  /** An empty plain original is contained in every group text, so every group matches. */
  lemma EmptyOriginalMatchesEverything(o: Original, g: seq<Block>)
    requires o.plain == []
    ensures Matches(o, g)
  {
    ContainsEmpty(GroupText(g));
  }

  /** A group whose blocks carry no rich text (a lone divider, say) has empty text, which
      every plain original contains, so it matches every highlight. */
  lemma TextlessGroupMatchesEverything(o: Original, d: Block)
    requires d.richText.None?
    ensures GroupText([d]) == []
    ensures Matches(o, [d])
  {
    assert MatchTexts([d]) == [[]];
    ContainsEmpty(o.plain);
  }

  // ---------------------------------------------------------------------------
  // The groups a route picks
  // ---------------------------------------------------------------------------

  /** The position of the first matching group, or `|gs|` when none matches. */
  function FirstMatchIndex(o: Original, gs: seq<seq<Block>>): (k: nat)
    ensures k <= |gs|
    ensures forall j :: 0 <= j < k ==> !Matches(o, gs[j])
    ensures k < |gs| ==> Matches(o, gs[k])
  {
    if gs == [] then 0
    else if Matches(o, gs[0]) then 0
    else 1 + FirstMatchIndex(o, gs[1..])
  }

  /** The first matching group, if any. */
  function FirstMatching(o: Original, gs: seq<seq<Block>>): Option<seq<Block>> {
    var k := FirstMatchIndex(o, gs);
    if k < |gs| then Some(gs[k]) else None
  }

  /** There is a first matching group exactly when some group matches, and it is the
      earliest one. */
  lemma FirstMatchingMeaning(o: Original, gs: seq<seq<Block>>)
    ensures FirstMatching(o, gs).None? <==> forall j :: 0 <= j < |gs| ==> !Matches(o, gs[j])
    ensures FirstMatching(o, gs).Some? ==>
      exists k :: (0 <= k < |gs| && gs[k] == FirstMatching(o, gs).value && Matches(o, gs[k])
                   && forall j :: 0 <= j < k ==> !Matches(o, gs[j]))
  {
    var k := FirstMatchIndex(o, gs);
    if k < |gs| {
      assert gs[k] == FirstMatching(o, gs).value;
    }
  }

  /** Every matching group, in order. */
  function MatchingGroups(o: Original, gs: seq<seq<Block>>): seq<seq<Block>> {
    if gs == [] then []
    else (if Matches(o, gs[0]) then [gs[0]] else []) + MatchingGroups(o, gs[1..])
  }

  /** The matching groups are the groups that match, no more and no fewer. */
  lemma {:induction false} MatchingGroupsMeaning(o: Original, gs: seq<seq<Block>>)
    ensures |MatchingGroups(o, gs)| <= |gs|
    ensures forall g :: g in MatchingGroups(o, gs) <==> g in gs && Matches(o, g)
  {
    if gs != [] {
      MatchingGroupsMeaning(o, gs[1..]);
      assert gs == [gs[0]] + gs[1..];
    }
  }

  /** What the sync route matches on a page. */
  function FirstMatched(o: Original, page: seq<Block>): Option<seq<Block>> {
    FirstMatching(o, Groups(page))
  }

  /** What the update route matches on a page: the blocks of every matching group. */
  function AllMatched(o: Original, page: seq<Block>): seq<Block> {
    Flatten(MatchingGroups(o, Groups(page)))
  }

  /** The first matching group is the head of the matching groups. */
  lemma {:induction false} FirstIsHeadOfMatching(o: Original, gs: seq<seq<Block>>)
    ensures FirstMatching(o, gs)
      == if MatchingGroups(o, gs) == [] then None else Some(MatchingGroups(o, gs)[0])
  {
    if gs != [] && !Matches(o, gs[0]) {
      FirstIsHeadOfMatching(o, gs[1..]);
      assert MatchingGroups(o, gs) == [] + MatchingGroups(o, gs[1..]);
    }
  }

  /** Both routes find something on the same pages, and what the sync route replaces is
      the start of what the update route replaces. */
  lemma SyncMatchStartsUpdateMatch(o: Original, page: seq<Block>)
    ensures FirstMatched(o, page).None? <==> AllMatched(o, page) == []
    ensures FirstMatched(o, page).Some? ==>
      FirstMatched(o, page).value != [] && FirstMatched(o, page).value <= AllMatched(o, page)
  {
    var gs := Groups(page);
    var ms := MatchingGroups(o, gs);
    FirstIsHeadOfMatching(o, gs);
    GroupsMeaning(page);
    MatchingGroupsMeaning(o, gs);
    if ms != [] {
      assert ms[0] in ms;
      var k :| 0 <= k < |gs| && gs[k] == ms[0];
      assert ms[0] != [];
      assert Flatten(ms) == ms[0] + Flatten(ms[1..]);
    }
  }

  // ---------------------------------------------------------------------------
  // The scanning loops
  // ---------------------------------------------------------------------------

  /** A block that does not close a group joins the pending one, or is dropped when it is
      a separator and no group is pending; either way the groups ahead are unchanged. */
  lemma KeepBlock(current: seq<Block>, block: Block, rest: seq<Block>)
    requires NoSeparator(current) && !(IsSeparator(block) && |current| > 0)
    ensures !IsSeparator(block) ==>
      NoSeparator(current + [block])
      && Groups(current + ([block] + rest)) == Groups((current + [block]) + rest)
    ensures IsSeparator(block) ==> current == [] && Groups(current + ([block] + rest)) == Groups(rest)
  {
    if IsSeparator(block) {
      LeadingSeparatorDropped(block, rest);
      assert current + ([block] + rest) == [block] + rest;
    } else {
      AppendAssoc(current, [block], rest);
      assert NoSeparator(current + [block]) by {
        var c := current + [block];
        forall k | 0 <= k < |c| ensures !IsSeparator(c[k]) {
          if k == |current| { assert c[k] == block; } else { assert c[k] == current[k]; }
        }
      }
    }
  }

  /** A separator after a pending group closes it. */
  lemma GroupsAfterClose(current: seq<Block>, s: Block, rest: seq<Block>)
    requires current != [] && NoSeparator(current) && IsSeparator(s)
    ensures Groups(current + ([s] + rest)) == [current] + Groups(rest)
  {
    GroupsSplit(current, s, rest);
    GroupsOfRun(current);
  }

  /** A separator after a pending group: the answer is that group when it matches, and
      otherwise the first matching group of what follows. */
  lemma FirstMatchAfterClose(o: Original, current: seq<Block>, s: Block, rest: seq<Block>)
    requires current != [] && NoSeparator(current) && IsSeparator(s)
    ensures FirstMatching(o, Groups(current + ([s] + rest)))
      == if Matches(o, current) then Some(current) else FirstMatching(o, Groups(rest))
  {
    GroupsAfterClose(current, s, rest);
    FirstMatchingCons(o, current, Groups(rest));
  }

  lemma FirstMatchingCons(o: Original, g: seq<Block>, gs: seq<seq<Block>>)
    ensures FirstMatching(o, [g] + gs) == if Matches(o, g) then Some(g) else FirstMatching(o, gs)
  {
    var all := [g] + gs;
    assert all[0] == g && all[1..] == gs;
    if !Matches(o, g) {
      var k := FirstMatchIndex(o, gs);
      assert FirstMatchIndex(o, all) == 1 + k;
      assert k < |gs| ==> all[1 + k] == gs[k];
    }
  }

  /** The groups of a pending group with nothing after it. */
  lemma GroupsAtEnd(current: seq<Block>)
    requires NoSeparator(current)
    ensures Groups(current + []) == if current == [] then [] else [current]
  {
    assert current + [] == current;
    if current != [] {
      GroupsOfRun(current);
    }
  }

  /** One pass of the sync route's loop: a separator closes the pending group, which is
      the answer when it matches; any other block joins the pending group. */
  method FirstMatchStep(o: Original, block: Block, current: seq<Block>, ghost rest: seq<Block>)
    returns (current': seq<Block>, hit: bool)
    requires NoSeparator(current)
    ensures hit ==> current != [] && FirstMatching(o, Groups(current + ([block] + rest))) == Some(current)
    ensures !hit ==>
      NoSeparator(current')
      && FirstMatching(o, Groups(current + ([block] + rest))) == FirstMatching(o, Groups(current' + rest))
  {
    current', hit := current, false;
    var isEmpty := IsSeparator(block);
    if isEmpty && |current| > 0 {
      FirstMatchAfterClose(o, current, block, rest);
      if Matches(o, current) {
        hit := true;
        return;
      }
      current' := [];
      assert current' + rest == rest;
      return;
    }
    KeepBlock(current, block, rest);
    if !isEmpty || |current| > 0 {
      current' := current + [block];
    } else {
      assert current' + rest == rest;
    }
  }

  /** The sync route's loop: the first group that matches, closed by a separator or by
      the end of the page. */
  method FindFirstMatch(o: Original, page: seq<Block>) returns (r: Option<seq<Block>>)
    ensures r == FirstMatched(o, page)
  {
    var matching: seq<Block> := [];
    var current: seq<Block> := [];
    var found := false;
    var i := 0;
    assert current + page[0..] == page;
    while i < |page|
      invariant 0 <= i <= |page|
      invariant !found && matching == []
      invariant NoSeparator(current)
      invariant FirstMatched(o, page) == FirstMatching(o, Groups(current + page[i..]))
    {
      var block := page[i];
      ghost var rest := page[i + 1..];
      SuffixStep(page, i);
      var next, hit := FirstMatchStep(o, block, current, rest);
      if hit {
        assert matching + current == current;
        matching := matching + current;
        found := true;
        assert FirstMatched(o, page) == Some(matching);
        break;
      }
      current := next;
      i := i + 1;
    }
    if !found {
      assert i == |page| && page[i..] == [];
      FirstMatchAtEnd(o, current);
      assert FirstMatched(o, page) == if current != [] && Matches(o, current) then Some(current) else None;
      if |current| > 0 && Matches(o, current) {
        assert matching + current == current;
        matching := matching + current;
        found := true;
      }
    }
    if !found || |matching| == 0 {
      r := None;
    } else {
      r := Some(matching);
    }
  }

  /** The pending group at the end of the page is the last group. */
  lemma FirstMatchAtEnd(o: Original, current: seq<Block>)
    requires NoSeparator(current)
    ensures FirstMatching(o, Groups(current + []))
      == if current != [] && Matches(o, current) then Some(current) else None
  {
    GroupsAtEnd(current);
    if current != [] {
      assert FirstMatchIndex(o, [current]) == (if Matches(o, current) then 0 else 1);
    }
  }

  /** A pending group that a separator closes is kept when it matches. */
  lemma CloseMatchingGroups(o: Original, current: seq<Block>, s: Block, rest: seq<Block>)
    requires current != [] && NoSeparator(current) && IsSeparator(s)
    ensures Flatten(MatchingGroups(o, Groups(current + ([s] + rest))))
      == (if Matches(o, current) then current else []) + Flatten(MatchingGroups(o, Groups(rest)))
  {
    GroupsAfterClose(current, s, rest);
    var gs := [current] + Groups(rest);
    assert gs[0] == current && gs[1..] == Groups(rest);
    var tail := MatchingGroups(o, Groups(rest));
    if Matches(o, current) {
      assert MatchingGroups(o, gs) == [current] + tail;
      assert ([current] + tail)[1..] == tail;
    } else {
      assert MatchingGroups(o, gs) == [] + tail;
      assert [] + tail == tail;
      assert [] + Flatten(tail) == Flatten(tail);
    }
  }

  /** One pass of the update route's loop: a separator closes the pending group, whose
      blocks are kept when it matches; any other block joins the pending group. */
  method AllMatchesStep(o: Original, block: Block, matching: seq<Block>, current: seq<Block>,
                        ghost rest: seq<Block>)
    returns (matching': seq<Block>, current': seq<Block>, hit: bool)
    requires NoSeparator(current)
    ensures NoSeparator(current')
    ensures hit ==> matching' != []
    ensures !hit ==> matching' == matching
    ensures matching + Flatten(MatchingGroups(o, Groups(current + ([block] + rest))))
      == matching' + Flatten(MatchingGroups(o, Groups(current' + rest)))
  {
    matching', current', hit := matching, current, false;
    var isEmpty := IsSeparator(block);
    if isEmpty && |current| > 0 {
      CloseMatchingGroups(o, current, block, rest);
      var tail := Flatten(MatchingGroups(o, Groups(rest)));
      if Matches(o, current) {
        AppendAssoc(matching, current, tail);
        matching' := matching + current;
        hit := true;
      } else {
        assert [] + tail == tail;
      }
      current' := [];
      assert current' + rest == rest;
      return;
    }
    KeepBlock(current, block, rest);
    if !isEmpty || |current| > 0 {
      current' := current + [block];
    } else {
      assert current' + rest == rest;
    }
  }

  /** The update route's loop: the blocks of every matching group, in page order. */
  method FindAllMatches(o: Original, page: seq<Block>) returns (matching: seq<Block>, foundMatch: bool)
    ensures matching == AllMatched(o, page)
    ensures foundMatch <==> matching != []
  {
    matching := [];
    var current: seq<Block> := [];
    foundMatch := false;
    assert current + page[0..] == page;
    assert matching + AllMatched(o, page) == AllMatched(o, page);
    for i := 0 to |page|
      invariant foundMatch <==> matching != []
      invariant NoSeparator(current)
      invariant AllMatched(o, page) == matching + Flatten(MatchingGroups(o, Groups(current + page[i..])))
    {
      var block := page[i];
      ghost var rest := page[i + 1..];
      SuffixStep(page, i);
      var hit;
      matching, current, hit := AllMatchesStep(o, block, matching, current, rest);
      if hit {
        foundMatch := true;
      }
    }
    assert page[|page|..] == [];
    GroupsAtEnd(current);
    if |current| > 0 {
      assert [current][0] == current && [current][1..] == [];
      assert Flatten(MatchingGroups(o, [current]))
        == (if Matches(o, current) then current else []) + [];
      if Matches(o, current) {
        matching := matching + current;
        foundMatch := true;
      } else {
        assert matching + [] == matching;
      }
    } else {
      assert matching + [] == matching;
    }
  }
  // ---------------------------------------------------------------------------
  // The replacement plan
  // ---------------------------------------------------------------------------

  /** The Notion calls that replace the matched blocks: `blocks.update` of one block's
      content, `blocks.delete`, and `blocks.children.append` to the page. */
  datatype Action = UpdateBlock(id: String, content: Block) | DeleteBlock(id: String) | AppendBlock(block: Block)

  function Deletions(bs: seq<Block>): (r: seq<Action>)
    ensures |r| == |bs|
  {
    seq(|bs|, k requires 0 <= k < |bs| => DeleteBlock(bs[k].id))
  }

  function Appends(bs: seq<Block>): (r: seq<Action>)
    ensures |r| == |bs|
  {
    seq(|bs|, k requires 0 <= k < |bs| => AppendBlock(bs[k]))
  }

  /** Whether the first matched block is updated in place: `firstBlock.type === firstNewBlock?.type`. */
  predicate SameType(first: Block, newBlocks: seq<Block>) {
    newBlocks != [] && first.kind == newBlocks[0].kind
  }

  /** The calls for the first matched block. */
  function PlanHead(first: Block, newBlocks: seq<Block>): seq<Action> {
    if SameType(first, newBlocks) then [UpdateBlock(first.id, newBlocks[0])]
    else [DeleteBlock(first.id)] + (if newBlocks != [] then [AppendBlock(newBlocks[0])] else [])
  }

  /** The new blocks after the first. */
  function LaterBlocks(newBlocks: seq<Block>): seq<Block> {
    if newBlocks == [] then [] else newBlocks[1..]
  }

  /** The first matched block is updated in place when its type is that of the first new
      block, and otherwise deleted with the first new block appended; then the other
      matched blocks are deleted and the other new blocks appended. */
  function ReplacementPlan(matching: seq<Block>, newBlocks: seq<Block>): seq<Action>
    requires matching != []
  {
    PlanHead(matching[0], newBlocks) + Deletions(matching[1..]) + Appends(LaterBlocks(newBlocks))
  }

  function Ids(bs: seq<Block>): (r: seq<String>)
    ensures |r| == |bs|
  {
    seq(|bs|, k requires 0 <= k < |bs| => bs[k].id)
  }

  lemma IdsCons(bs: seq<Block>)
    requires bs != []
    ensures Ids(bs) == [bs[0].id] + Ids(bs[1..])
  {
  }

  /** The ids a plan updates in place. */
  function UpdatedIds(plan: seq<Action>): seq<String> {
    if plan == [] then []
    else (if plan[0].UpdateBlock? then [plan[0].id] else []) + UpdatedIds(plan[1..])
  }

  /** The ids a plan deletes. */
  function DeletedIds(plan: seq<Action>): seq<String> {
    if plan == [] then []
    else (if plan[0].DeleteBlock? then [plan[0].id] else []) + DeletedIds(plan[1..])
  }

  /** The blocks a plan appends to the page. */
  function AppendedBlocks(plan: seq<Action>): seq<Block> {
    if plan == [] then []
    else (if plan[0].AppendBlock? then [plan[0].block] else []) + AppendedBlocks(plan[1..])
  }

  /** The content a plan writes into an existing block. */
  function WrittenBlocks(plan: seq<Action>): seq<Block> {
    if plan == [] then []
    else (if plan[0].UpdateBlock? then [plan[0].content] else []) + WrittenBlocks(plan[1..])
  }

  lemma {:induction false} PlanPartsAppend(a: seq<Action>, b: seq<Action>)
    ensures UpdatedIds(a + b) == UpdatedIds(a) + UpdatedIds(b)
    ensures DeletedIds(a + b) == DeletedIds(a) + DeletedIds(b)
    ensures AppendedBlocks(a + b) == AppendedBlocks(a) + AppendedBlocks(b)
    ensures WrittenBlocks(a + b) == WrittenBlocks(a) + WrittenBlocks(b)
  {
    if a == [] {
      assert a + b == b;
    } else {
      assert (a + b)[0] == a[0] && (a + b)[1..] == a[1..] + b;
      PlanPartsAppend(a[1..], b);
      AppendAssoc(if a[0].UpdateBlock? then [a[0].id] else [], UpdatedIds(a[1..]), UpdatedIds(b));
      AppendAssoc(if a[0].DeleteBlock? then [a[0].id] else [], DeletedIds(a[1..]), DeletedIds(b));
      AppendAssoc(if a[0].AppendBlock? then [a[0].block] else [], AppendedBlocks(a[1..]), AppendedBlocks(b));
      AppendAssoc(if a[0].UpdateBlock? then [a[0].content] else [], WrittenBlocks(a[1..]), WrittenBlocks(b));
    }
  }

  lemma {:induction false} DeletionsParts(bs: seq<Block>)
    ensures UpdatedIds(Deletions(bs)) == [] && AppendedBlocks(Deletions(bs)) == []
    ensures WrittenBlocks(Deletions(bs)) == [] && DeletedIds(Deletions(bs)) == Ids(bs)
  {
    if bs != [] {
      assert Deletions(bs)[0] == DeleteBlock(bs[0].id);
      assert Deletions(bs)[1..] == Deletions(bs[1..]);
      DeletionsParts(bs[1..]);
      assert Ids(bs) == [bs[0].id] + Ids(bs[1..]);
    }
  }

  lemma {:induction false} AppendsParts(bs: seq<Block>)
    ensures UpdatedIds(Appends(bs)) == [] && DeletedIds(Appends(bs)) == []
    ensures WrittenBlocks(Appends(bs)) == [] && AppendedBlocks(Appends(bs)) == bs
  {
    if bs != [] {
      assert Appends(bs)[0] == AppendBlock(bs[0]);
      assert Appends(bs)[1..] == Appends(bs[1..]);
      AppendsParts(bs[1..]);
      assert bs == [bs[0]] + bs[1..];
    }
  }

  /** What the calls for the first matched block touch. */
  lemma PlanHeadParts(first: Block, newBlocks: seq<Block>)
    ensures var head := PlanHead(first, newBlocks);
      && UpdatedIds(head) == (if SameType(first, newBlocks) then [first.id] else [])
      && DeletedIds(head) == (if SameType(first, newBlocks) then [] else [first.id])
      && WrittenBlocks(head) == (if SameType(first, newBlocks) then [newBlocks[0]] else [])
      && AppendedBlocks(head) == (if SameType(first, newBlocks) || newBlocks == [] then [] else [newBlocks[0]])
      && |head| == (if SameType(first, newBlocks) || newBlocks == [] then 1 else 2)
  {
    if !SameType(first, newBlocks) && newBlocks != [] {
      PlanPartsAppend([DeleteBlock(first.id)], [AppendBlock(newBlocks[0])]);
    } else if !SameType(first, newBlocks) {
      assert PlanHead(first, newBlocks) == [DeleteBlock(first.id)];
    }
  }

  /** Every matched block is either updated in place or deleted, exactly once and in
      order; every new block either overwrites the first matched block or is appended,
      exactly once and in order; the first block is updated in place iff the types agree. */
  lemma ReplacementPlanMeaning(matching: seq<Block>, newBlocks: seq<Block>)
    requires matching != []
    ensures var plan := ReplacementPlan(matching, newBlocks);
      && UpdatedIds(plan) + DeletedIds(plan) == Ids(matching)
      && UpdatedIds(plan) == (if SameType(matching[0], newBlocks) then [matching[0].id] else [])
      && WrittenBlocks(plan) + AppendedBlocks(plan) == newBlocks
      && WrittenBlocks(plan) == (if SameType(matching[0], newBlocks) then [newBlocks[0]] else [])
      && |plan| == |matching| + |newBlocks| - (if SameType(matching[0], newBlocks) then 1 else 0)
  {
    var plan := ReplacementPlan(matching, newBlocks);
    var first := matching[0];
    PlanParts(matching, newBlocks);
    PlanHeadParts(first, newBlocks);
    IdsCons(matching);
    PlanCombine(first, matching[1..], newBlocks, UpdatedIds(plan), DeletedIds(plan),
                WrittenBlocks(plan), AppendedBlocks(plan), |plan|);
  }

  /** The head's parts joined with the deletions and appends of the rest add up to all
      matched ids and all new blocks. */
  lemma PlanCombine(first: Block, rest: seq<Block>, newBlocks: seq<Block>,
                    u: seq<String>, d: seq<String>, w: seq<Block>, a: seq<Block>, n: int)
    requires u == (if SameType(first, newBlocks) then [first.id] else [])
    requires d == (if SameType(first, newBlocks) then [] else [first.id]) + Ids(rest)
    requires w == (if SameType(first, newBlocks) then [newBlocks[0]] else [])
    requires a == (if SameType(first, newBlocks) || newBlocks == [] then [] else [newBlocks[0]])
                  + LaterBlocks(newBlocks)
    requires n == (if SameType(first, newBlocks) || newBlocks == [] then 1 else 2) + |rest| + |LaterBlocks(newBlocks)|
    ensures u + d == [first.id] + Ids(rest)
    ensures w + a == newBlocks
    ensures n == |rest| + 1 + |newBlocks| - (if SameType(first, newBlocks) then 1 else 0)
  {
    if newBlocks != [] {
      assert newBlocks == [newBlocks[0]] + newBlocks[1..];
    }
  }

  /** The plan's parts are those of its head followed by the deletions of the other
      matched blocks and the appends of the other new blocks. */
  lemma PlanParts(matching: seq<Block>, newBlocks: seq<Block>)
    requires matching != []
    ensures var plan := ReplacementPlan(matching, newBlocks);
      var head := PlanHead(matching[0], newBlocks);
      && UpdatedIds(plan) == UpdatedIds(head)
      && DeletedIds(plan) == DeletedIds(head) + Ids(matching[1..])
      && WrittenBlocks(plan) == WrittenBlocks(head)
      && AppendedBlocks(plan) == AppendedBlocks(head) + LaterBlocks(newBlocks)
      && |plan| == |head| + |matching| - 1 + |LaterBlocks(newBlocks)|
  {
    var head := PlanHead(matching[0], newBlocks);
    var dels := Deletions(matching[1..]);
    var apps := Appends(LaterBlocks(newBlocks));
    PlanPartsAppend(head, dels);
    PlanPartsAppend(head + dels, apps);
    DeletionsParts(matching[1..]);
    AppendsParts(LaterBlocks(newBlocks));
  }

  // ---------------------------------------------------------------------------
  // The sync route's queued update
  // ---------------------------------------------------------------------------

  /** The outcome of a queued 'update': the error "Highlight not found in Notion page",
      or the calls that replace the first matching group. */
  datatype QueuedUpdate = NotFoundInPage | Replace(plan: seq<Action>)

  /** The outcome for what the loop found and the converted new content. */
  function QueuedOutcome(found: Option<seq<Block>>, newBlocks: seq<Block>): QueuedUpdate
    requires found.Some? ==> found.value != []
  {
    if found.None? then NotFoundInPage else Replace(ReplacementPlan(found.value, newBlocks))
  }

  function QueuedUpdatePlan(originalHtml: Option<String>, originalText: Option<String>,
                            text: String, htmlContent: Option<String>, page: seq<Block>): QueuedUpdate
  {
    SyncMatchStartsUpdateMatch(QueuedOriginal(originalHtml, originalText), page);
    QueuedOutcome(FirstMatched(QueuedOriginal(originalHtml, originalText), page),
                  BlocksOf(SyncAdd, Source(text, htmlContent)))
  }

  /** The 'update' branch of `processQueueItem`, on the page's blocks. */
  method ProcessQueuedUpdate(originalHtml: Option<String>, originalText: Option<String>,
                             text: String, htmlContent: Option<String>, page: seq<Block>)
    returns (r: QueuedUpdate)
    ensures r == QueuedUpdatePlan(originalHtml, originalText, text, htmlContent, page)
  {
    var o := QueuedOriginal(originalHtml, originalText);
    var newBlocks := HtmlToNotionBlocks(SyncAdd, Source(text, htmlContent));
    var found := FindFirstMatch(o, page);
    if found.None? {
      return NotFoundInPage;
    }
    SyncMatchStartsUpdateMatch(o, page);
    r := Replace(ReplacementPlan(found.value, newBlocks));
  }

  /** For groups that are all non-empty and any non-empty new content: no outcome
      exactly when no group matches, and otherwise a plan that touches every block of the
      earliest matching group once and writes every new block once. */
  lemma QueuedOutcomeMeaning(o: Original, gs: seq<seq<Block>>, nb: seq<Block>)
    requires nb != []
    requires forall k :: 0 <= k < |gs| ==> gs[k] != []
    ensures FirstMatching(o, gs).Some? ==> FirstMatching(o, gs).value != []
    ensures var r := QueuedOutcome(FirstMatching(o, gs), nb);
      && (r.NotFoundInPage? <==> forall k :: 0 <= k < |gs| ==> !Matches(o, gs[k]))
      && (r.Replace? ==>
            var g := FirstMatching(o, gs).value;
            g != []
            && UpdatedIds(r.plan) + DeletedIds(r.plan) == Ids(g)
            && WrittenBlocks(r.plan) + AppendedBlocks(r.plan) == nb
            && (UpdatedIds(r.plan) != [] <==> g[0].kind == nb[0].kind))
  {
    FirstMatchingMeaning(o, gs);
    var found := FirstMatching(o, gs);
    if found.Some? {
      ReplacementPlanMeaning(found.value, nb);
    }
  }

  /** A queued update fails exactly when no group of the page matches; otherwise it
      replaces the earliest matching group, updating its first block in place iff that
      block's type is the type of the first converted block. */
  lemma QueuedUpdateMeaning(originalHtml: Option<String>, originalText: Option<String>,
                            text: String, htmlContent: Option<String>, page: seq<Block>)
    ensures var o := QueuedOriginal(originalHtml, originalText);
      var r := QueuedUpdatePlan(originalHtml, originalText, text, htmlContent, page);
      && (r.NotFoundInPage? <==> forall k :: 0 <= k < |Groups(page)| ==> !Matches(o, Groups(page)[k]))
      && (r.Replace? ==>
            var g := FirstMatched(o, page).value;
            var nb := BlocksOf(SyncAdd, Source(text, htmlContent));
            g != [] && nb != []
            && UpdatedIds(r.plan) + DeletedIds(r.plan) == Ids(g)
            && WrittenBlocks(r.plan) + AppendedBlocks(r.plan) == nb
            && (UpdatedIds(r.plan) != [] <==> g[0].kind == nb[0].kind))
  {
    var o := QueuedOriginal(originalHtml, originalText);
    var nb := BlocksOf(SyncAdd, Source(text, htmlContent));
    BlocksNeverEmpty(SyncAdd, Source(text, htmlContent));
    GroupsMeaning(page);
    QueuedOutcomeMeaning(o, Groups(page), nb);
  }

  /** A queued update that stored no original text replaces the first group of any page
      that has one: the empty original is contained in every group text. */
  lemma MissingOriginalReplacesFirstGroup(originalHtml: Option<String>, text: String,
                                          htmlContent: Option<String>, page: seq<Block>)
    requires Groups(page) != []
    ensures FirstMatched(QueuedOriginal(originalHtml, None), page) == Some(Groups(page)[0])
  {
    EmptyOriginalMatchesEverything(QueuedOriginal(originalHtml, None), Groups(page)[0]);
  }

  // ---------------------------------------------------------------------------
  // The update route
  // ---------------------------------------------------------------------------

  /** The stored highlight the update route reads: `text` and `html_content`. */
  datatype StoredHighlight = StoredHighlight(text: String, html: Option<String>)

  /** The update route's answers: 400 for a missing id or text, 400 when the Notion
      settings are missing, 404 for an unknown highlight, 200 with `updated: false` when
      no group matches, 400 when the conversion gives nothing, and otherwise the calls
      that replace every matching group. */
  datatype UpdateResponse =
    | IdAndTextRequired | NotConfigured | HighlightNotFound | NotUpdated | EmptyConversion
    | Replaced(plan: seq<Action>)

  function UpdatePost(highlightId: Option<String>, text: Option<String>, htmlContent: Option<String>,
                      apiKey: Option<String>, pageId: Option<String>,
                      stored: Option<StoredHighlight>, page: seq<Block>): UpdateResponse
  {
    if highlightId.None? || highlightId.value == [] || text.None? || text.value == [] then IdAndTextRequired
    else if apiKey.None? || apiKey.value == [] || pageId.None? || pageId.value == [] then NotConfigured
    else if stored.None? then HighlightNotFound
    else
      var matching := AllMatched(StoredOriginal(stored.value.text, stored.value.html), page);
      var newBlocks := BlocksOf(Update, Source(text.value, htmlContent));
      if matching == [] then NotUpdated
      else if newBlocks == [] then EmptyConversion
      else Replaced(ReplacementPlan(matching, newBlocks))
  }

  /** `POST /api/notion/update`; `stored` is the database row and `page` the blocks the
      Notion client lists. */
  method UpdateHighlight(highlightId: Option<String>, text: Option<String>, htmlContent: Option<String>,
                         apiKey: Option<String>, pageId: Option<String>,
                         stored: Option<StoredHighlight>, page: seq<Block>)
    returns (r: UpdateResponse)
    ensures r == UpdatePost(highlightId, text, htmlContent, apiKey, pageId, stored, page)
  {
    if highlightId.None? || highlightId.value == [] || text.None? || text.value == [] {
      return IdAndTextRequired;
    }
    if apiKey.None? || apiKey.value == [] || pageId.None? || pageId.value == [] {
      return NotConfigured;
    }
    if stored.None? {
      return HighlightNotFound;
    }
    var o := StoredOriginal(stored.value.text, stored.value.html);
    var matching, foundMatch := FindAllMatches(o, page);
    if !foundMatch || |matching| == 0 {
      return NotUpdated;
    }
    var newBlocks := HtmlToNotionBlocks(Update, Source(text.value, htmlContent));
    if |newBlocks| == 0 {
      return EmptyConversion;
    }
    r := Replaced(ReplacementPlan(matching, newBlocks));
  }

  /** The update route rejects exactly the requests without id or text; a request that
      reaches the page answers `updated: false` exactly when no group matches, never fails
      to convert, and otherwise touches every block of every matching group once. */
  lemma UpdatePostMeaning(highlightId: Option<String>, text: Option<String>, htmlContent: Option<String>,
                          apiKey: Option<String>, pageId: Option<String>,
                          stored: Option<StoredHighlight>, page: seq<Block>)
    ensures var r := UpdatePost(highlightId, text, htmlContent, apiKey, pageId, stored, page);
      && (r.IdAndTextRequired? <==>
            highlightId.None? || highlightId.value == [] || text.None? || text.value == [])
      && !r.EmptyConversion?
      && (r.NotUpdated? ==>
            (stored.Some? &&
             forall k :: 0 <= k < |Groups(page)| ==>
               !Matches(StoredOriginal(stored.value.text, stored.value.html), Groups(page)[k])))
      && (r.Replaced? ==>
            var matching := AllMatched(StoredOriginal(stored.value.text, stored.value.html), page);
            UpdatedIds(r.plan) + DeletedIds(r.plan) == Ids(matching)
            && WrittenBlocks(r.plan) + AppendedBlocks(r.plan) == BlocksOf(Update, Source(text.value, htmlContent)))
  {
    var r := UpdatePost(highlightId, text, htmlContent, apiKey, pageId, stored, page);
    if r.NotUpdated? || r.Replaced? || r.EmptyConversion? {
      var o := StoredOriginal(stored.value.text, stored.value.html);
      SyncMatchStartsUpdateMatch(o, page);
      FirstMatchingMeaning(o, Groups(page));
      BlocksNeverEmpty(Update, Source(text.value, htmlContent));
      var matching := AllMatched(o, page);
      if matching != [] {
        ReplacementPlanMeaning(matching, BlocksOf(Update, Source(text.value, htmlContent)));
      }
    }
  }

  /** Once the request carries an id, a text, the API key and the page id, the answer is
      decided by the stored row and the page alone: no row gives 404, a row whose original
      no group matches gives `updated: false`, and a row that some group matches gives the
      replacement. Without the key or the page id the answer is "not configured". */
  lemma UpdatePostOutcomes(highlightId: Option<String>, text: Option<String>, htmlContent: Option<String>,
                           apiKey: Option<String>, pageId: Option<String>,
                           stored: Option<StoredHighlight>, page: seq<Block>)
    ensures var r := UpdatePost(highlightId, text, htmlContent, apiKey, pageId, stored, page);
      var request := highlightId.Some? && highlightId.value != [] && text.Some? && text.value != [];
      var configured := apiKey.Some? && apiKey.value != [] && pageId.Some? && pageId.value != [];
      && (r.NotConfigured? <==> request && !configured)
      && (request && configured ==>
            && (r.HighlightNotFound? <==> stored.None?)
            && (r.NotUpdated? <==>
                  stored.Some? && AllMatched(StoredOriginal(stored.value.text, stored.value.html), page) == [])
            && (r.Replaced? <==>
                  stored.Some? && AllMatched(StoredOriginal(stored.value.text, stored.value.html), page) != []))
  {
    var r := UpdatePost(highlightId, text, htmlContent, apiKey, pageId, stored, page);
    if r.NotUpdated? || r.Replaced? || r.EmptyConversion? {
      BlocksNeverEmpty(Update, Source(text.value, htmlContent));
    }
  }
}
