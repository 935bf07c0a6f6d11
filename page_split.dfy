/** Splitting a Notion page into highlights, as the import and auto-import routes do:
    empty paragraphs separate groups of blocks, leading and repeated separators are
    dropped, each group becomes one highlight (its text and its markup, both trimmed)
    unless its text is blank, and the auto-import route ignores toggle blocks. The import
    route falls back to the whole page when no group gave a highlight. */
module PageSplit {
  import opened Text
  import opened Wrappers
  import opened Sequences
  import opened Notion
  import opened NotionToHtml

  /** The two routes that split pages: `import` renders one block at a time,
      `auto-import` groups lists and skips toggles. */
  datatype Route = Import | AutoImport

  /** One highlight read from a page: `{ text, html }`. */
  datatype Highlight = Highlight(text: String, html: String)

  // ---------------------------------------------------------------------------
  // Groups
  // ---------------------------------------------------------------------------

  predicate NoSeparator(bs: seq<Block>) {
    forall k :: 0 <= k < |bs| ==> !IsSeparator(bs[k])
  }

  /** The length of the leading run of blocks that are not separators. */
  function LeadingRun(bs: seq<Block>): (n: nat)
    ensures n <= |bs|
    ensures forall k :: 0 <= k < n ==> !IsSeparator(bs[k])
    ensures n < |bs| ==> IsSeparator(bs[n])
  {
    if bs == [] || IsSeparator(bs[0]) then 0 else 1 + LeadingRun(bs[1..])
  }

  /** The groups of a page: its maximal runs of blocks that are not separators. */
  function Groups(bs: seq<Block>): seq<seq<Block>>
    decreases |bs|
  {
    if bs == [] then []
    else if IsSeparator(bs[0]) then Groups(bs[1..])
    else
      var n := LeadingRun(bs);
      [bs[..n]] + Groups(bs[n..])
  }

  /** The blocks of the groups, one group after the other. */
  function Flatten(gs: seq<seq<Block>>): seq<Block> {
    if gs == [] then [] else gs[0] + Flatten(gs[1..])
  }

  /** The blocks that are not separators, in order. */
  function NonSeparators(bs: seq<Block>): seq<Block> {
    if bs == [] then []
    else (if IsSeparator(bs[0]) then [] else [bs[0]]) + NonSeparators(bs[1..])
  }

  /** Every group is non-empty and holds no separator, and the groups together hold
      exactly the page's other blocks, in order. */
  lemma {:induction false} GroupsMeaning(bs: seq<Block>)
    ensures forall k :: 0 <= k < |Groups(bs)| ==> Groups(bs)[k] != [] && NoSeparator(Groups(bs)[k])
    ensures Flatten(Groups(bs)) == NonSeparators(bs)
    decreases |bs|
  {
    if bs == [] {
    } else if IsSeparator(bs[0]) {
      GroupsMeaning(bs[1..]);
      assert [] + NonSeparators(bs[1..]) == NonSeparators(bs[1..]);
    } else {
      var n := LeadingRun(bs);
      var rest := Groups(bs[n..]);
      assert NoSeparator(bs[..n]) by {
        forall k | 0 <= k < n ensures !IsSeparator(bs[..n][k]) { assert bs[..n][k] == bs[k]; }
      }
      GroupsMeaning(bs[n..]);
      assert Groups(bs) == [bs[..n]] + rest;
      forall k | 0 <= k < |Groups(bs)|
        ensures Groups(bs)[k] != [] && NoSeparator(Groups(bs)[k])
      {
        if k > 0 { assert Groups(bs)[k] == rest[k - 1]; }
      }
      assert ([bs[..n]] + rest)[1..] == rest;
      RunNonSeparators(bs[..n]);
      assert bs[..n] + bs[n..] == bs;
      NonSeparatorsAppend(bs[..n], bs[n..]);
    }
  }

  lemma {:induction false} RunNonSeparators(a: seq<Block>)
    requires NoSeparator(a)
    ensures NonSeparators(a) == a
  {
    if a != [] {
      assert NoSeparator(a[1..]) by {
        forall k | 0 <= k < |a| - 1 ensures !IsSeparator(a[1..][k]) { assert a[1..][k] == a[k + 1]; }
      }
      RunNonSeparators(a[1..]);
      assert a == [a[0]] + a[1..];
    }
  }

  lemma {:induction false} NonSeparatorsAppend(a: seq<Block>, b: seq<Block>)
    ensures NonSeparators(a + b) == NonSeparators(a) + NonSeparators(b)
  {
    if a == [] {
      assert a + b == b;
    } else {
      assert (a + b)[1..] == a[1..] + b;
      NonSeparatorsAppend(a[1..], b);
      var first := if IsSeparator(a[0]) then [] else [a[0]];
      AppendAssoc(first, NonSeparators(a[1..]), NonSeparators(b));
    }
  }

  /** A non-empty run without separators is one group. */
  lemma GroupsOfRun(a: seq<Block>)
    requires a != [] && NoSeparator(a)
    ensures Groups(a) == [a]
  {
    LeadingRunOfRun(a, []);
    assert a + [] == a;
    assert a[..|a|] == a && a[|a|..] == [];
  }

  lemma {:induction false} LeadingRunOfRun(a: seq<Block>, rest: seq<Block>)
    requires NoSeparator(a)
    requires rest == [] || IsSeparator(rest[0])
    ensures LeadingRun(a + rest) == |a|
  {
    if a != [] {
      assert (a + rest)[1..] == a[1..] + rest;
      assert NoSeparator(a[1..]) by {
        forall k | 0 <= k < |a| - 1 ensures !IsSeparator(a[1..][k]) { assert a[1..][k] == a[k + 1]; }
      }
      LeadingRunOfRun(a[1..], rest);
      assert (a + rest)[0] == a[0];
    } else {
      assert a + rest == rest;
    }
  }

  /** A separator splits the page in two: the groups of either side, one after the other. */
  lemma {:induction false} GroupsSplit(a: seq<Block>, s: Block, b: seq<Block>)
    requires IsSeparator(s)
    ensures Groups(a + ([s] + b)) == Groups(a) + Groups(b)
    decreases |a|
  {
    var page := a + ([s] + b);
    if a == [] {
      assert page == [s] + b;
      assert page[1..] == b;
    } else if IsSeparator(a[0]) {
      assert page[0] == a[0] && page[1..] == a[1..] + ([s] + b);
      GroupsSplit(a[1..], s, b);
    } else {
      var m := LeadingRun(a);
      assert a == a[..m] + a[m..];
      assert page == a[..m] + (a[m..] + ([s] + b));
      if m < |a| {
        LeadingRunOfRun(a[..m], a[m..] + ([s] + b));
        assert page[..m] == a[..m] && page[m..] == a[m..] + ([s] + b);
        GroupsSplit(a[m..], s, b);
        AppendAssoc([a[..m]], Groups(a[m..]), Groups(b));
      } else {
        assert a[..m] == a;
        LeadingRunOfRun(a, [s] + b);
        assert page[..m] == a && page[m..] == [s] + b;
        assert ([s] + b)[1..] == b;
        GroupsOfRun(a);
      }
    }
  }

  /** Separators before the first block with content are dropped. */
  lemma LeadingSeparatorDropped(s: Block, b: seq<Block>)
    requires IsSeparator(s)
    ensures Groups([s] + b) == Groups(b)
  {
    assert ([s] + b)[1..] == b;
  }

  // ---------------------------------------------------------------------------
  // Highlights
  // ---------------------------------------------------------------------------

  /** Toggle blocks are skipped by the auto-import loop. */
  function WithoutToggles(bs: seq<Block>): (r: seq<Block>)
    ensures forall k :: 0 <= k < |r| ==> r[k].kind != Toggle
    ensures |r| <= |bs|
  {
    if bs == [] then []
    else (if bs[0].kind == Toggle then [] else [bs[0]]) + WithoutToggles(bs[1..])
  }

  /** The blocks the splitting loop of a route takes into account. */
  function Visible(route: Route, bs: seq<Block>): seq<Block> {
    if route == Import then bs else WithoutToggles(bs)
  }

  /** `blocksToHTML` of the route. */
  function RouteHtml(route: Route, g: seq<Block>): String {
    if route == Import then ImportHtml(g) else AutoHtml(g)
  }

  /** Closing a group: a highlight when its text is not blank, nothing otherwise. */
  function Emit(route: Route, g: seq<Block>): seq<Highlight> {
    var text := Trim(BlocksToText(g));
    if |text| > 0 then [Highlight(text, Trim(RouteHtml(route, g)))] else []
  }

  function EmitAll(route: Route, gs: seq<seq<Block>>): seq<Highlight> {
    if gs == [] then [] else Emit(route, gs[0]) + EmitAll(route, gs[1..])
  }

  /** The highlights the splitting loop finds. */
  function Found(route: Route, bs: seq<Block>): seq<Highlight> {
    EmitAll(route, Groups(Visible(route, bs)))
  }

  /** The highlights a route reads from a page: what the loop finds, or for the import
      route and a page where it finds nothing, the whole page as one highlight. */
  function PageHighlights(route: Route, bs: seq<Block>): seq<Highlight> {
    var found := Found(route, bs);
    if route == Import && found == [] then Emit(Import, bs) else found
  }

  /** Rendering a group and its text, and keeping it when the text is not blank. */
  method EmitGroup(route: Route, g: seq<Block>) returns (out: seq<Highlight>)
    ensures out == Emit(route, g)
  {
    var html;
    if route == Import {
      html := ImportBlocksToHtml(g);
    } else {
      html := AutoBlocksToHtml(g);
    }
    var text := BlocksToText(g);
    out := [];
    if |Trim(text)| > 0 {
      out := [Highlight(Trim(text), Trim(html))];
    }
  }

  /** The splitting of either route, with the import route's fallback. */
  method SplitPage(route: Route, bs: seq<Block>) returns (highlights: seq<Highlight>)
    ensures highlights == PageHighlights(route, bs)
  {
    highlights := SplitLoop(route, bs);
    if route == Import && |highlights| == 0 {
      highlights := EmitGroup(Import, bs);
    }
  }

  /** The splitting loop, and the closing of the last group. */
  method SplitLoop(route: Route, bs: seq<Block>) returns (highlights: seq<Highlight>)
    ensures highlights == Found(route, bs)
  {
    highlights := [];
    var current: seq<Block> := [];
    assert bs[0..] == bs;
    assert current + Visible(route, bs) == Visible(route, bs);
    assert highlights + Found(route, bs) == Found(route, bs);
    for i := 0 to |bs|
      invariant NoSeparator(current)
      invariant Found(route, bs)
        == highlights + EmitAll(route, Groups(current + Visible(route, bs[i..])))
    {
      var block := bs[i];
      ghost var rest := Visible(route, bs[i + 1..]);
      VisibleStep(route, bs, i);
      if route == AutoImport && block.kind == Toggle {
        assert Visible(route, bs[i..]) == rest;
        continue;
      }
      assert Visible(route, bs[i..]) == [block] + rest;
      highlights, current := SplitStep(route, block, highlights, current, rest);
    }
    assert Visible(route, bs[|bs|..]) == [] by { assert bs[|bs|..] == []; }
    assert current + [] == current;
    if |current| > 0 {
      var out := EmitGroup(route, current);
      GroupsOfRun(current);
      assert EmitAll(route, [current]) == out + [] by { assert [current][1..] == []; }
      assert out + [] == out;
      highlights := highlights + out;
    } else {
      assert highlights + [] == highlights;
    }
  }

  /** One pass of the loop over a block that is not skipped: a separator closes the
      pending group, any other block joins it. */
  method SplitStep(route: Route, block: Block, highlights: seq<Highlight>, current: seq<Block>,
                   ghost rest: seq<Block>)
    returns (highlights': seq<Highlight>, current': seq<Block>)
    requires NoSeparator(current)
    ensures NoSeparator(current')
    ensures highlights + EmitAll(route, Groups(current + ([block] + rest)))
      == highlights' + EmitAll(route, Groups(current' + rest))
  {
    highlights', current' := highlights, current;
    var isEmpty := IsSeparator(block);
    if isEmpty && |current| > 0 {
      var out := EmitGroup(route, current);
      CloseGroup(route, current, block, rest);
      AppendAssoc(highlights, out, EmitAll(route, Groups(rest)));
      highlights' := highlights + out;
      current' := [];
      assert current' + rest == rest;
      return;
    }
    if !isEmpty || |current| > 0 {
      AppendAssoc(current, [block], rest);
      current' := current + [block];
      assert NoSeparator(current') by {
        forall k | 0 <= k < |current'| ensures !IsSeparator(current'[k]) {
          if k == |current| { assert current'[k] == block; } else { assert current'[k] == current[k]; }
        }
      }
    } else {
      LeadingSeparatorDropped(block, rest);
      assert current + ([block] + rest) == [block] + rest;
      assert current + rest == rest;
    }
  }

  /** One pass of the loop: block `i` is skipped, or is the next visible block. */
  lemma VisibleStep(route: Route, bs: seq<Block>, i: nat)
    requires i < |bs|
    ensures Visible(route, bs[i..])
      == (if route == AutoImport && bs[i].kind == Toggle then [] else [bs[i]])
         + Visible(route, bs[i + 1..])
  {
    assert bs[i..][0] == bs[i] && bs[i..][1..] == bs[i + 1..];
    if route == Import {
      assert bs[i..] == [bs[i]] + bs[i + 1..];
    } else if bs[i].kind == Toggle {
      assert [] + WithoutToggles(bs[i + 1..]) == WithoutToggles(bs[i + 1..]);
    }
  }

  /** A separator after a pending group closes it. */
  lemma CloseGroup(route: Route, current: seq<Block>, s: Block, rest: seq<Block>)
    requires current != [] && NoSeparator(current) && IsSeparator(s)
    ensures EmitAll(route, Groups(current + ([s] + rest)))
      == Emit(route, current) + EmitAll(route, Groups(rest))
  {
    GroupsSplit(current, s, rest);
    GroupsOfRun(current);
    assert ([current] + Groups(rest))[0] == current;
    assert ([current] + Groups(rest))[1..] == Groups(rest);
  }

  // ---------------------------------------------------------------------------
  // What the splitting promises
  // ---------------------------------------------------------------------------

  /** Non-blank text with no whitespace at either end. */
  predicate HasTrimmedText(h: Highlight) {
    h.text != [] && !IsSpace(h.text[0]) && !IsSpace(h.text[|h.text| - 1])
  }

  /** Every highlight has non-blank, trimmed text; there are at most as many as groups. */
  lemma {:induction false} EmitAllTrimmed(route: Route, gs: seq<seq<Block>>)
    ensures AllTrimmed(EmitAll(route, gs))
    ensures |EmitAll(route, gs)| <= |gs|
  {
    if gs != [] {
      EmitAllTrimmed(route, gs[1..]);
      EmitTrimmed(route, gs[0]);
      AllTrimmedAppend(Emit(route, gs[0]), EmitAll(route, gs[1..]));
    }
  }

  predicate AllTrimmed(hs: seq<Highlight>) {
    forall k :: 0 <= k < |hs| ==> HasTrimmedText(hs[k])
  }

  lemma AllTrimmedAppend(e: seq<Highlight>, r: seq<Highlight>)
    requires AllTrimmed(e) && AllTrimmed(r)
    ensures AllTrimmed(e + r)
  {
    forall k | 0 <= k < |e + r| ensures HasTrimmedText((e + r)[k]) {
      if k >= |e| { assert (e + r)[k] == r[k - |e|]; } else { assert (e + r)[k] == e[k]; }
    }
  }

  lemma EmitTrimmed(route: Route, g: seq<Block>)
    ensures |Emit(route, g)| <= 1
    ensures AllTrimmed(Emit(route, g))
  {
    var text := Trim(BlocksToText(g));
    if |text| > 0 {
      assert Emit(route, g)[0].text == text;
    }
  }

  lemma PageHighlightsTrimmed(route: Route, bs: seq<Block>)
    ensures forall h :: h in PageHighlights(route, bs) ==> HasTrimmedText(h)
  {
    EmitAllTrimmed(route, Groups(Visible(route, bs)));
    EmitAllTrimmed(Import, [bs]);
    assert EmitAll(Import, [bs]) == Emit(Import, bs) + [] by { assert [bs][1..] == []; }
    assert Emit(Import, bs) + [] == Emit(Import, bs);
  }

  /** The import route reads at least one highlight from every page with text. */
  lemma ImportFindsTextualPage(bs: seq<Block>)
    requires !IsBlank(BlocksToText(bs))
    ensures PageHighlights(Import, bs) != []
  {
  }

  /** A page with text and no separator is one highlight: the whole page. */
  lemma PageWithoutSeparators(bs: seq<Block>)
    requires NoSeparator(bs) && !IsBlank(BlocksToText(bs))
    ensures PageHighlights(Import, bs)
      == [Highlight(Trim(BlocksToText(bs)), Trim(ImportHtml(bs)))]
  {
    assert bs != [];
    GroupsOfRun(bs);
    assert EmitAll(Import, [bs]) == Emit(Import, bs) + [] by { assert [bs][1..] == []; }
  }

  /** Two runs of content around one separator give each run's highlight, in order. */
  lemma TwoGroups(route: Route, a: seq<Block>, s: Block, b: seq<Block>)
    requires a != [] && b != [] && NoSeparator(a) && NoSeparator(b) && IsSeparator(s)
    ensures Found(route, a + [s] + b) == Found(route, a) + Found(route, b)
  {
    assert a + [s] + b == a + ([s] + b);
    VisibleAppend(route, a, [s] + b);
    VisibleAppend(route, [s], b);
    assert Visible(route, [s]) == [s] by {
      assert [s][1..] == [];
      assert s.kind != Toggle;
      assert [s] + [] == [s];
    }
    GroupsSplit(Visible(route, a), s, Visible(route, b));
    EmitAllAppend(route, Groups(Visible(route, a)), Groups(Visible(route, b)));
  }

  lemma {:induction false} VisibleAppend(route: Route, a: seq<Block>, b: seq<Block>)
    ensures Visible(route, a + b) == Visible(route, a) + Visible(route, b)
  {
    if route == AutoImport && a != [] {
      assert (a + b)[1..] == a[1..] + b;
      VisibleAppend(route, a[1..], b);
      var first := if a[0].kind == Toggle then [] else [a[0]];
      AppendAssoc(first, WithoutToggles(a[1..]), WithoutToggles(b));
    } else if a == [] {
      assert a + b == b;
    }
  }

  lemma {:induction false} EmitAllAppend(route: Route, x: seq<seq<Block>>, y: seq<seq<Block>>)
    ensures EmitAll(route, x + y) == EmitAll(route, x) + EmitAll(route, y)
  {
    if x == [] {
      assert x + y == y;
    } else {
      assert (x + y)[1..] == x[1..] + y;
      EmitAllAppend(route, x[1..], y);
      AppendAssoc(Emit(route, x[0]), EmitAll(route, x[1..]), EmitAll(route, y));
    }
  }

  /** The auto-import route reads the same highlights whether or not the page has
      toggles. */
  lemma TogglesAreInvisible(bs: seq<Block>)
    ensures Found(AutoImport, bs) == Found(AutoImport, WithoutToggles(bs))
  {
    WithoutTogglesIdempotent(bs);
  }

  lemma {:induction false} WithoutTogglesIdempotent(bs: seq<Block>)
    ensures WithoutToggles(WithoutToggles(bs)) == WithoutToggles(bs)
  {
    if bs != [] {
      WithoutTogglesIdempotent(bs[1..]);
      var first := if bs[0].kind == Toggle then [] else [bs[0]];
      VisibleAppend(AutoImport, first, WithoutToggles(bs[1..]));
      if first != [] { assert first[1..] == []; assert first + [] == first; }
    }
  }

  // ---------------------------------------------------------------------------
  // The import request
  // ---------------------------------------------------------------------------

  /** The import route's answer: 400 when `pageId` or `notionApiKey` is missing or
      empty, otherwise the highlights of the page fetched with them. */
  datatype ImportResponse = ParametersRequired | Highlights(highlights: seq<Highlight>)

  /** `POST /api/notion/import`; `page` stands for the blocks the Notion client returns. */
  function ImportPost(pageId: Option<String>, apiKey: Option<String>, page: seq<Block>): (r: ImportResponse)
    ensures r.ParametersRequired? <==>
      pageId.None? || pageId.value == [] || apiKey.None? || apiKey.value == []
  {
    if pageId.None? || pageId.value == [] || apiKey.None? || apiKey.value == [] then ParametersRequired
    else Highlights(PageHighlights(Import, page))
  }
}
