/** The HTML → Notion converter: `htmlToNotionRichText` and `htmlToNotionBlocks`.
    Two copies exist. The sync and add routes share one (app/api/notion/sync/route.ts and
    app/api/notion/add/route.ts are identical apart from comments); the update route has a
    simplified one (app/api/notion/update/route.ts). `Variant` selects the copy wherever
    they differ. Each regular-expression loop is a method that keeps the expression's
    scan position (`lastIndex`) explicitly and is proved against a function that states
    the loop's result. */
module HtmlToNotion {
  import opened Text
  import opened Wrappers
  import opened Markup
  import opened Notion
  import opened Sequences

  datatype Variant = SyncAdd | Update

  // ---------------------------------------------------------------------------
  // Formatting flags
  // ---------------------------------------------------------------------------

  /** The annotations every span of one call gets: `/<strong|<b/i`, `/<em|<i/i`, `/<u/i`
      and `/<code/i` run on the whole input; never struck through. */
  function FormatOf(html: String): Annotations {
    Annotations(
      bold := ContainsIgnoringCase(html, "<strong") || ContainsIgnoringCase(html, "<b"),
      italic := ContainsIgnoringCase(html, "<em") || ContainsIgnoringCase(html, "<i"),
      strikethrough := false,
      underline := ContainsIgnoringCase(html, "<u"),
      code := ContainsIgnoringCase(html, "<code"),
      color := "default")
  }

  /** The tests are prefix tests: a line break counts as bold and a list as underlined. */
  lemma FormatFlagsArePrefixTests(html: String)
    ensures ContainsIgnoringCase(html, "<br") ==> FormatOf(html).bold
    ensures ContainsIgnoringCase(html, "<ul") ==> FormatOf(html).underline
    ensures ContainsIgnoringCase(html, "<img") ==> FormatOf(html).italic
    ensures !FormatOf(html).strikethrough
  {
    if ContainsIgnoringCase(html, "<br") { ContainsPrefixIgnoringCase(html, "<br", "<b"); }
    if ContainsIgnoringCase(html, "<ul") { ContainsPrefixIgnoringCase(html, "<ul", "<u"); }
    if ContainsIgnoringCase(html, "<img") { ContainsPrefixIgnoringCase(html, "<img", "<i"); }
  }

  // ---------------------------------------------------------------------------
  // Links of the sync/add copy
  // ---------------------------------------------------------------------------

  /** A link located in the stripped text: plain[start..end] is its stripped content. */
  datatype Located = Located(href: String, text: String, start: nat, end: nat)

  predicate LocatedIn(l: Located, plain: String) {
    l.start <= l.end <= |plain| && plain[l.start..l.end] == l.text
  }

  predicate AllLocatedIn(ls: seq<Located>, plain: String) {
    forall i :: 0 <= i < |ls| ==> LocatedIn(ls[i], plain)
  }

  /** An anchor's content is stripped and looked up with the first `indexOf` in the
      stripped text; an anchor whose text is not found is dropped. */
  function Locate(plain: String, anchor: Anchor): (r: Option<Located>)
    ensures r.Some? ==> LocatedIn(r.value, plain) && r.value.href == anchor.href
  {
    var text := StripHtml(anchor.content);
    var start := IndexOf(plain, text);
    if start == -1 then None else Some(Located(anchor.href, text, start, start + |text|))
  }

  function LocateAll(plain: String, anchors: seq<Anchor>): (r: seq<Located>)
    ensures AllLocatedIn(r, plain)
    ensures |r| <= |anchors|
  {
    if anchors == [] then []
    else
      var rest := LocateAll(plain, anchors[1..]);
      match Locate(plain, anchors[0])
      case None => rest
      case Some(l) => AllLocatedInCons(l, rest, plain); [l] + rest
  }

  lemma AllLocatedInCons(l: Located, rest: seq<Located>, plain: String)
    requires LocatedIn(l, plain) && AllLocatedIn(rest, plain)
    ensures AllLocatedIn([l] + rest, plain)
  {
    forall i | 0 <= i < |[l] + rest| ensures LocatedIn(([l] + rest)[i], plain) {
      if i > 0 { assert ([l] + rest)[i] == rest[i - 1]; }
    }
  }

  lemma AllAnchorsStep(html: String, from: nat, a: Anchor)
    requires ExecAnchor(html, from) == Some(a)
    ensures AllAnchors(html, from) == [a] + AllAnchors(html, a.end)
  {
  }

  lemma LocateAllCons(plain: String, a: Anchor, rest: seq<Anchor>)
    ensures LocateAll(plain, [a] + rest)
      == (match Locate(plain, a) case None => [] case Some(l) => [l]) + LocateAll(plain, rest)
  {
    assert ([a] + rest)[1..] == rest;
  }

  /** The exec loop over the anchor pattern, locating each link as it is found. */
  method CollectLinks(html: String, plain: String) returns (links: seq<Located>)
    ensures links == LocateAll(plain, AllAnchors(html, 0))
  {
    links := [];
    var last := 0;
    var next := ExecAnchor(html, last);
    while next.Some?
      invariant next == ExecAnchor(html, last)
      invariant LocateAll(plain, AllAnchors(html, 0)) == links + LocateAll(plain, AllAnchors(html, last))
      decreases |html| + 1 - last
    {
      var anchor := next.value;
      AllAnchorsStep(html, last, anchor);
      LocateAllCons(plain, anchor, AllAnchors(html, anchor.end));
      var located := Locate(plain, anchor);
      var found := if located.Some? then [located.value] else [];
      AppendAssoc(links, found, LocateAll(plain, AllAnchors(html, anchor.end)));
      links := links + found;
      last := anchor.end;
      next := ExecAnchor(html, last);
    }
  }

  predicate SortedByStart(ls: seq<Located>) {
    forall i, j :: 0 <= i < j < |ls| ==> ls[i].start <= ls[j].start
  }

  /** Insertion before the first element that does not start earlier keeps the sort stable. */
  function InsertByStart(x: Located, t: seq<Located>): seq<Located> {
    if t == [] || t[0].start >= x.start then [x] + t
    else [t[0]] + InsertByStart(x, t[1..])
  }

  /** `links.sort((a, b) => a.start - b.start)`, a stable sort. */
  function SortByStart(ls: seq<Located>): seq<Located> {
    if ls == [] then [] else InsertByStart(ls[0], SortByStart(ls[1..]))
  }

  predicate AllStartFrom(ls: seq<Located>, b: nat) {
    forall i :: 0 <= i < |ls| ==> b <= ls[i].start
  }

  lemma SortedCons(y: Located, r: seq<Located>)
    requires SortedByStart(r) && AllStartFrom(r, y.start)
    ensures SortedByStart([y] + r)
  {
    var c := [y] + r;
    forall i, j | 0 <= i < j < |c| ensures c[i].start <= c[j].start {
      assert c[j] == r[j - 1];
      if i > 0 { assert c[i] == r[i - 1]; }
    }
  }

  lemma {:induction false} InsertByStartBound(x: Located, t: seq<Located>, b: nat)
    requires AllStartFrom(t, b) && b <= x.start
    ensures AllStartFrom(InsertByStart(x, t), b)
    decreases |t|
  {
    if t != [] && t[0].start < x.start {
      assert AllStartFrom(t[1..], b) by {
        forall i | 0 <= i < |t[1..]| ensures b <= t[1..][i].start { assert t[1..][i] == t[i + 1]; }
      }
      InsertByStartBound(x, t[1..], b);
      var r := InsertByStart(x, t[1..]);
      forall i | 0 <= i < |[t[0]] + r| ensures b <= ([t[0]] + r)[i].start {
        if i > 0 { assert ([t[0]] + r)[i] == r[i - 1]; }
      }
    } else {
      forall i | 0 <= i < |[x] + t| ensures b <= ([x] + t)[i].start {
        if i > 0 { assert ([x] + t)[i] == t[i - 1]; }
      }
    }
  }

  lemma {:induction false} InsertByStartSorted(x: Located, t: seq<Located>)
    requires SortedByStart(t)
    ensures SortedByStart(InsertByStart(x, t))
    decreases |t|
  {
    if t == [] || t[0].start >= x.start {
      SortedCons(x, t);
    } else {
      var tail := t[1..];
      assert SortedByStart(tail) by {
        forall i, j | 0 <= i < j < |tail| ensures tail[i].start <= tail[j].start {
          assert tail[i] == t[i + 1] && tail[j] == t[j + 1];
        }
      }
      assert AllStartFrom(tail, t[0].start) by {
        forall i | 0 <= i < |tail| ensures t[0].start <= tail[i].start { assert tail[i] == t[i + 1]; }
      }
      InsertByStartSorted(x, tail);
      InsertByStartBound(x, tail, t[0].start);
      SortedCons(t[0], InsertByStart(x, tail));
    }
  }

  lemma {:induction false} InsertByStartPermutes(x: Located, t: seq<Located>)
    ensures multiset(InsertByStart(x, t)) == multiset(t) + multiset{x}
    decreases |t|
  {
    if t != [] && t[0].start < x.start {
      InsertByStartPermutes(x, t[1..]);
      assert t == [t[0]] + t[1..];
    }
  }

  /** The sorted links are a permutation of the located ones, ordered by start. */
  lemma {:induction false} SortByStartMeaning(ls: seq<Located>)
    ensures multiset(SortByStart(ls)) == multiset(ls)
    ensures SortedByStart(SortByStart(ls))
    ensures forall v :: WithStart(SortByStart(ls), v) == WithStart(ls, v)
  {
    forall v ensures WithStart(SortByStart(ls), v) == WithStart(ls, v) {
      SortByStartIsStable(ls, v);
    }
    if ls != [] {
      SortByStartMeaning(ls[1..]);
      InsertByStartPermutes(ls[0], SortByStart(ls[1..]));
      InsertByStartSorted(ls[0], SortByStart(ls[1..]));
      assert ls == [ls[0]] + ls[1..];
    }
  }
  /** The links starting at `v`, in order. */
  function WithStart(ls: seq<Located>, v: int): seq<Located> {
    if ls == [] then [] else (if ls[0].start == v then [ls[0]] else []) + WithStart(ls[1..], v)
  }

  lemma {:induction false} WithStartInsert(x: Located, t: seq<Located>, v: int)
    ensures WithStart(InsertByStart(x, t), v) == if x.start == v then [x] + WithStart(t, v) else WithStart(t, v)
  {
    if t == [] || t[0].start >= x.start {
      assert ([x] + t)[1..] == t;
    } else {
      WithStartInsert(x, t[1..], v);
      var rest := InsertByStart(x, t[1..]);
      assert ([t[0]] + rest)[1..] == rest;
    }
  }

  /** The sort is stable: links with the same start keep their collection order, so
      anchors with the same text are handled in document order. */
  lemma {:induction false} SortByStartIsStable(ls: seq<Located>, v: int)
    ensures WithStart(SortByStart(ls), v) == WithStart(ls, v)
  {
    if ls != [] {
      SortByStartIsStable(ls[1..], v);
      WithStartInsert(ls[0], SortByStart(ls[1..]), v);
    }
  }


  lemma SortKeepsLocated(ls: seq<Located>, plain: String)
    requires AllLocatedIn(ls, plain)
    ensures AllLocatedIn(SortByStart(ls), plain)
  {
    SortByStartMeaning(ls);
    var r := SortByStart(ls);
    forall k | 0 <= k < |r| ensures LocatedIn(r[k], plain) {
      assert r[k] in multiset(ls);
    }
  }

  /** The spans the link loop emits from position `pos` on: the unlinked text before each
      link that starts after `pos`, the link itself, then whatever follows the last link. */
  function Segments(plain: String, links: seq<Located>, pos: nat, fmt: Annotations): seq<Span>
    requires pos <= |plain| && AllLocatedIn(links, plain)
  {
    if links == [] then
      if pos < |plain| then [Span(plain[pos..], fmt, None)] else []
    else
      var link := links[0];
      (if link.start > pos then [Span(plain[pos..link.start], fmt, None)] else [])
        + [Span(link.text, fmt, Some(link.href))]
        + Segments(plain, links[1..], link.end, fmt)
  }

  lemma SegmentsStep(plain: String, links: seq<Located>, i: nat, pos: nat, fmt: Annotations)
    requires pos <= |plain| && AllLocatedIn(links, plain) && i < |links|
    ensures AllLocatedIn(links[i..], plain) && AllLocatedIn(links[i + 1..], plain)
    ensures Segments(plain, links[i..], pos, fmt)
      == ((if links[i].start > pos then [Span(plain[pos..links[i].start], fmt, None)] else [])
          + [Span(links[i].text, fmt, Some(links[i].href))])
        + Segments(plain, links[i + 1..], links[i].end, fmt)
  {
    assert links[i..][1..] == links[i + 1..];
    assert LocatedIn(links[i], plain);
  }

  /** One pass of the link loop: appending the link's part keeps the spans emitted so far
      plus the spans still to come equal to the whole. */
  lemma LinkStep(plain: String, links: seq<Located>, i: nat, pos: nat, fmt: Annotations,
                 spans: seq<Span>, part: seq<Span>, total: seq<Span>)
    requires pos <= |plain| && AllLocatedIn(links, plain) && i < |links|
    requires AllLocatedIn(links[i..], plain)
    requires spans + Segments(plain, links[i..], pos, fmt) == total
    requires part == (if links[i].start > pos then [Span(plain[pos..links[i].start], fmt, None)] else [])
                     + [Span(links[i].text, fmt, Some(links[i].href))]
    ensures links[i].end <= |plain| && AllLocatedIn(links[i + 1..], plain)
    ensures (spans + part) + Segments(plain, links[i + 1..], links[i].end, fmt) == total
  {
    SegmentsStep(plain, links, i, pos, fmt);
    AppendAssoc(spans, part, Segments(plain, links[i + 1..], links[i].end, fmt));
  }

  /** The body of the link loop: the unlinked text before the link, when there is any,
      then the link itself. */
  method LinkPart(plain: String, currentPos: nat, link: Located, fmt: Annotations) returns (part: seq<Span>)
    requires currentPos <= |plain| && LocatedIn(link, plain)
    ensures part == (if link.start > currentPos then [Span(plain[currentPos..link.start], fmt, None)] else [])
                    + [Span(link.text, fmt, Some(link.href))]
  {
    part := [];
    if link.start > currentPos {
      var beforeText := plain[currentPos..link.start];
      if beforeText != [] {
        part := part + [Span(beforeText, fmt, None)];
      }
    }
    part := part + [Span(link.text, fmt, Some(link.href))];
  }

  /** The `for (const link of sortedLinks)` loop with its `currentPos`, and the remaining text. */
  method SplitAtLinks(plain: String, links: seq<Located>, fmt: Annotations) returns (spans: seq<Span>)
    requires AllLocatedIn(links, plain)
    ensures spans == Segments(plain, links, 0, fmt)
  {
    spans := [];
    var currentPos: nat := 0;
    var i := 0;
    assert links[0..] == links;
    while i < |links|
      invariant 0 <= i <= |links| && currentPos <= |plain|
      invariant AllLocatedIn(links[i..], plain)
      invariant spans + Segments(plain, links[i..], currentPos, fmt) == Segments(plain, links, 0, fmt)
    {
      var link := links[i];
      assert LocatedIn(link, plain);
      var part := LinkPart(plain, currentPos, link, fmt);
      LinkStep(plain, links, i, currentPos, fmt, spans, part, Segments(plain, links, 0, fmt));
      spans := spans + part;
      currentPos := link.end;
      i := i + 1;
    }
    assert links[i..] == [];
    if currentPos < |plain| {
      var remainingText := plain[currentPos..];
      spans := spans + [Span(remainingText, fmt, None)];
    } else {
      assert spans + [] == spans;
    }
  }

  /** Consecutive links do not overlap. */
  predicate Disjoint(ls: seq<Located>) {
    forall i :: 0 <= i < |ls| - 1 ==> ls[i].end <= ls[i + 1].start
  }

  /** With non-overlapping links, the spans spell out the stripped text exactly. */
  lemma {:induction false} SegmentsSpellText(plain: String, links: seq<Located>, pos: nat, fmt: Annotations)
    requires pos <= |plain| && AllLocatedIn(links, plain) && Disjoint(links)
    requires links != [] ==> pos <= links[0].start
    ensures PlainText(Segments(plain, links, pos, fmt)) == plain[pos..]
    decreases |links|
  {
    if links != [] {
      DisjointTail(plain, links);
      SegmentsSpellText(plain, links[1..], links[0].end, fmt);
      SegmentsSpellCons(plain, links, pos, fmt);
    }
  }

  /** The links after the first are still located, disjoint and start after the first ends. */
  lemma DisjointTail(plain: String, links: seq<Located>)
    requires links != [] && AllLocatedIn(links, plain) && Disjoint(links)
    ensures links[0].end <= |plain| && AllLocatedIn(links[1..], plain) && Disjoint(links[1..])
    ensures |links| > 1 ==> links[0].end <= links[1].start
  {
    assert LocatedIn(links[0], plain);
  }

  /** The spans of a non-empty link list spell the text once those of its tail do. */
  lemma SegmentsSpellCons(plain: String, links: seq<Located>, pos: nat, fmt: Annotations)
    requires pos <= |plain| && links != [] && AllLocatedIn(links, plain) && pos <= links[0].start
    requires links[0].end <= |plain| && AllLocatedIn(links[1..], plain)
    requires PlainText(Segments(plain, links[1..], links[0].end, fmt)) == plain[links[0].end..]
    ensures PlainText(Segments(plain, links, pos, fmt)) == plain[pos..]
  {
    SegmentsStep(plain, links, 0, pos, fmt);
    assert links[0..] == links;
    var link := links[0];
    var before: seq<Span> := if link.start > pos then [Span(plain[pos..link.start], fmt, None)] else [];
    SpellStep(plain, pos, link, fmt, before, Segments(plain, links[1..], link.end, fmt));
  }

  /** One link's step: the text before it, its own text and the rest spell the text from `pos` on. */
  lemma SpellStep(plain: String, pos: nat, link: Located, fmt: Annotations, before: seq<Span>, rest: seq<Span>)
    requires LocatedIn(link, plain) && pos <= link.start
    requires before == (if link.start > pos then [Span(plain[pos..link.start], fmt, None)] else [])
    requires PlainText(rest) == plain[link.end..]
    ensures PlainText((before + [Span(link.text, fmt, Some(link.href))]) + rest) == plain[pos..]
  {
    assert PlainText(before) == plain[pos..link.start];
    PlainTextAppend(before + [Span(link.text, fmt, Some(link.href))], rest);
    PlainTextAppend(before, [Span(link.text, fmt, Some(link.href))]);
    assert plain[pos..] == plain[pos..link.start] + plain[link.start..link.end] + plain[link.end..];
  }

  /** The linked spans, in order, are the links, each with its own href and text. */
  function LinkedParts(spans: seq<Span>): seq<(String, String)> {
    if spans == [] then []
    else if spans[0].href.Some? then [(spans[0].href.value, spans[0].plainText)] + LinkedParts(spans[1..])
    else LinkedParts(spans[1..])
  }

  function LinkParts(links: seq<Located>): seq<(String, String)> {
    if links == [] then [] else [(links[0].href, links[0].text)] + LinkParts(links[1..])
  }

  lemma {:induction false} LinkedPartsAppend(a: seq<Span>, b: seq<Span>)
    ensures LinkedParts(a + b) == LinkedParts(a) + LinkedParts(b)
  {
    if a != [] {
      assert (a + b)[1..] == a[1..] + b;
      LinkedPartsAppend(a[1..], b);
    } else {
      assert a + b == b;
    }
  }

  lemma {:induction false} SegmentsCarryLinks(plain: String, links: seq<Located>, pos: nat, fmt: Annotations)
    requires pos <= |plain| && AllLocatedIn(links, plain)
    ensures LinkedParts(Segments(plain, links, pos, fmt)) == LinkParts(links)
    decreases |links|
  {
    if links != [] {
      var link := links[0];
      var before: seq<Span> := if link.start > pos then [Span(plain[pos..link.start], fmt, None)] else [];
      var rest := Segments(plain, links[1..], link.end, fmt);
      SegmentsCarryLinks(plain, links[1..], link.end, fmt);
      LinkedPartsAppend(before, [Span(link.text, fmt, Some(link.href))] + rest);
      LinkedPartsAppend([Span(link.text, fmt, Some(link.href))], rest);
      assert Segments(plain, links, pos, fmt) == before + ([Span(link.text, fmt, Some(link.href))] + rest);
    }
  }

  /** Every span the loop emits carries the call's annotations. */
  lemma {:induction false} SegmentsShareFormat(plain: String, links: seq<Located>, pos: nat, fmt: Annotations)
    requires pos <= |plain| && AllLocatedIn(links, plain)
    ensures forall s :: s in Segments(plain, links, pos, fmt) ==> s.annotations == fmt
    decreases |links|
  {
    if links != [] {
      SegmentsShareFormat(plain, links[1..], links[0].end, fmt);
    }
  }

  /** The sorted, located links of the sync/add copy. */
  function SortedLinks(html: String, plain: String): (r: seq<Located>)
    ensures AllLocatedIn(r, plain)
  {
    var links := LocateAll(plain, AllAnchors(html, 0));
    SortKeepsLocated(links, plain);
    SortByStart(links)
  }

  /** The rich text of the sync/add copy for a non-empty stripped text. */
  function LinkedSpans(html: String, plain: String): (r: seq<Span>)
    ensures forall s :: s in r ==> s.annotations == FormatOf(html)
  {
    var fmt := FormatOf(html);
    var spans := Segments(plain, SortedLinks(html, plain), 0, fmt);
    SegmentsShareFormat(plain, SortedLinks(html, plain), 0, fmt);
    if spans == [] then [Span(plain, fmt, None)] else spans
  }

  // ---------------------------------------------------------------------------
  // The single segment of the update copy
  // ---------------------------------------------------------------------------

  /** `links.find(link => segmentStart >= link.start && segmentEnd <= link.end)`. */
  function FirstContaining(links: seq<Anchor>, segStart: int, segEnd: int): (r: Option<Anchor>)
    ensures r.Some? ==> r.value in links && r.value.start <= segStart && segEnd <= r.value.end
    ensures r.None? ==> forall a :: a in links ==> !(a.start <= segStart && segEnd <= a.end)
  {
    if links == [] then None
    else if segStart >= links[0].start && segEnd <= links[0].end then Some(links[0])
    else FirstContaining(links[1..], segStart, segEnd)
  }

  /** `processSegment(text, annotations)`: nothing for blank text, otherwise one span, linked
      when the first occurrence of the text in the HTML lies inside a link whose raw content
      first occurs at that same place. */
  function SegmentSpan(html: String, links: seq<Anchor>, text: String, fmt: Annotations): (r: seq<Span>)
    ensures |r| <= 1 && forall s :: s in r ==> s.annotations == fmt
  {
    if IsBlank(text) then []
    else
      var segStart := IndexOf(html, text);
      var segEnd := segStart + |text|;
      match FirstContaining(links, segStart, segEnd)
      case Some(link) =>
        if segStart == IndexOf(html, link.content) then [Span(text, fmt, Some(link.href))]
        else [Span(text, fmt, None)]
      case None => [Span(text, fmt, None)]
  }

  /** The exec loop of the update copy, which records raw anchors. */
  method CollectAnchors(html: String) returns (links: seq<Anchor>)
    ensures links == AllAnchors(html, 0)
  {
    links := [];
    var last := 0;
    var next := ExecAnchor(html, last);
    while next.Some?
      invariant next == ExecAnchor(html, last)
      invariant AllAnchors(html, 0) == links + AllAnchors(html, last)
      decreases |html| + 1 - last
    {
      AllAnchorsStep(html, last, next.value);
      AppendAssoc(links, [next.value], AllAnchors(html, next.value.end));
      links := links + [next.value];
      last := next.value.end;
      next := ExecAnchor(html, last);
    }
  }

  // ---------------------------------------------------------------------------
  // htmlToNotionRichText
  // ---------------------------------------------------------------------------

  /** `htmlToNotionRichText(html)` of the chosen copy. */
  function RichTextOf(v: Variant, html: String): seq<Span> {
    if IsBlank(html) then []
    else
      var plain := StripHtml(html);
      var spans := TextSpans(v, html, plain);
      if spans != [] then spans
      else [Span(if plain != [] then plain else html, Unformatted, None)]
  }

  /** The spans of the chosen copy for the stripped text: none when it is empty. */
  function TextSpans(v: Variant, html: String, plain: String): (r: seq<Span>)
    ensures forall s :: s in r ==> s.annotations == FormatOf(html)
  {
    if plain == [] then []
    else if v == SyncAdd then LinkedSpans(html, plain)
    else SegmentSpan(html, AllAnchors(html, 0), plain, FormatOf(html))
  }

  method RichText(v: Variant, html: String) returns (richText: seq<Span>)
    ensures richText == RichTextOf(v, html)
  {
    if IsBlank(html) {
      return [];
    }
    richText := [];
    var plainText := StripHtml(html);
    if plainText != [] {
      var fmt := FormatOf(html);
      if v == SyncAdd {
        var links := CollectLinks(html, plainText);
        SortKeepsLocated(links, plainText);
        var sortedLinks := SortByStart(links);
        richText := SplitAtLinks(plainText, sortedLinks, fmt);
        if richText == [] {
          richText := [Span(plainText, fmt, None)];
        }
      } else {
        var links := CollectAnchors(html);
        richText := SegmentSpan(html, links, plainText, fmt);
      }
    }
    if richText == [] {
      richText := [Span(if plainText != [] then plainText else html, Unformatted, None)];
    }
  }

  /** Both copies return no span exactly for blank input. */
  lemma RichTextEmptyIffBlank(v: Variant, html: String)
    ensures RichTextOf(v, html) == [] <==> IsBlank(html)
  {
  }

  /** Input whose stripped text is empty, such as a lone tag, gives one unformatted span
      holding the raw markup. */
  lemma TagOnlyInputKeepsMarkup(v: Variant, html: String)
    requires !IsBlank(html) && StripHtml(html) == []
    ensures RichTextOf(v, html) == [Span(html, Unformatted, None)]
  {
  }

  /** Input made of complete tags only, such as a lone `<br>`, is sent as its own markup
      in one unformatted span. */
  lemma TagsOnlyAreKeptAsMarkup(v: Variant, tags: seq<String>)
    requires tags != [] && forall k :: 0 <= k < |tags| ==> IsTag(tags[k])
    ensures RichTextOf(v, Concat(tags)) == [Span(Concat(tags), Unformatted, None)]
  {
    StripTagsOfTagsOnly(tags);
    TagsStartWithOpener(tags);
    OpenerOnlyIsKeptAsMarkup(v, Concat(tags));
  }

  /** Markup that starts with `<` and strips to nothing is sent as it is. */
  lemma OpenerOnlyIsKeptAsMarkup(v: Variant, html: String)
    requires html != [] && html[0] == '<' && StripTags(html) == []
    ensures RichTextOf(v, html) == [Span(html, Unformatted, None)]
  {
    OpenerIsNotBlank(html);
    NoTextStripsToNothing(html);
    TagOnlyInputKeepsMarkup(v, html);
  }

  lemma NoTextStripsToNothing(html: String)
    requires StripTags(html) == []
    ensures StripHtml(html) == []
  {
    DecodeWithoutAmpersand(StripTags(html));
  }

  lemma TagsStartWithOpener(tags: seq<String>)
    requires tags != [] && IsTag(tags[0])
    ensures Concat(tags) != [] && Concat(tags)[0] == '<'
  {
    ConcatCons(tags[0], tags[1..]);
    assert [tags[0]] + tags[1..] == tags;
  }

  lemma OpenerIsNotBlank(html: String)
    requires html != [] && html[0] == '<'
    ensures !IsBlank(html)
  {
    BlankIffAllSpace(html);
    assert !IsSpace(html[0]);
  }

  /** Whenever there is text, every span of one call carries the same annotations, taken
      from the whole input; no span is ever struck through. */
  lemma RichTextSharesFormat(v: Variant, html: String)
    ensures StripHtml(html) != [] ==> forall s :: s in RichTextOf(v, html) ==> s.annotations == FormatOf(html)
    ensures forall s :: s in RichTextOf(v, html) ==> !s.annotations.strikethrough && s.annotations.color == "default"
  {
    var fmt := FormatOf(html);
    assert !fmt.strikethrough && fmt.color == "default";
    if !IsBlank(html) {
      var plain := StripHtml(html);
      if plain != [] {
        TextSpansNonEmpty(v, html, plain);
        assert RichTextOf(v, html) == TextSpans(v, html, plain);
      } else {
        assert RichTextOf(v, html) == [Span(html, Unformatted, None)];
      }
    }
  }

  /** A non-empty stripped text is not blank, so the chosen copy emits at least one span. */
  lemma TextSpansNonEmpty(v: Variant, html: String, plain: String)
    requires plain == StripHtml(html) && plain != []
    ensures TextSpans(v, html, plain) != []
  {
    BlankIffAllSpace(plain);
    assert !IsSpace(plain[0]);
  }

  /** The update copy emits exactly one span for non-blank input; when the input has text,
      that span holds the whole stripped text. */
  lemma UpdateRichTextIsOneSpan(html: String)
    requires !IsBlank(html)
    ensures |RichTextOf(Update, html)| == 1
    ensures StripHtml(html) != [] ==> RichTextOf(Update, html)[0].plainText == StripHtml(html)
  {
    var plain := StripHtml(html);
    if plain != [] {
      BlankIffAllSpace(plain);
      assert !IsSpace(plain[0]);
    }
  }

  /** With non-overlapping located links, the sync/add spans spell out the stripped text,
      and the linked spans are the links in order of position, each with its href. */
  lemma SyncAddSpansSpellText(html: String)
    requires !IsBlank(html) && StripHtml(html) != []
    requires Disjoint(SortedLinks(html, StripHtml(html)))
    ensures PlainText(RichTextOf(SyncAdd, html)) == StripHtml(html)
    ensures LinkedParts(RichTextOf(SyncAdd, html)) == LinkParts(SortedLinks(html, StripHtml(html)))
  {
    var plain := StripHtml(html);
    var links := SortedLinks(html, plain);
    var fmt := FormatOf(html);
    SortByStartMeaning(LocateAll(plain, AllAnchors(html, 0)));
    SegmentsSpellText(plain, links, 0, fmt);
    SegmentsCarryLinks(plain, links, 0, fmt);
    assert plain[0..] == plain;
  }

  // ---------------------------------------------------------------------------
  // htmlToNotionBlocks
  // ---------------------------------------------------------------------------

  /** Items of one list's content: each `<li>` match (flags gis) gives an item of the
      list's kind when its rich text is non-empty. */
  function ListItems(v: Variant, content: String, kind: BlockType, from: nat): (r: seq<Block>)
    ensures forall b :: b in r ==> b.kind == kind
    decreases |content| + 1 - from
  {
    match Exec(content, "li", true, from)
    case None => []
    case Some(m) =>
      var richText := RichTextOf(v, Inner(content, m));
      (if richText != [] then [NewBlock(kind, richText)] else []) + ListItems(v, content, kind, m.end)
  }

  /** The items of every list element `listTag` (flags gis) of the input, list by list. */
  function Lists(v: Variant, html: String, listTag: String, kind: BlockType, from: nat): (r: seq<Block>)
    ensures forall b :: b in r ==> b.kind == kind
    decreases |html| + 1 - from
  {
    match Exec(html, listTag, true, from)
    case None => []
    case Some(m) => ListItems(v, Inner(html, m), kind, 0) + Lists(v, html, listTag, kind, m.end)
  }

  lemma ListItemsStep(v: Variant, content: String, kind: BlockType, from: nat, m: Match)
    requires Exec(content, "li", true, from) == Some(m)
    ensures ListItems(v, content, kind, from)
      == (var richText := RichTextOf(v, Inner(content, m));
          if richText != [] then [NewBlock(kind, richText)] else [])
        + ListItems(v, content, kind, m.end)
  {
  }

  /** The inner `liRegex` loop over one list's content. */
  method ItemLoop(v: Variant, content: String, kind: BlockType) returns (blocks: seq<Block>)
    ensures blocks == ListItems(v, content, kind, 0)
  {
    blocks := [];
    var last := 0;
    var liMatch := Exec(content, "li", true, last);
    while liMatch.Some?
      invariant liMatch == Exec(content, "li", true, last)
      invariant ListItems(v, content, kind, 0) == blocks + ListItems(v, content, kind, last)
      decreases |content| + 1 - last
    {
      var m := liMatch.value;
      ListItemsStep(v, content, kind, last, m);
      var richText := RichText(v, Inner(content, m));
      var item := if richText != [] then [NewBlock(kind, richText)] else [];
      AppendAssoc(blocks, item, ListItems(v, content, kind, m.end));
      blocks := blocks + item;
      last := m.end;
      liMatch := Exec(content, "li", true, last);
    }
  }

  lemma ListsStep(v: Variant, html: String, listTag: String, kind: BlockType, from: nat, m: Match)
    requires Exec(html, listTag, true, from) == Some(m)
    ensures Lists(v, html, listTag, kind, from)
      == ListItems(v, Inner(html, m), kind, 0) + Lists(v, html, listTag, kind, m.end)
  {
  }

  /** The outer `ulRegex` (or `olRegex`) loop over the whole input. */
  method ListLoop(v: Variant, html: String, listTag: String, kind: BlockType) returns (blocks: seq<Block>)
    ensures blocks == Lists(v, html, listTag, kind, 0)
  {
    blocks := [];
    var last := 0;
    var listMatch := Exec(html, listTag, true, last);
    while listMatch.Some?
      invariant listMatch == Exec(html, listTag, true, last)
      invariant Lists(v, html, listTag, kind, 0) == blocks + Lists(v, html, listTag, kind, last)
      decreases |html| + 1 - last
    {
      var m := listMatch.value;
      ListsStep(v, html, listTag, kind, last, m);
      var items := ItemLoop(v, Inner(html, m), kind);
      AppendAssoc(blocks, items, Lists(v, html, listTag, kind, m.end));
      blocks := blocks + items;
      last := m.end;
      listMatch := Exec(html, listTag, true, last);
    }
  }

  /** The text of a code block: the whole `<pre>` match with tags removed and trimmed in
      the sync/add copy (entities stay encoded); the inner content through `stripHtml` in
      the update copy (entities decoded). */
  function CodeText(v: Variant, s: String, m: Match): String
    requires ValidIn(m, s)
  {
    match v
    case SyncAdd => Trim(StripTags(Whole(s, m)))
    case Update => StripHtml(Inner(s, m))
  }

  /** The block a heading, quote or pre match gives, if any. */
  function Emit(v: Variant, s: String, m: Match, kind: BlockType): (r: seq<Block>)
    requires ValidIn(m, s)
    ensures forall b :: b in r ==> b.kind == kind
  {
    if kind == Code then
      var code := CodeText(v, s, m);
      var keep := if v == SyncAdd then code != [] else !IsBlank(code);
      if keep then [NewBlock(Code, [Span(code, Unformatted, None)])] else []
    else
      var richText := RichTextOf(v, Inner(s, m));
      if richText != [] then [NewBlock(kind, richText)] else []
  }

  /** Cutting a match out of the text makes it shorter. */
  lemma CutShrinks(s: String, m: Match)
    requires ValidIn(m, s)
    ensures |ReplaceFirst(s, Whole(s, m), [])| < |s|
  {
    assert OccursAt(s, Whole(s, m), m.start);
  }

  /** A loop that cuts each match out of the text it scans while the expression keeps its
      `lastIndex`: after a cut, the scan resumes at the old match end of the SHORTER text,
      so what moved into the skipped stretch is never seen. Returns the blocks and the text
      left over. */
  function CutPass(v: Variant, rem: String, tag: String, dotAll: bool, kind: BlockType, last: nat)
    : (r: (seq<Block>, String))
    ensures forall b :: b in r.0 ==> b.kind == kind
    decreases |rem|
  {
    match Exec(rem, tag, dotAll, last)
    case None => ([], rem)
    case Some(m) =>
      CutShrinks(rem, m);
      var next := ReplaceFirst(rem, Whole(rem, m), []);
      var rest := CutPass(v, next, tag, dotAll, kind, m.end);
      (Emit(v, rem, m, kind) + rest.0, rest.1)
  }

  lemma CutPassStep(v: Variant, rem: String, tag: String, dotAll: bool, kind: BlockType, last: nat, m: Match)
    requires Exec(rem, tag, dotAll, last) == Some(m)
    ensures |ReplaceFirst(rem, Whole(rem, m), [])| < |rem|
    ensures var rest := CutPass(v, ReplaceFirst(rem, Whole(rem, m), []), tag, dotAll, kind, m.end);
      CutPass(v, rem, tag, dotAll, kind, last) == (Emit(v, rem, m, kind) + rest.0, rest.1)
  {
    CutShrinks(rem, m);
  }

  /** Two adjacent elements of one loop, the second no longer than the first: the first
      is cut out, the scan resumes at its old end, which lies past the end of the shorter
      text, so the second element is never turned into a block and stays in the text
      handed on to the later loops. */
  lemma AdjacentElementSkipped(v: Variant, a: String, b: String, tag: String, dotAll: bool,
                               kind: BlockType, m: Match)
    requires Exec(a + b, tag, dotAll, 0) == Some(m) && m.start == 0 && m.end == |a|
    requires ElementAt(b, tag, dotAll, 0).Some? && |b| <= |a|
    ensures CutPass(v, a + b, tag, dotAll, kind, 0) == (Emit(v, a + b, m, kind), b)
    ensures Exec(b, tag, dotAll, 0).Some?
  {
    var s := a + b;
    assert Whole(s, m) == a;
    assert OccursAt(s, a, 0);
    assert IndexOf(s, a) == 0;
    assert ReplaceFirst(s, a, []) == b;
    assert Exec(b, tag, dotAll, |a|).None?;
    assert CutPass(v, b, tag, dotAll, kind, |a|) == ([], b);
    assert Emit(v, s, m, kind) + [] == Emit(v, s, m, kind);
  }

  /** The heading, blockquote and pre loops. */
  method CutLoop(v: Variant, html: String, tag: String, dotAll: bool, kind: BlockType)
    returns (blocks: seq<Block>, remainingHtml: String)
    ensures (blocks, remainingHtml) == CutPass(v, html, tag, dotAll, kind, 0)
  {
    blocks := [];
    remainingHtml := html;
    var last := 0;
    var found := Exec(remainingHtml, tag, dotAll, last);
    assert [] + CutPass(v, html, tag, dotAll, kind, 0).0 == CutPass(v, html, tag, dotAll, kind, 0).0;
    while found.Some?
      invariant found == Exec(remainingHtml, tag, dotAll, last)
      invariant CutPass(v, html, tag, dotAll, kind, 0).0 == blocks + CutPass(v, remainingHtml, tag, dotAll, kind, last).0
      invariant CutPass(v, html, tag, dotAll, kind, 0).1 == CutPass(v, remainingHtml, tag, dotAll, kind, last).1
      decreases |remainingHtml|
    {
      var m := found.value;
      CutPassStep(v, remainingHtml, tag, dotAll, kind, last, m);
      var emitted := EmitLoopBody(v, remainingHtml, m, kind);
      var next := ReplaceFirst(remainingHtml, Whole(remainingHtml, m), []);
      AppendAssoc(blocks, emitted, CutPass(v, next, tag, dotAll, kind, m.end).0);
      blocks := blocks + emitted;
      remainingHtml := next;
      last := m.end;
      found := Exec(remainingHtml, tag, dotAll, last);
    }
    assert CutPass(v, remainingHtml, tag, dotAll, kind, last) == ([], remainingHtml);
    assert blocks + [] == blocks;
  }

  /** The body of the heading, blockquote and pre loops for one match. */
  method EmitLoopBody(v: Variant, s: String, m: Match, kind: BlockType) returns (emitted: seq<Block>)
    requires ValidIn(m, s)
    ensures emitted == Emit(v, s, m, kind)
  {
    emitted := [];
    if kind == Code {
      var code := CodeText(v, s, m);
      var keep := if v == SyncAdd then code != [] else !IsBlank(code);
      if keep {
        emitted := [NewBlock(Code, [Span(code, Unformatted, None)])];
      }
    } else {
      var richText := RichText(v, Inner(s, m));
      if richText != [] {
        emitted := [NewBlock(kind, richText)];
      }
    }
  }

  /** The paragraph loop (flags gi): nothing is cut, and a match gives a paragraph when its
      rich text is non-empty or its content is blank. */
  function Paragraphs(v: Variant, rem: String, from: nat): (r: seq<Block>)
    ensures forall b :: b in r ==> b.kind == Paragraph
    decreases |rem| + 1 - from
  {
    match Exec(rem, "p", false, from)
    case None => []
    case Some(m) =>
      var inner := Inner(rem, m);
      var richText := RichTextOf(v, inner);
      (if richText != [] || IsBlank(inner) then [NewBlock(Paragraph, richText)] else [])
        + Paragraphs(v, rem, m.end)
  }

  lemma ParagraphsStep(v: Variant, rem: String, from: nat, m: Match)
    requires Exec(rem, "p", false, from) == Some(m)
    ensures Paragraphs(v, rem, from)
      == (var richText := RichTextOf(v, Inner(rem, m));
          if richText != [] || IsBlank(Inner(rem, m)) then [NewBlock(Paragraph, richText)] else [])
        + Paragraphs(v, rem, m.end)
  {
  }

  method ParagraphLoop(v: Variant, remainingHtml: String) returns (blocks: seq<Block>)
    ensures blocks == Paragraphs(v, remainingHtml, 0)
  {
    blocks := [];
    var last := 0;
    var pMatch := Exec(remainingHtml, "p", false, last);
    while pMatch.Some?
      invariant pMatch == Exec(remainingHtml, "p", false, last)
      invariant Paragraphs(v, remainingHtml, 0) == blocks + Paragraphs(v, remainingHtml, last)
      decreases |remainingHtml| + 1 - last
    {
      var m := pMatch.value;
      ParagraphsStep(v, remainingHtml, last, m);
      var richText := RichText(v, Inner(remainingHtml, m));
      var paragraph := if richText != [] || IsBlank(Inner(remainingHtml, m)) then [NewBlock(Paragraph, richText)] else [];
      AppendAssoc(blocks, paragraph, Paragraphs(v, remainingHtml, m.end));
      blocks := blocks + paragraph;
      last := m.end;
      pMatch := Exec(remainingHtml, "p", false, last);
    }
  }

  /** Every paragraph match gives a paragraph: non-blank content always has rich text. */
  lemma EveryParagraphMatchIsKept(v: Variant, rem: String, from: nat)
    requires Exec(rem, "p", false, from).Some?
    ensures var m := Exec(rem, "p", false, from).value;
      Paragraphs(v, rem, from) == [NewBlock(Paragraph, RichTextOf(v, Inner(rem, m)))] + Paragraphs(v, rem, m.end)
  {
    RichTextEmptyIffBlank(v, Inner(rem, Exec(rem, "p", false, from).value));
  }

  /** The text the heading, quote, pre and paragraph loops scan: the input without its
      list elements. */
  function WithoutLists(html: String): String {
    var noUl := RemoveElements(html, "ul", true, 0);
    RemoveElements(noUl, "ol", true, 0)
  }

  /** The blocks the extraction loops produce, in the fixed order of the loops. */
  function Extracted(v: Variant, html: String): seq<Block> {
    var h1 := CutPass(v, WithoutLists(html), "h1", false, Heading1, 0);
    var h2 := CutPass(v, h1.1, "h2", false, Heading2, 0);
    var h3 := CutPass(v, h2.1, "h3", false, Heading3, 0);
    var quotes := CutPass(v, h3.1, "blockquote", false, Quote, 0);
    var pres := CutPass(v, quotes.1, "pre", true, Code, 0);
    Lists(v, html, "ul", BulletedListItem, 0) + Lists(v, html, "ol", NumberedListItem, 0)
      + h1.0 + h2.0 + h3.0 + quotes.0 + pres.0 + Paragraphs(v, pres.1, 0)
  }

  /** What is returned when the loops found nothing. In the sync/add copy both of the
      source's fallbacks give a paragraph of the input's rich text; in the update copy the
      second fallback is an empty paragraph. */
  function EmptyFallback(v: Variant, html: String): seq<Block> {
    match v
    case SyncAdd => [NewBlock(Paragraph, RichTextOf(v, html))]
    case Update =>
      if IsBlank(StripHtml(html)) then [NewBlock(Paragraph, [])]
      else [NewBlock(Paragraph, RichTextOf(v, html))]
  }

  /** `htmlToNotionBlocks(html)` of the chosen copy. */
  function BlocksOf(v: Variant, html: String): seq<Block> {
    if IsBlank(html) then [NewBlock(Paragraph, [])]
    else
      var found := Extracted(v, html);
      if found != [] then found else EmptyFallback(v, html)
  }

  method HtmlToNotionBlocks(v: Variant, html: String) returns (blocks: seq<Block>)
    ensures blocks == BlocksOf(v, html)
  {
    if IsBlank(html) {
      return [NewBlock(Paragraph, [])];
    }
    var bulleted := ListLoop(v, html, "ul", BulletedListItem);
    var numbered := ListLoop(v, html, "ol", NumberedListItem);
    var remainingHtml := WithoutLists(html);
    var h1, h2, h3, quotes, pres;
    h1, remainingHtml := CutLoop(v, remainingHtml, "h1", false, Heading1);
    h2, remainingHtml := CutLoop(v, remainingHtml, "h2", false, Heading2);
    h3, remainingHtml := CutLoop(v, remainingHtml, "h3", false, Heading3);
    quotes, remainingHtml := CutLoop(v, remainingHtml, "blockquote", false, Quote);
    pres, remainingHtml := CutLoop(v, remainingHtml, "pre", true, Code);
    var paragraphs := ParagraphLoop(v, remainingHtml);
    blocks := bulleted + numbered + h1 + h2 + h3 + quotes + pres + paragraphs;
    assert blocks == Extracted(v, html);
    if blocks == [] {
      blocks := Fallbacks(v, html, remainingHtml);
    }
  }

  /** The two fallbacks that run when the loops found nothing. */
  method Fallbacks(v: Variant, html: String, remainingHtml: String) returns (blocks: seq<Block>)
    ensures blocks == EmptyFallback(v, html)
  {
    blocks := [];
    var plainText := if v == SyncAdd then Trim(StripTags(remainingHtml)) else StripHtml(html);
    if (v == SyncAdd && plainText != []) || (v == Update && !IsBlank(plainText)) {
      var richText := RichText(v, html);
      blocks := [NewBlock(Paragraph, richText)];
    }
    if blocks == [] {
      if v == SyncAdd {
        var richText := RichText(v, html);
        blocks := [NewBlock(Paragraph, richText)];
      } else {
        blocks := [NewBlock(Paragraph, [])];
      }
    }
  }

  /** Position of a block type in the extraction order. */
  function Stage(k: BlockType): nat {
    match k
    case BulletedListItem => 0
    case NumberedListItem => 1
    case Heading1 => 2
    case Heading2 => 3
    case Heading3 => 4
    case Quote => 5
    case Code => 6
    case Paragraph => 7
    case _ => 8
  }

  predicate InExtractionOrder(bs: seq<Block>) {
    forall i, j :: 0 <= i < j < |bs| ==> Stage(bs[i].kind) <= Stage(bs[j].kind)
  }

  lemma AppendStage(a: seq<Block>, b: seq<Block>, k: BlockType)
    requires InExtractionOrder(a) && forall x :: x in a ==> Stage(x.kind) <= Stage(k)
    requires forall x :: x in b ==> x.kind == k
    ensures InExtractionOrder(a + b) && forall x :: x in a + b ==> Stage(x.kind) <= Stage(k)
  {
    var c := a + b;
    forall i, j | 0 <= i < j < |c| ensures Stage(c[i].kind) <= Stage(c[j].kind) {
      if j >= |a| {
        assert c[j] == b[j - |a|];
        if i >= |a| { assert c[i] == b[i - |a|]; } else { assert c[i] == a[i]; }
      } else {
        assert c[i] == a[i] && c[j] == a[j];
      }
    }
  }

  /** Never an empty list; blank input gives exactly one empty paragraph. */
  lemma BlocksNeverEmpty(v: Variant, html: String)
    ensures |BlocksOf(v, html)| >= 1
    ensures IsBlank(html) ==> BlocksOf(v, html) == [NewBlock(Paragraph, [])]
  {
  }

  /** Blocks come out by kind, in the order of the loops: bulleted items, numbered items,
      h1, h2, h3, quotes, code, paragraphs — not in document order. */
  lemma BlocksInExtractionOrder(v: Variant, html: String)
    ensures InExtractionOrder(BlocksOf(v, html))
  {
    if !IsBlank(html) && Extracted(v, html) != [] {
      var h1 := CutPass(v, WithoutLists(html), "h1", false, Heading1, 0);
      var h2 := CutPass(v, h1.1, "h2", false, Heading2, 0);
      var h3 := CutPass(v, h2.1, "h3", false, Heading3, 0);
      var quotes := CutPass(v, h3.1, "blockquote", false, Quote, 0);
      var pres := CutPass(v, quotes.1, "pre", true, Code, 0);
      StagesInOrder(Lists(v, html, "ul", BulletedListItem, 0), Lists(v, html, "ol", NumberedListItem, 0),
        h1.0, h2.0, h3.0, quotes.0, pres.0, Paragraphs(v, pres.1, 0));
    }
  }

  /** Eight runs of one kind each, in stage order, concatenate to a sequence in order. */
  lemma StagesInOrder(p0: seq<Block>, p1: seq<Block>, p2: seq<Block>, p3: seq<Block>,
                      p4: seq<Block>, p5: seq<Block>, p6: seq<Block>, p7: seq<Block>)
    requires forall x :: x in p0 ==> x.kind == BulletedListItem
    requires forall x :: x in p1 ==> x.kind == NumberedListItem
    requires forall x :: x in p2 ==> x.kind == Heading1
    requires forall x :: x in p3 ==> x.kind == Heading2
    requires forall x :: x in p4 ==> x.kind == Heading3
    requires forall x :: x in p5 ==> x.kind == Quote
    requires forall x :: x in p6 ==> x.kind == Code
    requires forall x :: x in p7 ==> x.kind == Paragraph
    ensures InExtractionOrder(p0 + p1 + p2 + p3 + p4 + p5 + p6 + p7)
  {
    AppendStage([], p0, BulletedListItem);
    assert [] + p0 == p0;
    AppendStage(p0, p1, NumberedListItem);
    AppendStage(p0 + p1, p2, Heading1);
    AppendStage(p0 + p1 + p2, p3, Heading2);
    AppendStage(p0 + p1 + p2 + p3, p4, Heading3);
    AppendStage(p0 + p1 + p2 + p3 + p4, p5, Quote);
    AppendStage(p0 + p1 + p2 + p3 + p4 + p5, p6, Code);
    AppendStage(p0 + p1 + p2 + p3 + p4 + p5 + p6, p7, Paragraph);
  }

  /** A list item whose content is blank gives no block; any other gives exactly one. */
  lemma BlankItemGivesNoBlock(v: Variant, content: String, kind: BlockType, from: nat)
    requires Exec(content, "li", true, from).Some?
    ensures var m := Exec(content, "li", true, from).value;
      |ListItems(v, content, kind, from)| == (if IsBlank(Inner(content, m)) then 0 else 1)
        + |ListItems(v, content, kind, m.end)|
  {
    RichTextEmptyIffBlank(v, Inner(content, Exec(content, "li", true, from).value));
  }

  // ---------------------------------------------------------------------------
  // The add route and the queued 'add' operation
  // ---------------------------------------------------------------------------

  datatype AddResponse = TextRequired | ConversionFailed | Append(children: seq<Block>)

  /** `htmlContent || text`: the HTML when it is non-empty, else the text. */
  function Source(text: String, htmlContent: Option<String>): String {
    if htmlContent.Some? && htmlContent.value != [] then htmlContent.value else text
  }

  /** POST of the add route: a missing or empty text is rejected; otherwise the children
      sent are the converted blocks followed by one empty separator paragraph. */
  function AddHighlight(text: Option<String>, htmlContent: Option<String>): (r: AddResponse) {
    if text.None? || text.value == [] then TextRequired
    else
      var blocks := BlocksOf(SyncAdd, Source(text.value, htmlContent));
      if blocks == [] then ConversionFailed
      else Append(blocks + [NewBlock(Paragraph, [])])
  }

  lemma AddHighlightMeaning(text: Option<String>, htmlContent: Option<String>)
    ensures AddHighlight(text, htmlContent).TextRequired? <==> text.None? || text.value == []
    ensures !AddHighlight(text, htmlContent).ConversionFailed?
    ensures AddHighlight(text, htmlContent).Append? ==>
      var c := AddHighlight(text, htmlContent).children;
      |c| >= 2 && c[|c| - 1] == NewBlock(Paragraph, []) && IsSeparator(c[|c| - 1])
        && c[..|c| - 1] == BlocksOf(SyncAdd, Source(text.value, htmlContent))
  {
    if text.Some? && text.value != [] {
      BlocksNeverEmpty(SyncAdd, Source(text.value, htmlContent));
    }
  }

  /** The queued 'add' operation of the sync route: the same conversion and separator. */
  function QueuedAddChildren(text: String, htmlContent: Option<String>): (r: seq<Block>)
    ensures |r| >= 2 && IsSeparator(r[|r| - 1])
    ensures r[..|r| - 1] == BlocksOf(SyncAdd, Source(text, htmlContent))
  {
    BlocksNeverEmpty(SyncAdd, Source(text, htmlContent));
    BlocksOf(SyncAdd, Source(text, htmlContent)) + [NewBlock(Paragraph, [])]
  }
}
