/** Reading a Notion page back into the application's HTML and text: the rich-text
    renderer both import routes share, the import route's block renderer (one block at a
    time, every list item in its own list), the auto-import route's renderer (consecutive
    list items grouped into one list, toggles dropped, nested items rendered from their
    fetched children), and the text extraction both use. */
module NotionToHtml {
  import opened Text
  import opened Wrappers
  import opened Sequences
  import opened Notion
  import opened Markup

  // ---------------------------------------------------------------------------
  // Rich text
  // ---------------------------------------------------------------------------

  /** `text.href` is truthy: present and not empty. */
  predicate HasHref(s: Span) {
    s.href.Some? && s.href.value != []
  }

  /** The template `<tag>${content}</tag>`. */
  function Wrap(tag: String, content: String): String {
    OpenTag(tag) + content + CloseTag(tag)
  }

  function OpenTag(tag: String): String { "<" + tag + ">" }
  function CloseTag(tag: String): String { "</" + tag + ">" }

  /** One rich-text item: the plain text wrapped in strong, em, u, s and code, in that
      order from the inside out, and then in an anchor when it has a link. */
  function SpanToHtml(s: Span): String {
    var content := Formatted(s.annotations, s.plainText);
    if HasHref(s) then AnchorOpen(s.href.value) + content + CloseTag("a") else content
  }

  /** The text wrapped in the tags of its annotations. */
  function Formatted(a: Annotations, text: String): String {
    var c1 := WrapWhen(a.bold, "strong", text);
    var c2 := WrapWhen(a.italic, "em", c1);
    var c3 := WrapWhen(a.underline, "u", c2);
    var c4 := WrapWhen(a.strikethrough, "s", c3);
    WrapWhen(a.code, "code", c4)
  }

  /** `if (flag) content = <tag>${content}</tag>`. */
  function WrapWhen(flag: bool, tag: String, content: String): String {
    if flag then Wrap(tag, content) else content
  }

  /** The anchor's opening tag. */
  function AnchorOpen(href: String): String {
    "<a href=\"" + href + "\">"
  }

  /** `notionRichTextToHTML`: the items rendered and joined with nothing between. */
  function RichTextToHtml(spans: seq<Span>): String {
    if spans == [] then [] else SpanToHtml(spans[0]) + RichTextToHtml(spans[1..])
  }

  /** An item without annotations or link renders as its plain text. */
  lemma PlainSpanIsItsText(s: Span)
    requires s.annotations == Unformatted && !HasHref(s)
    ensures SpanToHtml(s) == s.plainText
  {
  }

  /** A bold, italic, linked item: strong innermost, the anchor outermost. */
  lemma WrappingOrder(s: Span)
    requires s.annotations.bold && s.annotations.italic && !s.annotations.underline
    requires !s.annotations.strikethrough && !s.annotations.code && HasHref(s)
    ensures SpanToHtml(s)
      == AnchorOpen(s.href.value) + Wrap("em", Wrap("strong", s.plainText)) + CloseTag("a")
  {
  }

  // ---------------------------------------------------------------------------
  // Blocks, as the import route renders them
  // ---------------------------------------------------------------------------

  /** The rich text of a block, empty when it has none. */
  function SpansOf(b: Block): seq<Span> {
    if b.richText.Some? then b.richText.value else []
  }

  /** One pass of the import loop's `switch`. Headings, lists, quotes and code with no
      rich text render nothing; an empty paragraph renders as a line break; any other type
      with a rich-text field renders as a paragraph. */
  function BlockHtml(b: Block): String {
    var spans := SpansOf(b);
    match b.kind
    case Paragraph => if spans != [] then Wrap("p", RichTextToHtml(spans)) else "<p><br></p>"
    case Heading1 => if spans != [] then Wrap("h1", RichTextToHtml(spans)) else []
    case Heading2 => if spans != [] then Wrap("h2", RichTextToHtml(spans)) else []
    case Heading3 => if spans != [] then Wrap("h3", RichTextToHtml(spans)) else []
    case BulletedListItem =>
      if spans != [] then OpenTag("ul") + Wrap("li", RichTextToHtml(spans)) + CloseTag("ul") else []
    case NumberedListItem =>
      if spans != [] then OpenTag("ol") + Wrap("li", RichTextToHtml(spans)) + CloseTag("ol") else []
    case Quote => if spans != [] then Wrap("blockquote", RichTextToHtml(spans)) else []
    case Code => if spans != [] then OpenTag("pre") + Wrap("code", PlainText(spans)) + CloseTag("pre") else []
    case Divider => "<hr>"
    case _ => if b.richText.Some? then Wrap("p", RichTextToHtml(spans)) else []
  }

  /** The import route's `blocksToHTML`: the blocks rendered one after another. */
  function ImportHtml(bs: seq<Block>): String {
    if bs == [] then [] else BlockHtml(bs[0]) + ImportHtml(bs[1..])
  }

  /** Rendering a page is rendering its parts one after the other. */
  lemma {:induction false} ImportHtmlAppend(a: seq<Block>, b: seq<Block>)
    ensures ImportHtml(a + b) == ImportHtml(a) + ImportHtml(b)
  {
    if a == [] {
      assert a + b == b;
    } else {
      assert (a + b)[1..] == a[1..] + b;
      ImportHtmlAppend(a[1..], b);
      AppendAssoc(BlockHtml(a[0]), ImportHtml(a[1..]), ImportHtml(b));
    }
  }

  /** The markup from block `i` on is block `i`'s markup followed by the rest. */
  lemma ImportHtmlStep(bs: seq<Block>, i: nat)
    requires i < |bs|
    ensures ImportHtml(bs[i..]) == BlockHtml(bs[i]) + ImportHtml(bs[i + 1..])
  {
    assert bs[i..][0] == bs[i];
    assert bs[i..][1..] == bs[i + 1..];
  }

  /** The import route's loop, appending each block's markup to `html`. */
  method ImportBlocksToHtml(bs: seq<Block>) returns (html: String)
    ensures html == ImportHtml(bs)
  {
    html := [];
    assert bs[0..] == bs;
    for i := 0 to |bs|
      invariant ImportHtml(bs) == html + ImportHtml(bs[i..])
    {
      ImportHtmlStep(bs, i);
      AppendAssoc(html, BlockHtml(bs[i]), ImportHtml(bs[i + 1..]));
      html := html + BlockHtml(bs[i]);
    }
    assert bs[|bs|..] == [];
    assert html + [] == html;
  }

  // ---------------------------------------------------------------------------
  // Blocks, as the auto-import route renders them
  // ---------------------------------------------------------------------------

  /** The length of the leading run of blocks of type `kind`. */
  function RunLength(bs: seq<Block>, kind: BlockType): (n: nat)
    ensures n <= |bs|
    ensures forall k :: 0 <= k < n ==> bs[k].kind == kind
    ensures n < |bs| ==> bs[n].kind != kind
  {
    if bs != [] && bs[0].kind == kind then 1 + RunLength(bs[1..], kind) else 0
  }

  /** The auto-import `blocksToHTML`. A run of consecutive bulleted (numbered) items
      becomes one `<ul>` (`<ol>`) with one `<li>` each, and scanning resumes after the
      run; toggles render nothing; every other block renders as in the import route. */
  function AutoHtml(bs: seq<Block>): String
    decreases bs, 1
  {
    if bs == [] then []
    else match bs[0].kind
      case BulletedListItem =>
        var n := RunLength(bs, BulletedListItem);
        assert n == |bs| ==> bs[..n] == bs;
        OpenTag("ul") + ItemsHtml(bs[..n]) + CloseTag("ul") + AutoHtml(bs[n..])
      case NumberedListItem =>
        var n := RunLength(bs, NumberedListItem);
        assert n == |bs| ==> bs[..n] == bs;
        OpenTag("ol") + ItemsHtml(bs[..n]) + CloseTag("ol") + AutoHtml(bs[n..])
      case Toggle => AutoHtml(bs[1..])
      case _ => BlockHtml(bs[0]) + AutoHtml(bs[1..])
  }

  /** The `<li>` of each item: its rich text (empty when it has none) followed by its
      fetched children rendered in turn; an item without an id is not fetched. */
  function ItemsHtml(items: seq<Block>): String
    decreases items, 0
  {
    if items == [] then []
    else
      var item := items[0];
      var nested := if item.id != [] && item.children != [] then AutoHtml(item.children) else [];
      Wrap("li", RichTextToHtml(SpansOf(item)) + nested) + ItemsHtml(items[1..])
  }

  /** A maximal run of bulleted items, followed by anything else, is one list. */
  lemma AutoGroupsRun(run: seq<Block>, rest: seq<Block>)
    requires run != [] && forall k :: 0 <= k < |run| ==> run[k].kind == BulletedListItem
    requires rest == [] || rest[0].kind != BulletedListItem
    ensures AutoHtml(run + rest) == OpenTag("ul") + ItemsHtml(run) + CloseTag("ul") + AutoHtml(rest)
  {
    var bs := run + rest;
    RunLengthOfRun(run, rest, BulletedListItem);
    assert bs[..|run|] == run && bs[|run|..] == rest;
  }

  lemma {:induction false} RunLengthOfRun(run: seq<Block>, rest: seq<Block>, kind: BlockType)
    requires forall k :: 0 <= k < |run| ==> run[k].kind == kind
    requires rest == [] || rest[0].kind != kind
    ensures RunLength(run + rest, kind) == |run|
  {
    if run != [] {
      assert (run + rest)[1..] == run[1..] + rest;
      RunLengthOfRun(run[1..], rest, kind);
    } else {
      assert run + rest == rest;
    }
  }

  /** The auto-import loop: `i` advances one block at a time, or past a whole run of
      list items, whose children are rendered by a recursive call. */
  method AutoBlocksToHtml(bs: seq<Block>) returns (html: String)
    ensures html == AutoHtml(bs)
    decreases bs, 4
  {
    html := [];
    var i := 0;
    while i < |bs|
      invariant i <= |bs|
      invariant AutoHtml(bs) == html + AutoHtml(bs[i..])
      decreases |bs| - i
    {
      var part, next;
      if IsListItem(bs[i]) {
        part, next := ListRunToHtml(bs, i);
      } else {
        AutoOtherStep(bs, i);
        part := if bs[i].kind == Toggle then [] else BlockHtml(bs[i]);
        next := i + 1;
      }
      AppendAssoc(html, part, AutoHtml(bs[next..]));
      html := html + part;
      i := next;
    }
    assert bs[i..] == [];
    assert html + [] == html;
  }

  /** The list branch of the loop: the run of items of one type starting at `start`,
      as one list, and the index just past it. */
  method ListRunToHtml(bs: seq<Block>, start: nat) returns (part: String, end: nat)
    requires start < |bs| && IsListItem(bs[start])
    ensures start < end <= |bs|
    ensures AutoHtml(bs[start..]) == part + AutoHtml(bs[end..])
    decreases bs, 3
  {
    var kind := bs[start].kind;
    end := start + 1;
    while end < |bs| && bs[end].kind == kind
      invariant start < end <= |bs|
      invariant forall k :: start <= k < end ==> bs[k].kind == kind
      decreases |bs| - end
    {
      end := end + 1;
    }
    var list := ListItemsToHtml(bs[start..end], bs, start);
    var name := if kind == BulletedListItem then "ul" else "ol";
    AutoListStep(bs, start, end, name);
    part := OpenTag(name) + list + CloseTag(name);
  }

  /** One pass of the loop over a run of list items `bs[i..j]`. */
  lemma AutoListStep(bs: seq<Block>, i: nat, j: nat, name: String)
    requires i < j <= |bs| && IsListItem(bs[i])
    requires forall k :: i <= k < j ==> bs[k].kind == bs[i].kind
    requires j == |bs| || bs[j].kind != bs[i].kind
    requires name == if bs[i].kind == BulletedListItem then "ul" else "ol"
    ensures AutoHtml(bs[i..]) == OpenTag(name) + ItemsHtml(bs[i..j]) + CloseTag(name) + AutoHtml(bs[j..])
  {
    var rest := bs[i..];
    var items := bs[i..j];
    assert rest == items + bs[j..];
    RunLengthOfRun(items, bs[j..], bs[i].kind);
    assert rest[..|items|] == items && rest[|items|..] == bs[j..];
  }

  /** One pass of the loop over a block that is not a list item. */
  lemma AutoOtherStep(bs: seq<Block>, i: nat)
    requires i < |bs| && !IsListItem(bs[i])
    ensures AutoHtml(bs[i..])
      == (if bs[i].kind == Toggle then [] else BlockHtml(bs[i])) + AutoHtml(bs[i + 1..])
  {
    var rest := bs[i..];
    assert rest[0] == bs[i] && rest[1..] == bs[i + 1..];
    if bs[i].kind == Toggle {
      assert [] + AutoHtml(bs[i + 1..]) == AutoHtml(bs[i + 1..]);
    }
  }

  /** The `for (const item of items)` loop of one list. */
  method ListItemsToHtml(items: seq<Block>, ghost bs: seq<Block>, ghost start: nat)
    returns (html: String)
    requires start + |items| <= |bs| && items == bs[start..start + |items|]
    ensures html == ItemsHtml(items)
    decreases bs, 2
  {
    html := [];
    ItemsEnds(items, html);
    for k := 0 to |items|
      invariant ItemsHtml(items) == html + ItemsHtml(items[k..])
    {
      html := AppendItem(items, k, html, bs, start);
    }
    ItemsEnds(items, html);
  }

  /** The loop over a list's items starts with all of them and ends with none. */
  lemma ItemsEnds(items: seq<Block>, html: String)
    ensures ItemsHtml(items) == [] + ItemsHtml(items[0..])
    ensures html + ItemsHtml(items[|items|..]) == html
  {
    assert items[0..] == items;
    assert items[|items|..] == [];
  }

  /** One pass of the loop: item `k`'s `<li>` appended to the markup so far. */
  method AppendItem(items: seq<Block>, k: nat, html: String, ghost bs: seq<Block>, ghost start: nat)
    returns (next: String)
    requires start + |items| <= |bs| && items == bs[start..start + |items|]
    requires k < |items|
    ensures next + ItemsHtml(items[k + 1..]) == html + ItemsHtml(items[k..])
    decreases bs, 1
  {
    var item := items[k];
    ItemInList(items, bs, start, k);
    var li := ItemToHtml(item, bs, start + k);
    ItemsStep(items, k, item, html, li);
    next := html + li;
  }

  /** Item `k` of a run is block `start + k` of the page it was taken from. */
  lemma ItemInList(items: seq<Block>, bs: seq<Block>, start: nat, k: nat)
    requires start + |items| <= |bs| && items == bs[start..start + |items|]
    requires k < |items|
    ensures start + k < |bs| && items[k] == bs[start + k]
  {
  }

  /** One item's `<li>`: its rich text, then its children, fetched and rendered only
      when it has an id and children. */
  method ItemToHtml(item: Block, ghost bs: seq<Block>, ghost pos: nat) returns (li: String)
    requires pos < |bs| && item == bs[pos]
    ensures li == Wrap("li", RichTextToHtml(SpansOf(item))
      + (if item.id != [] && item.children != [] then AutoHtml(item.children) else []))
    decreases bs, 0
  {
    var nested := [];
    if item.id != [] && item.children != [] {
      nested := AutoBlocksToHtml(item.children);
    }
    li := Wrap("li", RichTextToHtml(SpansOf(item)) + nested);
  }

  /** One pass of the loop: the item's `<li>` is the next part of the list's markup. */
  lemma ItemsStep(items: seq<Block>, k: nat, item: Block, html: String, li: String)
    requires k < |items| && item == items[k]
    requires li == Wrap("li", RichTextToHtml(SpansOf(item))
      + (if item.id != [] && item.children != [] then AutoHtml(item.children) else []))
    ensures html + ItemsHtml(items[k..]) == (html + li) + ItemsHtml(items[k + 1..])
  {
    assert items[k..][0] == items[k] && items[k..][1..] == items[k + 1..];
    AppendAssoc(html, li, ItemsHtml(items[k + 1..]));
  }

  /** Where the two renderers agree: no toggles, and no list item that is empty, has
      fetched children, or follows an item of its own type. */
  predicate Ungrouped(bs: seq<Block>) {
    && (forall k :: 0 <= k < |bs| ==> bs[k].kind != Toggle)
    && (forall k :: 0 <= k < |bs| && IsListItem(bs[k]) ==>
          SpansOf(bs[k]) != [] && (bs[k].id == [] || bs[k].children == []))
    && (forall k :: 0 < k < |bs| && IsListItem(bs[k]) ==> bs[k - 1].kind != bs[k].kind)
  }

  predicate IsListItem(b: Block) {
    b.kind == BulletedListItem || b.kind == NumberedListItem
  }

  /** On such pages the auto-import renderer produces exactly the import route's markup:
      grouping, toggle skipping and nested children are the only differences. */
  lemma {:induction false} AutoMatchesImport(bs: seq<Block>)
    requires Ungrouped(bs)
    ensures AutoHtml(bs) == ImportHtml(bs)
    decreases |bs|
  {
    if bs != [] {
      var b := bs[0];
      var rest := bs[1..];
      assert Ungrouped(rest) by {
        forall k | 0 < k < |rest| && IsListItem(rest[k]) ensures rest[k - 1].kind != rest[k].kind {
          assert rest[k - 1] == bs[k] && rest[k] == bs[k + 1];
        }
      }
      AutoMatchesImport(rest);
      if IsListItem(b) {
        var kind := b.kind;
        assert rest == [] || rest[0].kind != kind by {
          if rest != [] && IsListItem(rest[0]) { assert rest[0] == bs[1]; }
        }
        RunLengthOfRun([b], rest, kind);
        assert [b] + rest == bs;
        assert bs[..1] == [b] && bs[1..] == rest;
        var x := RichTextToHtml(SpansOf(b));
        assert ItemsHtml([b]) == Wrap("li", x + []) + ItemsHtml([]);
        assert x + [] == x;
        assert Wrap("li", x) + [] == Wrap("li", x);
      }
    }
  }

  // ---------------------------------------------------------------------------
  // Text
  // ---------------------------------------------------------------------------

  /** The plain text of a block's rich text, empty when it has none. */
  function BlockText(b: Block): String {
    PlainText(SpansOf(b))
  }

  /** The non-empty block texts, in order. */
  function Lines(bs: seq<Block>): (r: seq<String>)
    ensures forall k :: 0 <= k < |r| ==> r[k] != []
  {
    if bs == [] then []
    else (if BlockText(bs[0]) != [] then [BlockText(bs[0])] else []) + Lines(bs[1..])
  }

  /** `blocksToText`: the non-empty block texts joined with line breaks. */
  function BlocksToText(bs: seq<Block>): String {
    Join(Lines(bs), "\n")
  }

  lemma {:induction false} LinesAppend(a: seq<Block>, b: seq<Block>)
    ensures Lines(a + b) == Lines(a) + Lines(b)
  {
    if a == [] {
      assert a + b == b;
    } else {
      assert (a + b)[1..] == a[1..] + b;
      LinesAppend(a[1..], b);
      var first := if BlockText(a[0]) != [] then [BlockText(a[0])] else [];
      AppendAssoc(first, Lines(a[1..]), Lines(b));
    }
  }

  /** The text of two parts of a page is their texts with a line break between, which
      is left out when either part has no text. */
  lemma BlocksToTextAppend(a: seq<Block>, b: seq<Block>)
    ensures BlocksToText(a + b)
      == if Lines(a) == [] then BlocksToText(b)
         else if Lines(b) == [] then BlocksToText(a)
         else BlocksToText(a) + "\n" + BlocksToText(b)
  {
    LinesAppend(a, b);
    if Lines(a) == [] {
      assert Lines(a) + Lines(b) == Lines(b);
    } else if Lines(b) == [] {
      assert Lines(a) + Lines(b) == Lines(a);
    } else {
      JoinAppend(Lines(a), Lines(b), "\n");
    }
  }

  /** A block with no text contributes no line. */
  lemma TextlessBlockAddsNoLine(a: seq<Block>, b: Block, c: seq<Block>)
    requires BlockText(b) == []
    ensures BlocksToText(a + [b] + c) == BlocksToText(a + c)
  {
    LinesAppend(a + [b], c);
    LinesAppend(a, [b]);
    LinesAppend(a, c);
    assert Lines([b]) == [] by { assert [b][1..] == []; }
    assert Lines(a) + [] == Lines(a);
  }

  // ---------------------------------------------------------------------------
  // Stripping the rendered markup gives back the text
  // ---------------------------------------------------------------------------

  /** The rendered markup as a run of whole tags and text. */
  datatype Piece = Tag(markup: String) | Chars(text: String)

  function PieceHtml(p: Piece): String {
    match p
    case Tag(m) => m
    case Chars(t) => t
  }

  function PieceText(p: Piece): String {
    match p
    case Tag(_) => []
    case Chars(t) => t
  }

  /** A tag is complete and holds no inner `>`, text holds no `<`: the tag stripper
      sees each tag whole and no tag in the text. */
  predicate PieceOk(p: Piece) {
    match p
    case Tag(m) => IsTag(m)
    case Chars(t) => '<' !in t
  }

  predicate AllOk(ps: seq<Piece>) {
    forall k :: 0 <= k < |ps| ==> PieceOk(ps[k])
  }

  function Render(ps: seq<Piece>): String {
    if ps == [] then [] else PieceHtml(ps[0]) + Render(ps[1..])
  }

  function TextOf(ps: seq<Piece>): String {
    if ps == [] then [] else PieceText(ps[0]) + TextOf(ps[1..])
  }

  lemma {:induction false} RenderAppend(a: seq<Piece>, b: seq<Piece>)
    ensures Render(a + b) == Render(a) + Render(b)
    ensures TextOf(a + b) == TextOf(a) + TextOf(b)
    ensures AllOk(a) && AllOk(b) ==> AllOk(a + b)
  {
    if a == [] {
      assert a + b == b;
    } else {
      assert (a + b)[1..] == a[1..] + b;
      RenderAppend(a[1..], b);
      AppendAssoc(PieceHtml(a[0]), Render(a[1..]), Render(b));
      AppendAssoc(PieceText(a[0]), TextOf(a[1..]), TextOf(b));
    }
  }

  /** The tag stripper removes exactly the tags. */
  lemma {:induction false} StripRendered(ps: seq<Piece>)
    requires AllOk(ps)
    ensures StripTags(Render(ps)) == TextOf(ps)
  {
    if ps == [] {
      assert StripTags([]) == [] by { assert IndexOf([], "<") == -1; }
    } else {
      assert AllOk(ps[1..]) by {
        forall k | 0 <= k < |ps[1..]| ensures PieceOk(ps[1..][k]) { assert ps[1..][k] == ps[k + 1]; }
      }
      StripRendered(ps[1..]);
      assert PieceOk(ps[0]);
      match ps[0]
      case Tag(m) =>
        ReplaceTagsAfterTag(m, Render(ps[1..]), []);
      case Chars(t) =>
        ReplaceTagsAfterText(t, Render(ps[1..]), []);
    }
  }

  lemma Single(p: Piece)
    ensures Render([p]) == PieceHtml(p) && TextOf([p]) == PieceText(p)
    ensures AllOk([p]) == PieceOk(p)
  {
    assert [p][1..] == [];
  }

  /** `[Tag(open)] + ps + [Tag(close)]`. */
  function Enclose(open: String, ps: seq<Piece>, close: String): seq<Piece> {
    [Tag(open)] + ps + [Tag(close)]
  }

  lemma EncloseMeaning(open: String, ps: seq<Piece>, close: String)
    ensures Render(Enclose(open, ps, close)) == open + Render(ps) + close
    ensures TextOf(Enclose(open, ps, close)) == TextOf(ps)
    ensures IsTag(open) && IsTag(close) && AllOk(ps) ==> AllOk(Enclose(open, ps, close))
  {
    RenderAppend([Tag(open)] + ps, [Tag(close)]);
    RenderAppend([Tag(open)], ps);
    Single(Tag(open));
    Single(Tag(close));
    assert [] + TextOf(ps) + [] == TextOf(ps);
  }

  lemma TagsOfName(tag: String)
    requires '>' !in tag
    ensures IsTag(OpenTag(tag)) && IsTag(CloseTag(tag))
  {
    var o := OpenTag(tag);
    forall k | 1 <= k < |o| - 1 ensures o[k] != '>' { assert o[k] == tag[k - 1]; }
    var c := CloseTag(tag);
    forall k | 2 <= k < |c| - 1 ensures c[k] != '>' { assert c[k] == tag[k - 2]; }
  }

  /** `Wrap(tag, …)` as pieces. */
  function WrapPieces(tag: String, ps: seq<Piece>): seq<Piece> {
    Enclose(OpenTag(tag), ps, CloseTag(tag))
  }

  lemma WrapPiecesMeaning(tag: String, ps: seq<Piece>)
    ensures Render(WrapPieces(tag, ps)) == Wrap(tag, Render(ps))
    ensures TextOf(WrapPieces(tag, ps)) == TextOf(ps)
    ensures '>' !in tag && AllOk(ps) ==> AllOk(WrapPieces(tag, ps))
  {
    EncloseMeaning(OpenTag(tag), ps, CloseTag(tag));
    if '>' !in tag { TagsOfName(tag); }
  }

  function WrapIf(b: bool, tag: String, ps: seq<Piece>): seq<Piece> {
    if b then WrapPieces(tag, ps) else ps
  }

  lemma WrapIfMeaning(b: bool, tag: String, ps: seq<Piece>, html: String)
    requires Render(ps) == html && '>' !in tag
    ensures Render(WrapIf(b, tag, ps)) == WrapWhen(b, tag, html)
    ensures TextOf(WrapIf(b, tag, ps)) == TextOf(ps)
    ensures AllOk(ps) ==> AllOk(WrapIf(b, tag, ps))
  {
    WrapPiecesMeaning(tag, ps);
  }

  /** No `<` in the text and no `>` in the link: the item's markup can be read back. */
  predicate SpanOk(s: Span) {
    '<' !in s.plainText && (HasHref(s) ==> '>' !in s.href.value)
  }

  lemma AnchorOpenIsTag(href: String)
    requires '>' !in href
    ensures IsTag(AnchorOpen(href))
  {
    var t := AnchorOpen(href);
    forall k | 1 <= k < |t| - 1 ensures t[k] != '>' {
      if 9 <= k < 9 + |href| { assert t[k] == href[k - 9]; }
    }
  }

  function FormattedPieces(a: Annotations, text: String): seq<Piece> {
    var p1 := WrapIf(a.bold, "strong", [Chars(text)]);
    var p2 := WrapIf(a.italic, "em", p1);
    var p3 := WrapIf(a.underline, "u", p2);
    var p4 := WrapIf(a.strikethrough, "s", p3);
    WrapIf(a.code, "code", p4)
  }

  lemma FormattedPiecesMeaning(a: Annotations, text: String)
    ensures Render(FormattedPieces(a, text)) == Formatted(a, text)
    ensures TextOf(FormattedPieces(a, text)) == text
    ensures '<' !in text ==> AllOk(FormattedPieces(a, text))
  {
    var p0 := [Chars(text)];
    Single(Chars(text));
    TagNames();
    var c1 := WrapWhen(a.bold, "strong", text);
    var c2 := WrapWhen(a.italic, "em", c1);
    var c3 := WrapWhen(a.underline, "u", c2);
    var c4 := WrapWhen(a.strikethrough, "s", c3);
    var p1 := WrapIf(a.bold, "strong", p0);
    WrapIfMeaning(a.bold, "strong", p0, text);
    var p2 := WrapIf(a.italic, "em", p1);
    WrapIfMeaning(a.italic, "em", p1, c1);
    var p3 := WrapIf(a.underline, "u", p2);
    WrapIfMeaning(a.underline, "u", p2, c2);
    var p4 := WrapIf(a.strikethrough, "s", p3);
    WrapIfMeaning(a.strikethrough, "s", p3, c3);
    WrapIfMeaning(a.code, "code", p4, c4);
  }

  function SpanPieces(s: Span): seq<Piece> {
    var p := FormattedPieces(s.annotations, s.plainText);
    if HasHref(s) then Enclose(AnchorOpen(s.href.value), p, CloseTag("a")) else p
  }

  lemma SpanPiecesMeaning(s: Span)
    ensures Render(SpanPieces(s)) == SpanToHtml(s)
    ensures TextOf(SpanPieces(s)) == s.plainText
    ensures SpanOk(s) ==> AllOk(SpanPieces(s))
  {
    var p := FormattedPieces(s.annotations, s.plainText);
    FormattedPiecesMeaning(s.annotations, s.plainText);
    if HasHref(s) {
      EncloseMeaning(AnchorOpen(s.href.value), p, CloseTag("a"));
      if SpanOk(s) {
        AnchorOpenIsTag(s.href.value);
        TagsOfName("a");
      }
    }
  }

  function RichPieces(spans: seq<Span>): seq<Piece> {
    if spans == [] then [] else SpanPieces(spans[0]) + RichPieces(spans[1..])
  }

  lemma {:induction false} RichPiecesMeaning(spans: seq<Span>)
    ensures Render(RichPieces(spans)) == RichTextToHtml(spans)
    ensures TextOf(RichPieces(spans)) == PlainText(spans)
    ensures (forall k :: 0 <= k < |spans| ==> SpanOk(spans[k])) ==> AllOk(RichPieces(spans))
  {
    if spans != [] {
      RichPiecesMeaning(spans[1..]);
      SpanPiecesMeaning(spans[0]);
      RenderAppend(SpanPieces(spans[0]), RichPieces(spans[1..]));
      if forall k :: 0 <= k < |spans| ==> SpanOk(spans[k]) {
        assert forall k :: 0 <= k < |spans[1..]| ==> SpanOk(spans[1..][k]) by {
          forall k | 0 <= k < |spans[1..]| ensures SpanOk(spans[1..][k]) { assert spans[1..][k] == spans[k + 1]; }
        }
      }
    }
  }

  /** Every item of the block's rich text can be read back, and a divider carries no
      text (it has no rich-text field). */
  predicate BlockOk(b: Block) {
    (forall k :: 0 <= k < |SpansOf(b)| ==> SpanOk(SpansOf(b)[k]))
    && (b.kind == Divider ==> BlockText(b) == [])
  }

  /** A list item's or a code block's markup: one tag wrapped inside another. */
  lemma NestedWrapMeaning(outer: String, inner: String, ps: seq<Piece>, html: String)
    requires Render(ps) == html && '>' !in outer && '>' !in inner
    ensures Render(NestedWrap(outer, inner, ps)) == OpenTag(outer) + Wrap(inner, html) + CloseTag(outer)
    ensures TextOf(NestedWrap(outer, inner, ps)) == TextOf(ps)
    ensures AllOk(ps) ==> AllOk(NestedWrap(outer, inner, ps))
  {
    WrapPiecesMeaning(inner, ps);
    EncloseMeaning(OpenTag(outer), WrapPieces(inner, ps), CloseTag(outer));
    TagsOfName(outer);
  }

  function NestedWrap(outer: String, inner: String, ps: seq<Piece>): seq<Piece> {
    Enclose(OpenTag(outer), WrapPieces(inner, ps), CloseTag(outer))
  }

  function BlockPieces(b: Block): seq<Piece> {
    var spans := SpansOf(b);
    var rich := RichPieces(spans);
    match b.kind
    case Paragraph =>
      if spans != [] then WrapPieces("p", rich) else [Tag("<p>"), Tag("<br>"), Tag("</p>")]
    case Heading1 => if spans != [] then WrapPieces("h1", rich) else []
    case Heading2 => if spans != [] then WrapPieces("h2", rich) else []
    case Heading3 => if spans != [] then WrapPieces("h3", rich) else []
    case BulletedListItem =>
      if spans != [] then NestedWrap("ul", "li", rich) else []
    case NumberedListItem =>
      if spans != [] then NestedWrap("ol", "li", rich) else []
    case Quote => if spans != [] then WrapPieces("blockquote", rich) else []
    case Code =>
      if spans != [] then
        NestedWrap("pre", "code", [Chars(PlainText(spans))])
      else []
    case Divider => [Tag("<hr>")]
    case _ => if b.richText.Some? then WrapPieces("p", rich) else []
  }

  lemma BlockPiecesMeaning(b: Block)
    ensures Render(BlockPieces(b)) == BlockHtml(b)
    ensures BlockOk(b) ==> TextOf(BlockPieces(b)) == BlockText(b) && AllOk(BlockPieces(b))
  {
    if b.kind.Heading1? || b.kind.Heading2? || b.kind.Heading3? || b.kind.Quote? {
      HeadingPiecesMeaning(b);
    } else {
      match b.kind
      case Paragraph => ParagraphPiecesMeaning(b);
      case BulletedListItem => ListPiecesMeaning(b, "ul");
      case NumberedListItem => ListPiecesMeaning(b, "ol");
      case Code => CodePiecesMeaning(b);
      case Divider => Single(Tag("<hr>"));
      case Toggle => FallbackPiecesMeaning(b);
      case Other(_) => FallbackPiecesMeaning(b);
    }
  }

  lemma HeadingPiecesMeaning(b: Block)
    requires b.kind.Heading1? || b.kind.Heading2? || b.kind.Heading3? || b.kind.Quote?
    ensures Render(BlockPieces(b)) == BlockHtml(b)
    ensures BlockOk(b) ==> TextOf(BlockPieces(b)) == BlockText(b) && AllOk(BlockPieces(b))
  {
    match b.kind
    case Heading1 => TitledPiecesMeaning(b, "h1");
    case Heading2 => TitledPiecesMeaning(b, "h2");
    case Heading3 => TitledPiecesMeaning(b, "h3");
    case Quote => TitledPiecesMeaning(b, "blockquote");
  }

  lemma ParagraphPiecesMeaning(b: Block)
    requires b.kind == Paragraph
    ensures Render(BlockPieces(b)) == BlockHtml(b)
    ensures BlockOk(b) ==> TextOf(BlockPieces(b)) == BlockText(b) && AllOk(BlockPieces(b))
  {
    TagNames();
    var spans := SpansOf(b);
    RichPiecesMeaning(spans);
    if spans != [] {
      WrapPiecesMeaning("p", RichPieces(spans));
    } else {
      EmptyParagraphPieces();
    }
  }

  /** The element names the renderers use hold no `>`. */
  lemma TagNames()
    ensures '>' !in "p" && '>' !in "h1" && '>' !in "h2" && '>' !in "h3" && '>' !in "blockquote"
    ensures '>' !in "ul" && '>' !in "ol" && '>' !in "li" && '>' !in "pre" && '>' !in "code"
    ensures '>' !in "strong" && '>' !in "em" && '>' !in "u" && '>' !in "s" && '>' !in "a"
  {
  }

  /** Headings and quotes: one tag around the rich text, nothing without it. */
  lemma TitledPiecesMeaning(b: Block, tag: String)
    requires || (b.kind == Heading1 && tag == "h1") || (b.kind == Heading2 && tag == "h2")
             || (b.kind == Heading3 && tag == "h3") || (b.kind == Quote && tag == "blockquote")
    ensures Render(BlockPieces(b)) == BlockHtml(b)
    ensures BlockOk(b) ==> TextOf(BlockPieces(b)) == BlockText(b) && AllOk(BlockPieces(b))
  {
    var spans := SpansOf(b);
    RichPiecesMeaning(spans);
    TagNames();
    if spans != [] {
      WrapPiecesMeaning(tag, RichPieces(spans));
    }
  }

  lemma ListPiecesMeaning(b: Block, name: String)
    requires IsListItem(b) && name == if b.kind == BulletedListItem then "ul" else "ol"
    ensures Render(BlockPieces(b)) == BlockHtml(b)
    ensures BlockOk(b) ==> TextOf(BlockPieces(b)) == BlockText(b) && AllOk(BlockPieces(b))
  {
    TagNames();
    var spans := SpansOf(b);
    RichPiecesMeaning(spans);
    if spans != [] {
      NestedWrapMeaning(name, "li", RichPieces(spans), RichTextToHtml(spans));
    }
  }

  lemma CodePiecesMeaning(b: Block)
    requires b.kind == Code
    ensures Render(BlockPieces(b)) == BlockHtml(b)
    ensures BlockOk(b) ==> TextOf(BlockPieces(b)) == BlockText(b) && AllOk(BlockPieces(b))
  {
    TagNames();
    var spans := SpansOf(b);
    if spans != [] {
      var text := PlainText(spans);
      Single(Chars(text));
      NestedWrapMeaning("pre", "code", [Chars(text)], text);
      if BlockOk(b) {
        PlainTextHasNoOpener(spans);
      }
    }
  }

  /** Any other type with a rich-text field renders as a paragraph. */
  lemma FallbackPiecesMeaning(b: Block)
    requires b.kind == Toggle || b.kind.Other?
    ensures Render(BlockPieces(b)) == BlockHtml(b)
    ensures BlockOk(b) ==> TextOf(BlockPieces(b)) == BlockText(b) && AllOk(BlockPieces(b))
  {
    TagNames();
    var spans := SpansOf(b);
    RichPiecesMeaning(spans);
    if b.richText.Some? {
      WrapPiecesMeaning("p", RichPieces(spans));
    }
  }

  lemma EmptyParagraphPieces()
    ensures Render([Tag("<p>"), Tag("<br>"), Tag("</p>")]) == "<p><br></p>"
    ensures TextOf([Tag("<p>"), Tag("<br>"), Tag("</p>")]) == []
    ensures AllOk([Tag("<p>"), Tag("<br>"), Tag("</p>")])
  {
    var ps := [Tag("<p>"), Tag("<br>"), Tag("</p>")];
    assert ps[1..] == [Tag("<br>"), Tag("</p>")];
    assert ps[1..][1..] == [Tag("</p>")];
    assert ps[1..][1..][1..] == [];
    assert "<p>" + ("<br>" + ("</p>" + [])) == "<p><br></p>";
  }

  lemma {:induction false} PlainTextHasNoOpener(spans: seq<Span>)
    requires forall k :: 0 <= k < |spans| ==> SpanOk(spans[k])
    ensures '<' !in PlainText(spans)
  {
    if spans != [] {
      assert forall k :: 0 <= k < |spans[1..]| ==> SpanOk(spans[1..][k]) by {
        forall k | 0 <= k < |spans[1..]| ensures SpanOk(spans[1..][k]) { assert spans[1..][k] == spans[k + 1]; }
      }
      PlainTextHasNoOpener(spans[1..]);
      assert SpanOk(spans[0]);
    }
  }

  function PagePieces(bs: seq<Block>): seq<Piece> {
    if bs == [] then [] else BlockPieces(bs[0]) + PagePieces(bs[1..])
  }

  lemma {:induction false} PagePiecesMeaning(bs: seq<Block>)
    ensures Render(PagePieces(bs)) == ImportHtml(bs)
    ensures (forall k :: 0 <= k < |bs| ==> BlockOk(bs[k])) ==>
      TextOf(PagePieces(bs)) == Concat(Lines(bs)) && AllOk(PagePieces(bs))
  {
    if bs != [] {
      PagePiecesMeaning(bs[1..]);
      BlockPiecesMeaning(bs[0]);
      RenderAppend(BlockPieces(bs[0]), PagePieces(bs[1..]));
      if forall k :: 0 <= k < |bs| ==> BlockOk(bs[k]) {
        assert forall k :: 0 <= k < |bs[1..]| ==> BlockOk(bs[1..][k]) by {
          forall k | 0 <= k < |bs[1..]| ensures BlockOk(bs[1..][k]) { assert bs[1..][k] == bs[k + 1]; }
        }
        assert BlockOk(bs[0]);
        ConcatLinesCons(bs);
      }
    }
  }

  /** The text of a page is its first block's text followed by the rest's. */
  lemma ConcatLinesCons(bs: seq<Block>)
    requires bs != []
    ensures Concat(Lines(bs)) == BlockText(bs[0]) + Concat(Lines(bs[1..]))
  {
    var first := if BlockText(bs[0]) != [] then [BlockText(bs[0])] else [];
    assert Lines(bs) == first + Lines(bs[1..]);
    ConcatAppend(first, Lines(bs[1..]));
    if BlockText(bs[0]) != [] {
      assert Concat(first) == BlockText(bs[0]) by { assert first[1..] == []; }
    } else {
      assert Concat(first) == [];
    }
  }

  /** Reading the import route's markup back through the tag stripper gives the page's
      non-empty block texts back to back, which `BlocksToText` joins with line breaks:
      the `html` and `text` fields of an imported highlight hold the same block texts,
      as long as no text holds a `<` and no link a `>`. */
  lemma ImportHtmlStripsToText(bs: seq<Block>)
    requires forall k :: 0 <= k < |bs| ==> BlockOk(bs[k])
    ensures StripTags(ImportHtml(bs)) == Concat(Lines(bs))
  {
    PagePiecesMeaning(bs);
    StripRendered(PagePieces(bs));
  }

  /** The same for one rich text: its markup strips back to its plain text. */
  lemma RichTextStripsToPlainText(spans: seq<Span>)
    requires forall k :: 0 <= k < |spans| ==> SpanOk(spans[k])
    ensures StripTags(RichTextToHtml(spans)) == PlainText(spans)
  {
    RichPiecesMeaning(spans);
    StripRendered(RichPieces(spans));
  }
}
