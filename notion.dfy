/** The Notion records the application reads and writes: rich-text items with their
    annotations, and blocks with their type and (for the types that have one) their
    rich text. Field names follow the Notion API objects the routes build. */
module Notion {
  import opened Text
  import opened Wrappers

  /** `annotations` of a rich-text item. */
  datatype Annotations = Annotations(
    bold: bool, italic: bool, strikethrough: bool, underline: bool, code: bool, color: String)

  /** One rich-text item: `plain_text`, `annotations` and `href` (the link url, if any). */
  datatype Span = Span(plainText: String, annotations: Annotations, href: Option<String>)

  /** The block types the routes distinguish; every other type is `Other`. */
  datatype BlockType =
    | Paragraph | Heading1 | Heading2 | Heading3
    | BulletedListItem | NumberedListItem | Quote | Code
    | Divider | Toggle | Other(name: String)

  /** A block: its id (empty for a block not yet created), its type, its `rich_text` when
      the type carries one, and the children a remote fetch of the block returns. */
  datatype Block = Block(id: String, kind: BlockType, richText: Option<seq<Span>>, children: seq<Block>)

  /** The annotations of an unformatted item. */
  const Unformatted: Annotations := Annotations(false, false, false, false, false, "default")

  /** A block the converters create: no id yet, no children. */
  function NewBlock(kind: BlockType, spans: seq<Span>): (b: Block)
    ensures b.kind == kind && b.richText == Some(spans) && b.children == []
  {
    Block("", kind, Some(spans), [])
  }

  /** `rich_text.map(t => t.plain_text).join('')`. */
  function PlainText(spans: seq<Span>): (r: String)
    ensures spans == [] ==> r == []
    ensures |spans| == 1 ==> r == spans[0].plainText
  {
    if spans == [] then [] else spans[0].plainText + PlainText(spans[1..])
  }

  lemma {:induction false} PlainTextAppend(a: seq<Span>, b: seq<Span>)
    ensures PlainText(a + b) == PlainText(a) + PlainText(b)
  {
    if a != [] {
      assert (a + b)[1..] == a[1..] + b;
      PlainTextAppend(a[1..], b);
    } else {
      assert a + b == b;
    }
  }

  /** The empty paragraph that separates highlights on a page. */
  predicate IsSeparator(b: Block) {
    b.kind == Paragraph && (b.richText.None? || b.richText.value == [])
  }
}
