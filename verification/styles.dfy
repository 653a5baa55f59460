/**
  Paragraph styles as decoded from a note body, with the structural equality
  that ProtoPatches.rb patches onto them, and the numeric style constants the
  renderer dispatches on.
*/
module Styles {
  import opened Options

  // Paragraph style types (style_type)
  const STYLE_TYPE_TITLE: int := 0
  const STYLE_TYPE_HEADING: int := 1
  const STYLE_TYPE_SUBHEADING: int := 2
  const STYLE_TYPE_MONOSPACED: int := 4
  const STYLE_TYPE_DOTTED_LIST: int := 100
  const STYLE_TYPE_DASHED_LIST: int := 101
  const STYLE_TYPE_NUMBERED_LIST: int := 102
  const STYLE_TYPE_CHECKBOX: int := 103

  // Font weights (font_weight)
  const FONT_TYPE_DEFAULT: int := 0
  const FONT_TYPE_BOLD: int := 1
  const FONT_TYPE_ITALIC: int := 2
  const FONT_TYPE_BOLD_ITALIC: int := 3

  // Paragraph alignments (alignment)
  const STYLE_ALIGNMENT_CENTER: int := 1
  const STYLE_ALIGNMENT_RIGHT: int := 2
  const STYLE_ALIGNMENT_JUSTIFY: int := 3

  /** The checklist a checkbox paragraph belongs to, and whether it is ticked. */
  datatype Checklist = Checklist(uuid: string, done: int)

  /**
    Block-level formatting of a paragraph. `styleType` and `indentAmount` may
    be absent, and an absent value is different from any present one
    (Ruby's `nil`): a present style type 0 is a Title, not "no style".
  */
  datatype ParagraphStyle = ParagraphStyle(
    styleType: Option<int>,
    alignment: Option<int>,
    indentAmount: Option<int>,
    checklist: Option<Checklist>)

  /**
    `ParagraphStyle#==`: false against a missing style, otherwise the four
    fields compared one by one (the checklist as a whole record).
  */
  function StyleEquals(a: ParagraphStyle, other: Option<ParagraphStyle>): (r: bool)
    ensures r <==> other == Some(a)
  {
    match other
    case None => false
    case Some(b) =>
      && a.styleType == b.styleType
      && a.alignment == b.alignment
      && a.indentAmount == b.indentAmount
      && a.checklist == b.checklist
  }

  /** Ruby `x == y` on two possibly-nil paragraph styles: `nil == y` holds only for a nil `y`. */
  function OptionalStyleEquals(a: Option<ParagraphStyle>, b: Option<ParagraphStyle>): (r: bool)
    ensures r <==> a == b
  {
    match a
    case None => b.None?
    case Some(x) => StyleEquals(x, b)
  }

  lemma StyleEqualsReflexive(a: ParagraphStyle)
    ensures StyleEquals(a, Some(a))
  {
  }

  lemma StyleEqualsSymmetric(a: ParagraphStyle, b: ParagraphStyle)
    ensures StyleEquals(a, Some(b)) == StyleEquals(b, Some(a))
  {
  }

  lemma StyleEqualsTransitive(a: ParagraphStyle, b: ParagraphStyle, c: ParagraphStyle)
    requires StyleEquals(a, Some(b)) && StyleEquals(b, Some(c))
    ensures StyleEquals(a, Some(c))
  {
  }
}
