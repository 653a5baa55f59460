/**
  Attribute runs: one span of a note's text with its paragraph and character
  formatting. The note body is the sequence of runs, and a run's
  `previous_run`/`next_run` links are the neighbouring indices of that
  sequence.
*/
module Runs {
  import opened Options
  import opened Styles
  import opened Colors

  datatype Font = Font(fontName: Option<string>, pointSize: Option<string>)

  /** Reference to an embedded object; only its presence matters to rendering. */
  datatype AttachmentInfo = AttachmentInfo(identifier: string, typeUti: string)

  datatype AttributeRun = AttributeRun(
    paragraphStyle: Option<ParagraphStyle>,
    font: Option<Font>,
    fontWeight: Option<int>,
    underlined: int,
    strikethrough: int,
    superscript: int,
    link: Option<string>,
    color: Option<Color>,
    attachmentInfo: Option<AttachmentInfo>)

  function Previous(runs: seq<AttributeRun>, i: nat): (r: Option<AttributeRun>)
    requires i < |runs|
    ensures r.Some? <==> i > 0
    ensures r.Some? ==> r.value == runs[i - 1]
  {
    if i == 0 then None else Some(runs[i - 1])
  }

  function Next(runs: seq<AttributeRun>, i: nat): (r: Option<AttributeRun>)
    requires i < |runs|
    ensures r.Some? <==> i + 1 < |runs|
    ensures r.Some? ==> r.value == runs[i + 1]
  {
    if i + 1 == |runs| then None else Some(runs[i + 1])
  }

  // ---------------------------------------------------------------- style type

  /** `has_style_type`: truthy when a style is present and its style type is not nil (0 included). */
  predicate HasStyleType(run: AttributeRun) {
    run.paragraphStyle.Some? && run.paragraphStyle.value.styleType.Some?
  }

  /** The run's style type, absent when either the paragraph style or its type is missing. */
  function StyleTypeOf(run: AttributeRun): (t: Option<int>)
    ensures t.Some? <==> HasStyleType(run)
  {
    match run.paragraphStyle
    case None => None
    case Some(ps) => ps.styleType
  }

  /**
    The run's indent amount as the renderer and `total_indent` read it: a
    missing paragraph style or a missing amount counts as 0.
  */
  function IndentOf(run: AttributeRun): (n: int)
    ensures run.paragraphStyle.None? ==> n == 0
    ensures run.paragraphStyle.Some? ==> n == run.paragraphStyle.value.indentAmount.GetOr(0)
  {
    match run.paragraphStyle
    case None => 0
    case Some(ps) => ps.indentAmount.GetOr(0)
  }

  predicate IsStyle(run: AttributeRun, styleType: int) {
    HasStyleType(run) && run.paragraphStyle.value.styleType.value == styleType
  }

  predicate IsCheckbox(run: AttributeRun) { IsStyle(run, STYLE_TYPE_CHECKBOX) }
  predicate IsNumberedList(run: AttributeRun) { IsStyle(run, STYLE_TYPE_NUMBERED_LIST) }
  predicate IsDottedList(run: AttributeRun) { IsStyle(run, STYLE_TYPE_DOTTED_LIST) }
  predicate IsDashedList(run: AttributeRun) { IsStyle(run, STYLE_TYPE_DASHED_LIST) }

  predicate IsAnyList(run: AttributeRun) {
    IsNumberedList(run) || IsDottedList(run) || IsDashedList(run) || IsCheckbox(run)
  }

  /** The list predicates read only the style type, and all fail without a paragraph style. */
  lemma ListPredicatesNeedStyle(run: AttributeRun)
    ensures run.paragraphStyle.None? ==>
      !IsCheckbox(run) && !IsNumberedList(run) && !IsDottedList(run) && !IsDashedList(run) && !IsAnyList(run)
    ensures IsAnyList(run) <==>
      StyleTypeOf(run) in {Some(STYLE_TYPE_NUMBERED_LIST), Some(STYLE_TYPE_DOTTED_LIST),
                           Some(STYLE_TYPE_DASHED_LIST), Some(STYLE_TYPE_CHECKBOX)}
  {
  }

  /** A checkbox run whose checklist can be read (`paragraph_style.checklist.uuid` does not fail). */
  predicate ChecklistReadable(run: AttributeRun) {
    IsCheckbox(run) ==> run.paragraphStyle.value.checklist.Some?
  }

  /**
    The checklist reads of `same_style_type?` cannot fail. They happen only
    when both runs are checkboxes with equal indent amounts, so only then
    must both checklists be present.
  */
  predicate ChecklistsComparable(a: AttributeRun, b: AttributeRun) {
    IsCheckbox(a) && IsCheckbox(b)
    && a.paragraphStyle.value.indentAmount == b.paragraphStyle.value.indentAmount
    ==> ChecklistReadable(a) && ChecklistReadable(b)
  }

  /**
    `same_style_type?`: do two runs belong to the same paragraph block?
    Runs without a style type match each other and nothing else; styled runs
    need the same raw indent amount, the same checklist when both are
    checkboxes, and the same style type.
  */
  function SameStyleType(run: AttributeRun, other: Option<AttributeRun>): (r: bool)
    requires other.Some? ==> ChecklistsComparable(run, other.value)
    ensures other.None? ==> !r
    ensures other.Some? && HasStyleType(run) != HasStyleType(other.value) ==> !r
    ensures other.Some? && !HasStyleType(run) && !HasStyleType(other.value) ==> r
    ensures other.Some? && HasStyleType(run) && HasStyleType(other.value) ==>
      (r <==>
        && run.paragraphStyle.value.indentAmount == other.value.paragraphStyle.value.indentAmount
        && StyleTypeOf(run) == StyleTypeOf(other.value)
        && (IsCheckbox(run) ==>
              run.paragraphStyle.value.checklist.value.uuid == other.value.paragraphStyle.value.checklist.value.uuid))
  {
    if other.None? then false
    else
      var o := other.value;
      if HasStyleType(o) && !HasStyleType(run) then false
      else if !HasStyleType(o) && HasStyleType(run) then false
      else if !HasStyleType(o) && !HasStyleType(run) then true
      else if o.paragraphStyle.value.indentAmount != run.paragraphStyle.value.indentAmount then false
      else if IsCheckbox(run) && IsCheckbox(o)
              && o.paragraphStyle.value.checklist.value.uuid != run.paragraphStyle.value.checklist.value.uuid then false
      else o.paragraphStyle.value.styleType == run.paragraphStyle.value.styleType
  }

  lemma SameStyleTypeSymmetric(a: AttributeRun, b: AttributeRun)
    requires ChecklistsComparable(a, b)
    ensures SameStyleType(a, Some(b)) == SameStyleType(b, Some(a))
  {
  }

  /** `same_style_type_previous?`: the run continues the block of the run before it. */
  function SameStyleTypePrevious(runs: seq<AttributeRun>, i: nat): (r: bool)
    requires i < |runs|
    requires i > 0 ==> ChecklistsComparable(runs[i], runs[i - 1])
    ensures r <==> i > 0 && SameStyleType(runs[i - 1], Some(runs[i]))
  {
    var r := SameStyleType(runs[i], Previous(runs, i));
    if i > 0 then SameStyleTypeSymmetric(runs[i], runs[i - 1]); r else r
  }

  /** `same_style_type_next?`: the run after this one continues its block. */
  function SameStyleTypeNext(runs: seq<AttributeRun>, i: nat): (r: bool)
    requires i < |runs|
    requires i + 1 < |runs| ==> ChecklistsComparable(runs[i], runs[i + 1])
    ensures i + 1 == |runs| ==> !r
    ensures i + 1 < |runs| ==> (r <==> SameStyleTypePrevious(runs, i + 1))
  {
    var r := SameStyleType(runs[i], Next(runs, i));
    if i + 1 < |runs| then SameStyleTypeSymmetric(runs[i], runs[i + 1]); r else r
  }

  // ---------------------------------------------------------------- character style

  /**
    `same_style?`: every formatting field equal (a missing paragraph style
    equals only a missing one), and this run carries no attachment.
  */
  function SameStyle(run: AttributeRun, other: Option<AttributeRun>): (r: bool)
    ensures r <==> other == Some(run) && run.attachmentInfo.None?
  {
    if other.None? then false
    else
      var o := other.value;
      && OptionalStyleEquals(run.paragraphStyle, o.paragraphStyle)
      && run.font == o.font
      && run.fontWeight == o.fontWeight
      && run.underlined == o.underlined
      && run.strikethrough == o.strikethrough
      && run.superscript == o.superscript
      && run.link == o.link
      && run.color == o.color
      && run.attachmentInfo == o.attachmentInfo
      && run.attachmentInfo.None?
  }

  /** `same_font_weight?`: false for a missing run, plain equality otherwise. */
  function SameFontWeight(run: AttributeRun, other: Option<AttributeRun>): (r: bool)
    ensures r <==> other.Some? && other.value.fontWeight == run.fontWeight
  {
    match other
    case None => false
    case Some(o) => o.fontWeight == run.fontWeight
  }

  lemma SameFontWeightSymmetric(a: AttributeRun, b: AttributeRun)
    ensures SameFontWeight(a, Some(b)) == SameFontWeight(b, Some(a))
  {
  }

  /** `same_font_weight_previous?`: the run before exists and has the same font weight. */
  function SameFontWeightPrevious(runs: seq<AttributeRun>, i: nat): (r: bool)
    requires i < |runs|
    ensures r <==> i > 0 && runs[i - 1].fontWeight == runs[i].fontWeight
  {
    SameFontWeight(runs[i], Previous(runs, i))
  }

  /** `same_font_weight_next?`: the same question asked from the following run. */
  function SameFontWeightNext(runs: seq<AttributeRun>, i: nat): (r: bool)
    requires i < |runs|
    ensures i + 1 == |runs| ==> !r
    ensures i + 1 < |runs| ==> (r <==> SameFontWeightPrevious(runs, i + 1))
  {
    SameFontWeight(runs[i], Next(runs, i))
  }

  /**
    A stretch of runs in which every run has the same font weight as the one
    before it carries a single font weight throughout.
  */
  lemma {:induction false} SameFontWeightStretch(runs: seq<AttributeRun>, a: nat, b: nat)
    requires a <= b < |runs|
    requires forall j :: a < j <= b ==> SameFontWeightPrevious(runs, j)
    ensures forall j :: a <= j <= b ==> runs[j].fontWeight == runs[a].fontWeight
    decreases b - a
  {
    if a < b {
      SameFontWeightStretch(runs, a, b - 1);
      assert SameFontWeightPrevious(runs, b);
    }
  }

  // ---------------------------------------------------------------- total indent

  /** `total_indent`: own indent plus the previous run's total indent, recursively. */
  function TotalIndent(runs: seq<AttributeRun>, i: nat): (total: int)
    requires i < |runs|
    decreases i
  {
    if i == 0 then IndentOf(runs[i]) else IndentOf(runs[i]) + TotalIndent(runs, i - 1)
  }

  /** Sum of the own indents of a run sequence, taken from the front. */
  function IndentSum(rs: seq<AttributeRun>): (r: int)
    decreases |rs|
  {
    if |rs| == 0 then 0 else IndentOf(rs[0]) + IndentSum(rs[1..])
  }

  lemma {:induction false} IndentSumSnoc(rs: seq<AttributeRun>, r: AttributeRun)
    ensures IndentSum(rs + [r]) == IndentSum(rs) + IndentOf(r)
    decreases |rs|
  {
    if |rs| > 0 {
      assert (rs + [r])[1..] == rs[1..] + [r];
      IndentSumSnoc(rs[1..], r);
    }
  }

  /** `total_indent` is the prefix sum of the own indents from the first run up to this one. */
  lemma {:induction false} TotalIndentIsPrefixSum(runs: seq<AttributeRun>, i: nat)
    requires i < |runs|
    ensures TotalIndent(runs, i) == IndentSum(runs[..i + 1])
    decreases i
  {
    if i == 0 {
      assert runs[..1][1..] == [];
    } else {
      TotalIndentIsPrefixSum(runs, i - 1);
      assert runs[..i + 1] == runs[..i] + [runs[i]];
      IndentSumSnoc(runs[..i], runs[i]);
    }
  }

  /** With no negative indents, the total is at least the own indent and never falls along the chain. */
  lemma {:induction false} TotalIndentBounds(runs: seq<AttributeRun>, i: nat)
    requires i < |runs|
    requires forall j :: 0 <= j < |runs| ==> IndentOf(runs[j]) >= 0
    ensures TotalIndent(runs, i) >= IndentOf(runs[i])
    ensures i > 0 ==> TotalIndent(runs, i) >= TotalIndent(runs, i - 1)
    decreases i
  {
    if i > 0 {
      TotalIndentBounds(runs, i - 1);
    }
  }
}
