/**
  Inline rendering of one run's text at the active node: `add_inline_html`
  wraps the text in the run's character-formatting tags, and `add_html_text`
  first cuts the text at line breaks.
*/
module Inline {
  import opened Options
  import opened Styles
  import opened Colors
  import opened Runs
  import opened Html
  import opened Builder
  import opened Split

  const LINE_SEPARATOR: char := '\U{2028}'
  const LINE_BREAKS: set<char> := {LINE_SEPARATOR, '\n'}

  const BREAK: Node := Element("br", [], None, [])

  predicate IsHeading(tag: string) {
    tag == "h1" || tag == "h2" || tag == "h3"
  }

  // ---------------------------------------------------------------- style attributes

  /** One `key: value` declaration of a `style` attribute. */
  datatype Declaration = Declaration(property: string, value: string)

  /** The `style` attribute value: each declaration as `property: value`, joined by `; `. */
  function StyleText(ds: seq<Declaration>): (r: string)
    decreases |ds|
  {
    if |ds| == 0 then ""
    else if |ds| == 1 then ds[0].property + ": " + ds[0].value
    else ds[0].property + ": " + ds[0].value + "; " + StyleText(ds[1..])
  }

  /** The font-name escape: a backslash goes in front of every single quote. */
  function EscapeQuotes(s: string): (r: string)
    ensures |r| >= |s|
    decreases |s|
  {
    if |s| == 0 then ""
    else if s[0] == '\'' then "\\'" + EscapeQuotes(s[1..])
    else [s[0]] + EscapeQuotes(s[1..])
  }

  /** Reading an escaped name back: a backslash right before a quote is dropped. */
  function UnescapeQuotes(s: string): (r: string)
    decreases |s|
  {
    if |s| == 0 then ""
    else if |s| >= 2 && s[0] == '\\' && s[1] == '\'' then "'" + UnescapeQuotes(s[2..])
    else [s[0]] + UnescapeQuotes(s[1..])
  }

  lemma {:induction false} EscapeRoundTrip(s: string)
    ensures UnescapeQuotes(EscapeQuotes(s)) == s
    ensures |s| > 0 ==> EscapeQuotes(s)[0] != '\''
    decreases |s|
  {
    if |s| > 0 {
      EscapeRoundTrip(s[1..]);
      var e := EscapeQuotes(s);
      if s[0] == '\'' {
        assert e[2..] == EscapeQuotes(s[1..]);
      } else {
        assert e[1..] == EscapeQuotes(s[1..]);
        if s[0] == '\\' && |e| >= 2 {
          assert e[1] != '\'';
        }
      }
    }
  }

  /** The `text-align` declaration for the run's paragraph alignment, if any. */
  function AlignmentDeclarations(run: AttributeRun): (ds: seq<Declaration>)
    ensures |ds| <= 1
  {
    var alignment := if run.paragraphStyle.Some? then run.paragraphStyle.value.alignment else None;
    match alignment
    case Some(a) =>
      if a == STYLE_ALIGNMENT_CENTER then [Declaration("text-align", "center")]
      else if a == STYLE_ALIGNMENT_RIGHT then [Declaration("text-align", "right")]
      else if a == STYLE_ALIGNMENT_JUSTIFY then [Declaration("text-align", "justify")]
      else []
    case None => []
  }

  /** The font family, font size and colour declarations, in that order. */
  function SpanDeclarations(run: AttributeRun): (ds: seq<Declaration>)
    ensures |ds| <= 3
    ensures (exists i :: 0 <= i < |ds| && ds[i].property == "font-family") <==>
      run.font.Some? && run.font.value.fontName.Some?
    ensures run.font.Some? && run.font.value.fontName.Some? ==>
      ds[0] == Declaration("font-family", "'" + EscapeQuotes(run.font.value.fontName.value) + "'")
    ensures (exists i :: 0 <= i < |ds| && ds[i].property == "font-size") <==>
      run.font.Some? && run.font.value.pointSize.Some?
    ensures run.font.Some? && run.font.value.pointSize.Some? ==>
      Declaration("font-size", run.font.value.pointSize.value + "px") in ds
    ensures (exists i :: 0 <= i < |ds| && ds[i].property == "color") <==> run.color.Some?
    ensures run.color.Some? ==> ds[|ds| - 1] == Declaration("color", FullHexString(run.color.value))
    ensures run.font.None? ==> |ds| <= 1
    ensures forall d :: d in ds ==> d.property in {"font-family", "font-size", "color"}
    ensures |ds| ==
      (if run.font.Some? && run.font.value.fontName.Some? then 1 else 0)
      + (if run.font.Some? && run.font.value.pointSize.Some? then 1 else 0)
      + (if run.color.Some? then 1 else 0)
  {
    var family :=
      if run.font.Some? && run.font.value.fontName.Some?
      then [Declaration("font-family", "'" + EscapeQuotes(run.font.value.fontName.value) + "'")]
      else [];
    var size :=
      if run.font.Some? && run.font.value.pointSize.Some?
      then [Declaration("font-size", run.font.value.pointSize.value + "px")]
      else [];
    var color := if run.color.Some? then [Declaration("color", FullHexString(run.color.value))] else [];
    DeclarationsInOrder(family, size, color);
    family + size + color
  }

  /** Which properties a family-size-colour concatenation holds, and where. */
  lemma DeclarationsInOrder(family: seq<Declaration>, size: seq<Declaration>, color: seq<Declaration>)
    requires |family| <= 1 && |size| <= 1 && |color| <= 1
    requires forall d :: d in family ==> d.property == "font-family"
    requires forall d :: d in size ==> d.property == "font-size"
    requires forall d :: d in color ==> d.property == "color"
    ensures var ds := family + size + color;
      && ((exists i :: 0 <= i < |ds| && ds[i].property == "font-family") <==> |family| == 1)
      && ((exists i :: 0 <= i < |ds| && ds[i].property == "font-size") <==> |size| == 1)
      && ((exists i :: 0 <= i < |ds| && ds[i].property == "color") <==> |color| == 1)
      && (|family| == 1 ==> ds[0] == family[0])
      && (|size| == 1 ==> size[0] in ds)
      && (|color| == 1 ==> ds[|ds| - 1] == color[0])
      && (forall d :: d in ds ==> d.property in {"font-family", "font-size", "color"})
  {
    var ds := family + size + color;
    assert forall i :: 0 <= i < |family + size| ==> ds[i].property != "color";
    assert forall i :: 0 <= i < |ds| && ds[i].property == "font-family" ==> i < |family|;
    assert forall i :: 0 <= i < |ds| && ds[i].property == "font-size" ==> |family| <= i < |family + size|;
    assert |family| > 0 ==> ds[0] == family[0] && ds[0].property == "font-family";
    assert |size| > 0 ==> ds[|family|] == size[0] && ds[|family|].property == "font-size";
    assert |color| > 0 ==> ds[|ds| - 1] == color[0];
  }

  // ---------------------------------------------------------------- inline tags

  /** The kinds of inline tag `add_inline_html` may open, in its opening order. */
  datatype InlineTag =
    | Bold | Italic | Underline | Strike | Superscript | Subscript
    | Aligned(style: string) | Styled(style: string) | Anchor(href: string)
  {
    /** The element this kind opens. */
    function ToTag(): (r: Tag) {
      match this
      case Bold => Tag("b", [], None)
      case Italic => Tag("i", [], None)
      case Underline => Tag("u", [], None)
      case Strike => Tag("s", [], None)
      case Superscript => Tag("sup", [], None)
      case Subscript => Tag("sub", [], None)
      case Aligned(style) => Tag("div", [Attr("style", style)], None)
      case Styled(style) => Tag("span", [Attr("style", style)], None)
      case Anchor(href) => Tag("a", [Attr("href", href), Attr("target", "_blank")], None)
    }

    /** Position in the fixed order b, i, u, s, sup|sub, div, span, a. */
    function Rank(): (r: nat) {
      match this
      case Bold => 0
      case Italic => 1
      case Underline => 2
      case Strike => 3
      case Superscript => 4
      case Subscript => 4
      case Aligned(_) => 5
      case Styled(_) => 6
      case Anchor(_) => 7
    }
  }

  /** Bold and italic for the font weight; bold is left out inside a heading. */
  function WeightTags(fontWeight: Option<int>, active: string): (r: seq<InlineTag>)
  {
    var bold := if IsHeading(active) then [] else [Bold];
    match fontWeight
    case None => []
    case Some(w) =>
      if w == FONT_TYPE_BOLD then bold
      else if w == FONT_TYPE_ITALIC then [Italic]
      else if w == FONT_TYPE_BOLD_ITALIC then bold + [Italic]
      else []
  }

  /** `[t]` when `c` holds, nothing otherwise. */
  function When(c: bool, t: InlineTag): (r: seq<InlineTag>) {
    if c then [t] else []
  }

  /** The tags after bold and italic, which do not depend on the active node. */
  function FormatTags(run: AttributeRun): (r: seq<InlineTag>)
  {
    DecorationTags(run) + WrapperTags(run)
  }

  /** Underline, strikethrough, then superscript or subscript. */
  function DecorationTags(run: AttributeRun): (r: seq<InlineTag>)
  {
    When(run.underlined == 1, Underline)
    + When(run.strikethrough == 1, Strike)
    + When(run.superscript == 1, Superscript)
    + When(run.superscript == -1, Subscript)
  }

  /** The alignment `div`, the font and colour `span`, then the link. */
  function WrapperTags(run: AttributeRun): (r: seq<InlineTag>)
  {
    Wrappers(AlignmentDeclarations(run), SpanDeclarations(run), run.link)
  }

  /** A `div` for non-empty alignment, a `span` for non-empty font and colour, an `a` for a non-empty link. */
  function Wrappers(align: seq<Declaration>, span: seq<Declaration>, link: Option<string>): (r: seq<InlineTag>)
  {
    When(|align| > 0, Aligned(StyleText(align)))
    + When(|span| > 0, Styled(StyleText(span)))
    + When(link.Some? && |link.value| > 0, Anchor(link.GetOr("")))
  }

  /**
    The tags `add_inline_html` opens around a run's text when the active
    node is named `active`, outermost first.
  */
  function InlineTags(run: AttributeRun, active: string): (r: seq<InlineTag>)
  {
    WeightTags(run.fontWeight, active) + FormatTags(run)
  }

  /** The same tags as elements to open. */
  function InlineElements(run: AttributeRun, active: string): (ts: seq<Tag>)
    ensures |ts| == |InlineTags(run, active)|
    ensures forall i :: 0 <= i < |ts| ==> ts[i] == InlineTags(run, active)[i].ToTag()
  {
    var ks := InlineTags(run, active);
    seq(|ks|, i requires 0 <= i < |ks| => ks[i].ToTag())
  }

  predicate Ranked(ks: seq<InlineTag>) {
    forall i, j :: 0 <= i < j < |ks| ==> ks[i].Rank() < ks[j].Rank()
  }

  predicate RanksWithin(ks: seq<InlineTag>, lo: int, hi: int) {
    forall i :: 0 <= i < |ks| ==> lo <= ks[i].Rank() < hi
  }

  lemma Push(ks: seq<InlineTag>, lo: int, c: bool, t: InlineTag)
    requires Ranked(ks) && RanksWithin(ks, lo, t.Rank()) && lo <= t.Rank()
    ensures Ranked(ks + When(c, t)) && RanksWithin(ks + When(c, t), lo, t.Rank() + 1)
  {
  }

  lemma RankedConcat(ks: seq<InlineTag>, ls: seq<InlineTag>, lo: int, mid: int, hi: int)
    requires lo <= mid <= hi
    requires Ranked(ks) && RanksWithin(ks, lo, mid)
    requires Ranked(ls) && RanksWithin(ls, mid, hi)
    ensures Ranked(ks + ls) && RanksWithin(ks + ls, lo, hi)
  {
  }

  lemma DecorationTagsOrder(run: AttributeRun)
    ensures Ranked(DecorationTags(run)) && RanksWithin(DecorationTags(run), 2, 5)
  {
    var t1 := When(run.underlined == 1, Underline);
    var t2 := t1 + When(run.strikethrough == 1, Strike);
    Push(t1, 2, run.strikethrough == 1, Strike);
    var t3 := t2 + When(run.superscript == 1, Superscript);
    Push(t2, 2, run.superscript == 1, Superscript);
    var t4 := t3 + When(run.superscript == -1, Subscript);
    if run.superscript == -1 {
      assert t3 == t2;
      Push(t2, 2, true, Subscript);
    } else {
      assert t4 == t3;
    }
  }

  lemma WrappersOrder(align: seq<Declaration>, span: seq<Declaration>, link: Option<string>)
    ensures Ranked(Wrappers(align, span, link)) && RanksWithin(Wrappers(align, span, link), 5, 8)
  {
    var t5 := When(|align| > 0, Aligned(StyleText(align)));
    var t6 := t5 + When(|span| > 0, Styled(StyleText(span)));
    Push(t5, 5, |span| > 0, Styled(StyleText(span)));
    var linked := link.Some? && |link.value| > 0;
    Push(t6, 5, linked, Anchor(link.GetOr("")));
  }

  lemma WrapperTagsOrder(run: AttributeRun)
    ensures Ranked(WrapperTags(run)) && RanksWithin(WrapperTags(run), 5, 8)
  {
    WrappersOrder(AlignmentDeclarations(run), SpanDeclarations(run), run.link);
  }

  lemma FormatTagsOrder(run: AttributeRun)
    ensures Ranked(FormatTags(run)) && RanksWithin(FormatTags(run), 2, 8)
  {
    DecorationTagsOrder(run);
    WrapperTagsOrder(run);
    RankedConcat(DecorationTags(run), WrapperTags(run), 2, 5, 8);
  }

  /**
    The inline tags are opened in the fixed order b, i, u, s, sup|sub, div,
    span, a, each at most once (so `sup` and `sub` never both), and `b` is
    never opened inside a heading.
  */
  lemma InlineTagsOrder(run: AttributeRun, active: string)
    ensures Ranked(InlineTags(run, active))
    ensures IsHeading(active) ==> Bold !in InlineTags(run, active)
    ensures !(Superscript in InlineTags(run, active) && Subscript in InlineTags(run, active))
  {
    var w := WeightTags(run.fontWeight, active);
    var f := FormatTags(run);
    WeightTagsOrder(run.fontWeight, active);
    FormatTagsOrder(run);
    RankedConcat(w, f, 0, 2, 8);
    var ks := w + f;
    assert InlineTags(run, active) == ks;
    if IsHeading(active) {
      OutOfRangeAbsent(f, 2, 8, Bold);
      assert Bold !in ks;
    }
    RankedExcludesTies(ks, Superscript, Subscript);
  }

  lemma WeightTagsOrder(fontWeight: Option<int>, active: string)
    ensures Ranked(WeightTags(fontWeight, active)) && RanksWithin(WeightTags(fontWeight, active), 0, 2)
    ensures IsHeading(active) ==> Bold !in WeightTags(fontWeight, active)
  {
  }

  lemma OutOfRangeAbsent(ks: seq<InlineTag>, lo: int, hi: int, t: InlineTag)
    requires RanksWithin(ks, lo, hi) && !(lo <= t.Rank() < hi)
    ensures t !in ks
  {
  }

  lemma RankedExcludesTies(ks: seq<InlineTag>, a: InlineTag, b: InlineTag)
    requires Ranked(ks) && a != b && a.Rank() == b.Rank()
    ensures !(a in ks && b in ks)
  {
  }

  /** Outside a heading, a bold or bold-italic run opens `b` first. */
  lemma BoldOutsideHeading(run: AttributeRun, active: string)
    requires !IsHeading(active)
    requires run.fontWeight == Some(FONT_TYPE_BOLD) || run.fontWeight == Some(FONT_TYPE_BOLD_ITALIC)
    ensures |InlineTags(run, active)| > 0 && InlineTags(run, active)[0] == Bold
  {
  }

  // ---------------------------------------------------------------- add_inline_html

  /**
    `add_inline_html`: open the run's inline tags, add the text, close
    exactly the tags opened. The net effect is one appended subtree holding
    one text node, with the cursor and the depth count unchanged.
  */
  function AddInlineHtml(run: AttributeRun, b: Builder, text: string): (r: Builder)
    requires Valid(b)
    ensures Grows(b, r) && r.cursor == b.cursor && r.depth == b.depth
    ensures ActiveTag(r) == ActiveTag(b)
    ensures r.root == AppendAt(b.root, b.cursor, Wrap(InlineElements(run, ActiveTag(b)), Text(text)))
  {
    var tags := InlineElements(run, ActiveTag(b));
    var inside := OpenAll(b, tags);
    var added := AddChild(inside, Text(text));
    OpenAddClose(b, tags, Text(text));
    AppendExtends(b.root, b.cursor, Wrap(tags, Text(text)));
    AppendKeepsPaths(b.root, b.cursor, Wrap(tags, Text(text)), b.cursor);
    CloseN(added, added.depth - b.depth)
  }

  // ---------------------------------------------------------------- add_html_text

  /** One piece of `add_html_text`'s split. */
  function AddSegment(run: AttributeRun, b: Builder, seg: string): (r: Builder)
    requires Valid(b)
    ensures Grows(b, r) && r.cursor == b.cursor && r.depth == b.depth
    ensures ActiveTag(r) == ActiveTag(b)
  {
    if seg == [LINE_SEPARATOR] then AddChild(b, BREAK)
    else if seg == "\n" then
      var active := ActiveTag(b);
      if active == "pre" then AddInlineHtml(run, b, "\n")
      else if IsHeading(active) then ExtendsReflexive(b.root); b
      else AddChild(b, BREAK)
    else AddInlineHtml(run, b, seg)
  }

  function AddSegments(run: AttributeRun, b: Builder, segs: seq<string>): (r: Builder)
    requires Valid(b)
    ensures Grows(b, r) && r.cursor == b.cursor && r.depth == b.depth
    ensures ActiveTag(r) == ActiveTag(b)
    decreases |segs|
  {
    if |segs| == 0 then ExtendsReflexive(b.root); b
    else
      var b1 := AddSegment(run, b, segs[0]);
      var r := AddSegments(run, b1, segs[1..]);
      ExtendsTransitive(b.root, b1.root, r.root);
      r
  }

  /**
    `add_html_text`: the text cut at line separators and newlines, each
    piece rendered at the active node, which stays active throughout.
  */
  function AddHtmlText(run: AttributeRun, b: Builder, text: string): (r: Builder)
    requires Valid(b)
    ensures Grows(b, r) && r.cursor == b.cursor && r.depth == b.depth
    ensures ActiveTag(r) == ActiveTag(b)
  {
    AddSegments(run, b, RubySplit(text, LINE_BREAKS))
  }

  /**
    What one piece leaves at an active node named `active`: a line separator
    is always a `br`; a newline is an inline "\n" in `pre`, nothing in a
    heading and a `br` elsewhere; any other piece is the wrapped text.
  */
  function SegmentNodes(run: AttributeRun, active: string, seg: string): (r: seq<Node>) {
    if seg == [LINE_SEPARATOR] then [BREAK]
    else if seg == "\n" then
      if active == "pre" then [Wrap(InlineElements(run, active), Text("\n"))]
      else if IsHeading(active) then []
      else [BREAK]
    else [Wrap(InlineElements(run, active), Text(seg))]
  }

  function SegmentsNodes(run: AttributeRun, active: string, segs: seq<string>): (r: seq<Node>)
    decreases |segs|
  {
    if |segs| == 0 then [] else SegmentNodes(run, active, segs[0]) + SegmentsNodes(run, active, segs[1..])
  }

  lemma AddSegmentAppends(run: AttributeRun, b: Builder, seg: string)
    requires Valid(b)
    ensures AddSegment(run, b, seg) == Builder(AppendAllAt(b.root, b.cursor, SegmentNodes(run, ActiveTag(b), seg)), b.cursor, b.depth)
  {
    var ns := SegmentNodes(run, ActiveTag(b), seg);
    if |ns| == 1 {
      AppendAllOne(b.root, b.cursor, ns[0]);
    }
  }

  lemma {:induction false} AddSegmentsAppends(run: AttributeRun, b: Builder, segs: seq<string>)
    requires Valid(b)
    ensures AddSegments(run, b, segs) == Builder(AppendAllAt(b.root, b.cursor, SegmentsNodes(run, ActiveTag(b), segs)), b.cursor, b.depth)
    decreases |segs|
  {
    if |segs| > 0 {
      var b1 := AddSegment(run, b, segs[0]);
      AddSegmentAppends(run, b, segs[0]);
      AddSegmentsAppends(run, b1, segs[1..]);
      AppendAllConcat(b.root, b.cursor, SegmentNodes(run, ActiveTag(b), segs[0]), SegmentsNodes(run, ActiveTag(b), segs[1..]));
    }
  }

  /**
    `add_html_text` appends, at the active node and in order, exactly the
    nodes its pieces stand for, and moves neither the cursor nor the depth.
  */
  lemma AddHtmlTextAppends(run: AttributeRun, b: Builder, text: string)
    requires Valid(b)
    ensures AddHtmlText(run, b, text)
      == Builder(AppendAllAt(b.root, b.cursor, SegmentsNodes(run, ActiveTag(b), RubySplit(text, LINE_BREAKS))), b.cursor, b.depth)
  {
    AddSegmentsAppends(run, b, RubySplit(text, LINE_BREAKS));
  }

  // ---------------------------------------------------------------- text content

  /** The characters of `s` that survive as text at a node named `active`. */
  function KeptText(active: string, s: string): (r: string)
    ensures |r| <= |s|
    decreases |s|
  {
    if |s| == 0 then ""
    else if s[0] == LINE_SEPARATOR || (s[0] == '\n' && active != "pre") then KeptText(active, s[1..])
    else [s[0]] + KeptText(active, s[1..])
  }

  lemma {:induction false} KeptTextAppend(active: string, s: string, t: string)
    ensures KeptText(active, s + t) == KeptText(active, s) + KeptText(active, t)
    decreases |s|
  {
    if |s| > 0 {
      assert (s + t)[1..] == s[1..] + t;
      KeptTextAppend(active, s[1..], t);
    } else {
      assert s + t == t;
    }
  }

  lemma {:induction false} KeptTextSeparatorFree(active: string, s: string)
    requires SeparatorFree(s, LINE_BREAKS)
    ensures KeptText(active, s) == s
    decreases |s|
  {
    if |s| > 0 {
      KeptTextSeparatorFree(active, s[1..]);
    }
  }

  /** The text leaves of a sequence of nodes, joined. */
  function TextOf(ns: seq<Node>): (r: string)
    decreases |ns|
  {
    if |ns| == 0 then "" else Concat(Leaves(ns[0])) + TextOf(ns[1..])
  }

  lemma {:induction false} TextOfAppend(ns: seq<Node>, ms: seq<Node>)
    ensures TextOf(ns + ms) == TextOf(ns) + TextOf(ms)
    decreases |ns|
  {
    if |ns| > 0 {
      assert (ns + ms)[1..] == ns[1..] + ms;
      TextOfAppend(ns[1..], ms);
    } else {
      assert ns + ms == ms;
    }
  }

  lemma SegmentText(run: AttributeRun, active: string, seg: string)
    requires SeparatorFree(seg, LINE_BREAKS) || IsSeparator(seg, LINE_BREAKS)
    ensures TextOf(SegmentNodes(run, active, seg)) == KeptText(active, seg)
  {
    var ns := SegmentNodes(run, active, seg);
    assert Leaves(BREAK) == [];
    if |ns| == 1 {
      assert ns[1..] == [];
      if seg == [LINE_SEPARATOR] || (seg == "\n" && active != "pre") {
      } else {
        WrapHasOneLeaf(InlineElements(run, active), seg);
        assert Concat([seg]) == seg;
        if seg != "\n" {
          KeptTextSeparatorFree(active, seg);
        }
      }
    }
  }

  lemma {:induction false} SegmentsText(run: AttributeRun, active: string, segs: seq<string>)
    requires forall i :: 0 <= i < |segs| ==> SeparatorFree(segs[i], LINE_BREAKS) || IsSeparator(segs[i], LINE_BREAKS)
    ensures TextOf(SegmentsNodes(run, active, segs)) == KeptText(active, Concat(segs))
    decreases |segs|
  {
    if |segs| > 0 {
      SegmentText(run, active, segs[0]);
      SegmentsText(run, active, segs[1..]);
      TextOfAppend(SegmentNodes(run, active, segs[0]), SegmentsNodes(run, active, segs[1..]));
      KeptTextAppend(active, segs[0], Concat(segs[1..]));
    }
  }

  /**
    The text that `add_html_text` places in the tree is the input with every
    line separator removed and, outside `pre`, every newline removed too:
    nothing else is lost, duplicated or reordered.
  */
  lemma AddHtmlTextKeepsText(run: AttributeRun, active: string, text: string)
    ensures TextOf(SegmentsNodes(run, active, RubySplit(text, LINE_BREAKS))) == KeptText(active, text)
  {
    SegmentsText(run, active, RubySplit(text, LINE_BREAKS));
  }
}
