/**
  `generate_html`: renders one attribute run into the note's root fragment.
  A fresh cursor starts at the root; a heading or `pre` block may be opened;
  list runs relocate the cursor into containers left open by earlier runs
  and open any missing nesting levels; then the text goes in, as list items
  when the cursor sits in a list. Block containers are never closed: later
  runs find them again through their indent markers.
*/
module Generate {
  import opened Options
  import opened Styles
  import opened Runs
  import opened Html
  import opened Builder
  import opened Split
  import opened Inline

  /** The run rendered just before, with the `tag_is_open` flag its rendering set. */
  datatype PreviousRun = PreviousRun(run: AttributeRun, tagIsOpen: bool)

  /** What `generate_html` leaves behind: the grown root fragment and this run's `tag_is_open`. */
  datatype Rendered = Rendered(root: Node, tagIsOpen: bool)

  function RunOf(prev: Option<PreviousRun>): (r: Option<AttributeRun>)
    ensures r.Some? <==> prev.Some?
  {
    match prev
    case None => None
    case Some(p) => Some(p.run)
  }

  /**
    The checklist reads `generate_html` performs cannot fail: the run's own
    checklist is present if it is a checkbox, and the comparison with the
    previous run can read both checklists.
  */
  predicate Readable(run: AttributeRun, prev: Option<PreviousRun>) {
    ChecklistReadable(run) && (prev.Some? ==> ChecklistsComparable(run, prev.value.run))
  }

  /** The run's text ends with a newline: its `tag_is_open` is false. */
  predicate EndsWithNewline(text: string) {
    |text| > 0 && text[|text| - 1] == '\n'
  }

  /**
    `tag_is_open` agrees with the list phase: the item is left open exactly
    when the text has no pieces or its last piece is not a newline.
  */
  lemma TagIsOpenMatchesSplit(text: string)
    ensures var ps := RubySplit(text, {'\n'});
      !EndsWithNewline(text) <==> ps == [] || ps[|ps| - 1] != "\n"
  {
    var ps := RubySplit(text, {'\n'});
    if ps != [] {
      var n := |ps|;
      ConcatAppend(ps[..n - 1], [ps[n - 1]]);
      assert ps[..n - 1] + [ps[n - 1]] == ps;
      assert Concat([ps[n - 1]]) == ps[n - 1];
      var last := ps[n - 1];
      assert text[|text| - 1] == last[|last| - 1];
    }
  }

  // ---------------------------------------------------------------- heading blocks

  /** The block element a title, heading, subheading or monospaced style opens. */
  function BlockTag(styleType: int): (r: Option<string>)
    ensures r.Some? <==> styleType in {STYLE_TYPE_TITLE, STYLE_TYPE_HEADING, STYLE_TYPE_SUBHEADING, STYLE_TYPE_MONOSPACED}
    ensures r.Some? ==> IsHeading(r.value) || r.value == "pre"
  {
    if styleType == STYLE_TYPE_TITLE then Some("h1")
    else if styleType == STYLE_TYPE_HEADING then Some("h2")
    else if styleType == STYLE_TYPE_SUBHEADING then Some("h3")
    else if styleType == STYLE_TYPE_MONOSPACED then Some("pre")
    else None
  }

  /** The run starts a new heading or `pre` block. */
  predicate OpensBlock(run: AttributeRun, prev: Option<PreviousRun>)
    requires Readable(run, prev)
  {
    HasStyleType(run) && !SameStyleType(run, RunOf(prev))
    && BlockTag(run.paragraphStyle.value.styleType.value).Some?
  }

  /**
    Opens `h1`, `h2`, `h3` or `pre` as a new child of the active node when
    the run has a style type that does not continue the previous run's.
  */
  function OpenBlock(run: AttributeRun, prev: Option<PreviousRun>, b: Builder): (r: Builder)
    requires Valid(b) && Readable(run, prev)
    ensures Grows(b, r)
    ensures !OpensBlock(run, prev) ==> r == b
    ensures OpensBlock(run, prev) ==>
      && r.depth == b.depth + 1
      && r.cursor == b.cursor + [|At(b.root, b.cursor).children|]
      && r.root == AppendAt(b.root, b.cursor, Element(ActiveTag(r), [], None, []))
      && Some(ActiveTag(r)) == BlockTag(run.paragraphStyle.value.styleType.value)
  {
    if HasStyleType(run) && !SameStyleType(run, RunOf(prev)) then
      match BlockTag(run.paragraphStyle.value.styleType.value)
      case Some(t) => OpenTag(b, Tag(t, [], None))
      case None => ExtendsReflexive(b.root); b
    else ExtendsReflexive(b.root); b
  }

  /** A run that continues the previous run's style type never opens a second block. */
  lemma ContinuationSharesBlock(run: AttributeRun, prev: PreviousRun, b: Builder)
    requires Valid(b) && Readable(run, Some(prev))
    requires SameStyleType(run, Some(prev.run))
    ensures OpenBlock(run, Some(prev), b) == b
  {
  }

  // ---------------------------------------------------------------- list containers

  /**
    The list container for the run: `ol` for numbered lists, `ul` with class
    `dotted`, `dashed` or `checklist` for the other list styles, `ul` with
    class `none` for any other paragraph indented above 0.
  */
  function ListTag(run: AttributeRun): (r: Option<Tag>)
    ensures r.Some? <==> IsAnyList(run) || IndentOf(run) > 0
    ensures r.Some? ==> r.value.name in {"ol", "ul"}
    ensures r.Some? ==> (r.value.name == "ol" <==> IsNumberedList(run))
    ensures IsNumberedList(run) ==> r == Some(Tag("ol", [], None))
    ensures IsDottedList(run) ==> r == Some(Tag("ul", [Attr("class", "dotted")], None))
    ensures IsDashedList(run) ==> r == Some(Tag("ul", [Attr("class", "dashed")], None))
    ensures IsCheckbox(run) ==> r == Some(Tag("ul", [Attr("class", "checklist")], None))
    ensures r.Some? && !IsAnyList(run) ==> r.value == Tag("ul", [Attr("class", "none")], None)
    ensures r.Some? ==> r.value.marker.None?
  {
    var st := StyleTypeOf(run);
    if st == Some(STYLE_TYPE_NUMBERED_LIST) then Some(Tag("ol", [], None))
    else if st == Some(STYLE_TYPE_DOTTED_LIST) then Some(Tag("ul", [Attr("class", "dotted")], None))
    else if st == Some(STYLE_TYPE_DASHED_LIST) then Some(Tag("ul", [Attr("class", "dashed")], None))
    else if st == Some(STYLE_TYPE_CHECKBOX) then Some(Tag("ul", [Attr("class", "checklist")], None))
    else if IndentOf(run) > 0 then Some(Tag("ul", [Attr("class", "none")], None))
    else None
  }

  /** The nesting depth the run asks for: its indent, one less for an indented non-list paragraph. */
  function NominalDepth(run: AttributeRun): (d: int)
    ensures IsAnyList(run) ==> d == IndentOf(run)
    ensures !IsAnyList(run) ==> d == IndentOf(run) - 1
  {
    var depth := IndentOf(run);
    if !IsAnyList(run) then depth - 1 else depth
  }

  /**
    For a run with a container, the depth test before the container search
    fails exactly for a negative indent: an indented non-list paragraph
    always passes it.
  */
  lemma NominalDepthSign(run: AttributeRun)
    requires ListTag(run).Some?
    ensures NominalDepth(run) >= 0 <==> IndentOf(run) >= 0
  {
  }

  // ---------------------------------------------------------------- relocation

  /** Where the cursor goes before a list run's containers are opened. */
  datatype Move = Stay | ToLastItem | ToMarkedContainer

  function PrevStyleType(prev: Option<PreviousRun>): (r: Option<int>) {
    match prev
    case None => None
    case Some(p) => StyleTypeOf(p.run)
  }

  function PrevIndent(prev: Option<PreviousRun>): (r: int) {
    match prev
    case None => 0
    case Some(p) => IndentOf(p.run)
  }

  /**
    The relocation decision for a list run: a run at indent 0 whose style type
    differs from the previous one stays; after a list or indented run, a
    deeper run (or an equally deep one whose predecessor left its item open)
    goes to the last list item, otherwise to the container marked with its
    indent, provided its nominal depth is not negative; anything else stays.
  */
  function Relocation(run: AttributeRun, prev: Option<PreviousRun>): (m: Move)
    ensures ListTag(run).None? ==> m == Stay
    ensures m != Stay ==> prev.Some? && (IsAnyList(prev.value.run) || IndentOf(prev.value.run) > 0)
    ensures m != Stay && IndentOf(run) == 0 ==> StyleTypeOf(run) == PrevStyleType(prev)
    ensures ListTag(run).Some? && (IndentOf(run) != 0 || StyleTypeOf(run) == PrevStyleType(prev))
            && prev.Some? && (IsAnyList(prev.value.run) || IndentOf(prev.value.run) > 0) ==>
      && (m == ToLastItem <==>
            IndentOf(run) > PrevIndent(prev) || (IndentOf(run) == PrevIndent(prev) && prev.value.tagIsOpen))
      && (m == ToMarkedContainer <==> m != ToLastItem && IndentOf(run) >= 0)
  {
    if ListTag(run).None? then Stay
    else if StyleTypeOf(run) != PrevStyleType(prev) && IndentOf(run) == 0 then Stay
    else if prev.Some? && (IsAnyList(prev.value.run) || IndentOf(prev.value.run) > 0) then
      if IndentOf(run) > PrevIndent(prev) || (IndentOf(run) == PrevIndent(prev) && prev.value.tagIsOpen) then ToLastItem
      else if NominalDepth(run) >= 0 then ToMarkedContainer
      else Stay
    else Stay
  }

  /**
    The cursor after relocation. Both searches look inside the root's last
    element child and fall back to the root itself when they find nothing:
    the last `li` strictly below it, or the first descendant marked with the
    run's indent, and that child itself only when no descendant is marked.
  */
  function Relocate(run: AttributeRun, prev: Option<PreviousRun>, b: Builder): (p: Path)
    requires Valid(b)
    requires Relocation(run, prev) != Stay ==> LastElementChild(b.root).Some?
    ensures ValidPath(b.root, p)
    ensures Relocation(run, prev) == Stay ==> p == b.cursor
    ensures Relocation(run, prev) == ToLastItem ==>
      var k := LastElementChild(b.root).value;
      var last := b.root.children[k];
      && (p == [] <==> forall q :: !IsLiBelow(last, q))
      && (p != [] ==> p[0] == k && IsLiBelow(last, p[1..]) && forall q :: IsLiBelow(last, q) ==> PreorderLe(q, p[1..]))
    ensures Relocation(run, prev) == ToMarkedContainer ==>
      var k := LastElementChild(b.root).value;
      var last := b.root.children[k];
      var v := IndentOf(run);
      && (p == [] <==> forall q :: !MarkedAt(last, q, v))
      && (p != [] ==> p[0] == k && MarkedAt(last, p[1..], v))
      && (p != [] && p[1..] == [] ==> forall q :: MarkedAt(last, q, v) ==> q == [])
      && (p != [] && p[1..] != [] ==> forall q :: MarkedAt(last, q, v) && q != [] ==> PreorderLe(p[1..], q))
  {
    match Relocation(run, prev)
    case Stay => b.cursor
    case ToLastItem =>
      var k := LastElementChild(b.root).value;
      var last := b.root.children[k];
      LastLiIsLast(last);
      (match LastLi(last)
       case Some(q) =>
         PathConcat(b.root, [k], q);
         assert ([k] + q)[1..] == q;
         [k] + q
       case None => [])
    case ToMarkedContainer =>
      var k := LastElementChild(b.root).value;
      var last := b.root.children[k];
      MarkedLookupIsFirst(last, IndentOf(run));
      match MarkedLookup(last, IndentOf(run))
      case Some(q) =>
        PathConcat(b.root, [k], q);
        assert ([k] + q)[1..] == q;
        [k] + q
      case None => []
  }

  // ---------------------------------------------------------------- nesting levels

  /**
    The first nesting level still to open: one past the marker on the active
    node or its nearest marked ancestor, 0 when there is none.
  */
  function ContainerStart(b: Builder): (start: int)
    requires Valid(b)
    ensures var ms := MarkersAlong(b.root, b.cursor);
      match LastPresentIndex(ms)
      case None => start == 0
      case Some(i) => start == ms[i].value + 1
  {
    NearestMarkerIsDeepest(b.root, b.cursor);
    match NearestMarker(b.root, b.cursor)
    case Some(m) => m + 1
    case None => 0
  }

  const ITEM: Tag := Tag("li", [], None)

  /**
    The tags the loop over the levels `v..hi` opens, each inside the one
    before: for every level an `li`, except at the first level, and then
    the container marked with that level.
  */
  function Levels(v: int, hi: int, container: Tag): (ts: seq<Tag>)
    ensures |ts| == if v <= hi then 2 * (hi - v) + 1 else 0
    decreases if v <= hi then hi - v + 1 else 0
  {
    if v > hi then []
    else [container.(marker := Some(v))] + (if v < hi then [ITEM] + Levels(v + 1, hi, container) else [])
  }

  /** The loop opening the levels `start..hi`. */
  function OpenLevels(b: Builder, start: int, hi: int, container: Tag): (r: Builder)
    requires Valid(b)
    ensures Grows(b, r)
    ensures start > hi ==> r == b
  {
    OpenAll(b, Levels(start, hi, container))
  }

  /** The containers for levels `v..hi`, each one inside an `li` of the one before. */
  function Chain(v: int, hi: int, container: Tag): (n: Node)
    ensures n.Element? && n.tag == container.name && n.marker == Some(v)
    decreases if v <= hi then hi - v else 0
  {
    Element(container.name, container.attrs, Some(v),
      if v < hi then [Element("li", [], None, [Chain(v + 1, hi, container)])] else [])
  }

  /** What the loop leaves behind is the chain of containers. */
  lemma {:induction false} LevelsNestChain(v: int, hi: int, container: Tag)
    requires v <= hi
    ensures Nest(Levels(v, hi, container)) == Chain(v, hi, container)
    decreases hi - v
  {
    var ts := Levels(v, hi, container);
    if v < hi {
      LevelsNestChain(v + 1, hi, container);
      var rest := Levels(v + 1, hi, container);
      assert ts[1..] == [ITEM] + rest;
      assert ts[1..][1..] == rest;
    }
  }

  /** The marker of each container down a chain, outermost first. */
  function SpineMarkers(n: Node): (r: seq<Option<int>>)
    decreases n
  {
    if n.Text? then []
    else if |n.children| > 0 && n.children[0].Element? && |n.children[0].children| > 0
    then [n.marker] + SpineMarkers(n.children[0].children[0])
    else [n.marker]
  }

  /** A chain holds exactly one container per level from `v` to `hi`, marked with that level. */
  lemma {:induction false} ChainMarkers(v: int, hi: int, container: Tag)
    requires v <= hi
    ensures SpineMarkers(Chain(v, hi, container)) == seq(hi - v + 1, i => Some(v + i))
    decreases hi - v
  {
    if v < hi {
      ChainMarkers(v + 1, hi, container);
      var s := seq(hi - v + 1, i => Some(v + i));
      assert s == [Some(v)] + seq(hi - v, i => Some(v + 1 + i));
    }
  }

  /** The innermost container of a chain is the empty one for level `hi`. */
  lemma {:induction false} ChainInnermost(v: int, hi: int, container: Tag)
    requires v <= hi
    ensures ValidPath(Chain(v, hi, container), Zeros(2 * (hi - v)))
    ensures At(Chain(v, hi, container), Zeros(2 * (hi - v))) == Element(container.name, container.attrs, Some(hi), [])
    decreases hi - v
  {
    if v < hi {
      ChainInnermost(v + 1, hi, container);
      var p := Zeros(2 * (hi - v));
      assert p[0] == 0 && p[1..][0] == 0 && p[1..][1..] == Zeros(2 * (hi - v - 1));
    }
  }

  /**
    Opening the levels `lo..hi` appends one chain of containers at the
    active node and leaves the cursor in its innermost container.
  */
  lemma OpenLevelsAppendsChain(b: Builder, lo: int, hi: int, container: Tag)
    requires Valid(b) && lo <= hi
    ensures var k := |At(b.root, b.cursor).children|;
      OpenLevels(b, lo, hi, container) == Builder(
        AppendAt(b.root, b.cursor, Chain(lo, hi, container)),
        b.cursor + [k] + Zeros(2 * (hi - lo)),
        b.depth + 2 * (hi - lo) + 1)
  {
    OpenAllAppendsNest(b, Levels(lo, hi, container));
    LevelsNestChain(lo, hi, container);
  }

  // ---------------------------------------------------------------- list text

  predicate IsListNode(tag: string) {
    tag == "ol" || tag == "ul" || tag == "li"
  }

  /** A checkbox item's class: `checked` when its checklist is done. */
  function ItemAttrs(run: AttributeRun): (attrs: seq<Attr>)
    requires ChecklistReadable(run)
    ensures IsCheckbox(run) <==> |attrs| == 1
    ensures IsCheckbox(run) ==>
      attrs[0] == Attr("class", if run.paragraphStyle.value.checklist.value.done == 1 then "checked" else "unchecked")
  {
    if IsCheckbox(run) then
      [Attr("class", if run.paragraphStyle.value.checklist.value.done == 1 then "checked" else "unchecked")]
    else []
  }

  /**
    One piece of list text: a newline that is not the last piece closes the
    current item; any other piece goes into an `li`, opened when the cursor
    is not already on one.
  */
  function AddListPiece(run: AttributeRun, b: Builder, pieces: seq<string>, i: nat): (r: Builder)
    requires Valid(b) && ChecklistReadable(run) && i < |pieces|
    ensures Grows(b, r)
    ensures pieces[i] != "\n" ==> ActiveTag(r) == "li"
    ensures pieces[i] != "\n" && ActiveTag(b) == "li" ==> r.cursor == b.cursor
    ensures pieces[i] == "\n" && i < |pieces| - 1 ==> r == CloseTag(b)
    ensures pieces[i] == "\n" && i == |pieces| - 1 ==> r == b
  {
    if pieces[i] == "\n" then
      ExtendsReflexive(b.root);
      if i != |pieces| - 1 then CloseTag(b) else b
    else
      var b1 := if ActiveTag(b) != "li" then OpenTag(b, Tag("li", ItemAttrs(run), None)) else (ExtendsReflexive(b.root); b);
      var r := AddHtmlText(run, b1, pieces[i]);
      ExtendsTransitive(b.root, b1.root, r.root);
      r
  }

  function AddListPieces(run: AttributeRun, b: Builder, pieces: seq<string>, i: nat): (r: Builder)
    requires Valid(b) && ChecklistReadable(run) && i <= |pieces|
    ensures Grows(b, r)
    decreases |pieces| - i
  {
    if i == |pieces| then ExtendsReflexive(b.root); b
    else
      var b1 := AddListPiece(run, b, pieces, i);
      var r := AddListPieces(run, b1, pieces, i + 1);
      ExtendsTransitive(b.root, b1.root, r.root);
      r
  }

  /** The text of a run whose cursor ended in a list: split at newlines into items. */
  function AddListText(run: AttributeRun, b: Builder, text: string): (r: Builder)
    requires Valid(b) && ChecklistReadable(run)
    ensures Grows(b, r)
  {
    AddListPieces(run, b, RubySplit(text, {'\n'}), 0)
  }

  /** The list item one field of list text becomes: its class, and the field rendered inside. */
  function Item(run: AttributeRun, field: string): (n: Node)
    requires ChecklistReadable(run)
    ensures n.Element? && n.tag == "li" && n.attrs == ItemAttrs(run) && n.marker.None?
  {
    Element("li", ItemAttrs(run), None, SegmentsNodes(run, "li", RubySplit(field, LINE_BREAKS)))
  }

  /** One item per field of the pieces, in order; the newlines between fields add none. */
  function Items(run: AttributeRun, pieces: seq<string>): (r: seq<Node>)
    requires ChecklistReadable(run)
    decreases |pieces|
  {
    if |pieces| == 0 then []
    else (if pieces[0] == "\n" then [] else [Item(run, pieces[0])]) + Items(run, pieces[1..])
  }

  /** The pieces alternate: fields at even positions, newlines at odd ones. */
  predicate ListPieces(pieces: seq<string>) {
    forall i :: 0 <= i < |pieces| ==> (pieces[i] == "\n" <==> i % 2 == 1)
  }

  /** Appending children to an element that was just appended builds the grown element in one step. */
  lemma {:induction false} AppendAllInside(n: Node, p: Path, e: Node, xs: seq<Node>)
    requires ValidPath(n, p) && e.Element?
    ensures var k := |At(n, p).children|;
      && ValidPath(AppendAt(n, p, e), p + [k])
      && AppendAllAt(AppendAt(n, p, e), p + [k], xs) == AppendAt(n, p, Grown(e, xs))
    decreases |xs|
  {
    var k := |At(n, p).children|;
    AppendInside(n, p, e, [], Text(""));
    assert p + [k] + [] == p + [k];
    if |xs| > 0 {
      AppendInside(n, p, e, [], xs[0]);
      assert AppendAt(e, [], xs[0]) == Grown(e, [xs[0]]);
      AppendAllInside(n, p, Grown(e, [xs[0]]), xs[1..]);
      assert Grown(Grown(e, [xs[0]]), xs[1..]) == Grown(e, xs);
    } else {
      assert Grown(e, xs) == e;
    }
  }

  /** A field met at a container opens a new item and fills it; the cursor rests on the item. */
  lemma FieldOpensItem(run: AttributeRun, b: Builder, pieces: seq<string>, i: nat)
    requires Valid(b) && ChecklistReadable(run) && i < |pieces|
    requires pieces[i] != "\n" && ActiveTag(b) != "li"
    ensures var k := |At(b.root, b.cursor).children|;
      AddListPiece(run, b, pieces, i) == Builder(AppendAt(b.root, b.cursor, Item(run, pieces[i])), b.cursor + [k], b.depth + 1)
  {
    var t := Tag("li", ItemAttrs(run), None);
    var b1 := OpenTag(b, t);
    var xs := SegmentsNodes(run, "li", RubySplit(pieces[i], LINE_BREAKS));
    assert AddListPiece(run, b, pieces, i) == AddHtmlText(run, b1, pieces[i]);
    assert ActiveTag(b1) == "li";
    AddHtmlTextAppends(run, b1, pieces[i]);
    AppendAllInside(b.root, b.cursor, Empty(t), xs);
    assert Grown(Empty(t), xs) == Item(run, pieces[i]);
  }

  /** A field met on an item continues that item. */
  lemma FieldContinuesItem(run: AttributeRun, b: Builder, pieces: seq<string>, i: nat)
    requires Valid(b) && ChecklistReadable(run) && i < |pieces|
    requires pieces[i] != "\n" && ActiveTag(b) == "li"
    ensures AddListPiece(run, b, pieces, i)
      == Builder(AppendAllAt(b.root, b.cursor, SegmentsNodes(run, "li", RubySplit(pieces[i], LINE_BREAKS))), b.cursor, b.depth)
  {
    AddHtmlTextAppends(run, b, pieces[i]);
  }

  /** A field followed by a newline that is not last: one item appended, the cursor back at the container. */
  lemma FieldThenNewline(run: AttributeRun, b: Builder, pieces: seq<string>, i: nat)
    requires Valid(b) && ChecklistReadable(run) && i + 2 < |pieces|
    requires pieces[i] != "\n" && pieces[i + 1] == "\n" && ActiveTag(b) != "li"
    ensures var b2 := AddListPiece(run, AddListPiece(run, b, pieces, i), pieces, i + 1);
      && b2 == Builder(AppendAt(b.root, b.cursor, Item(run, pieces[i])), b.cursor, b.depth)
      && Valid(b2) && ActiveTag(b2) == ActiveTag(b)
  {
    var c := b.cursor;
    var k := |At(b.root, c).children|;
    FieldOpensItem(run, b, pieces, i);
    assert (c + [k])[..|c|] == c;
    AppendKeepsPaths(b.root, c, Item(run, pieces[i]), c);
  }

  /** The last field, possibly followed by a final newline, leaves one item appended. */
  lemma LastField(run: AttributeRun, b: Builder, pieces: seq<string>, i: nat)
    requires Valid(b) && ChecklistReadable(run) && i < |pieces| <= i + 2
    requires pieces[i] != "\n" && ActiveTag(b) != "li"
    requires i + 1 < |pieces| ==> pieces[i + 1] == "\n"
    ensures AddListPieces(run, b, pieces, i).root == AppendAt(b.root, b.cursor, Item(run, pieces[i]))
    ensures AddListPieces(run, b, pieces, i).root == AppendAllAt(b.root, b.cursor, Items(run, pieces[i..]))
  {
    ItemsFromLastField(run, pieces, i);
    AppendAllOne(b.root, b.cursor, Item(run, pieces[i]));
    var b1 := AddListPiece(run, b, pieces, i);
    FieldOpensItem(run, b, pieces, i);
    assert AddListPieces(run, b, pieces, i) == AddListPieces(run, b1, pieces, i + 1);
    if i + 1 < |pieces| {
      assert AddListPiece(run, b1, pieces, i + 1) == b1;
      assert AddListPieces(run, b1, pieces, i + 1) == AddListPieces(run, b1, pieces, i + 2);
    }
  }

  /** One step of `Items`: the first piece contributes an item unless it is a newline. */
  lemma ItemsStep(run: AttributeRun, pieces: seq<string>, i: nat)
    requires ChecklistReadable(run) && i < |pieces|
    ensures Items(run, pieces[i..]) == (if pieces[i] == "\n" then [] else [Item(run, pieces[i])]) + Items(run, pieces[i + 1..])
  {
    assert pieces[i..][1..] == pieces[i + 1..];
  }

  /** From a field followed by a newline and more, the items are that field's item followed by the rest. */
  lemma ItemsFromField(run: AttributeRun, pieces: seq<string>, i: nat)
    requires ChecklistReadable(run) && i + 2 < |pieces| && pieces[i] != "\n" && pieces[i + 1] == "\n"
    ensures Items(run, pieces[i..]) == [Item(run, pieces[i])] + Items(run, pieces[i + 2..])
  {
    ItemsStep(run, pieces, i);
    ItemsStep(run, pieces, i + 1);
    assert Items(run, pieces[i + 1..]) == Items(run, pieces[i + 2..]);
  }

  /** The last field, with or without a final newline, gives exactly one item. */
  lemma ItemsFromLastField(run: AttributeRun, pieces: seq<string>, i: nat)
    requires ChecklistReadable(run) && i < |pieces| <= i + 2 && pieces[i] != "\n"
    requires i + 1 < |pieces| ==> pieces[i + 1] == "\n"
    ensures Items(run, pieces[i..]) == [Item(run, pieces[i])]
  {
    ItemsStep(run, pieces, i);
    if i + 1 < |pieces| {
      ItemsStep(run, pieces, i + 1);
      assert pieces[i + 2..] == [];
      assert Items(run, pieces[i + 1..]) == [];
    } else {
      assert pieces[i + 1..] == [];
    }
  }

  /** Processing alternating pieces from an even position at a container appends one item per field there. */
  lemma {:induction false} ListPiecesAppendItems(run: AttributeRun, b: Builder, pieces: seq<string>, i: nat)
    requires Valid(b) && ChecklistReadable(run) && i <= |pieces| && i % 2 == 0
    requires ListPieces(pieces) && ActiveTag(b) != "li"
    ensures AddListPieces(run, b, pieces, i).root == AppendAllAt(b.root, b.cursor, Items(run, pieces[i..]))
    decreases |pieces| - i
  {
    if i == |pieces| {
      assert pieces[i..] == [];
      return;
    }
    assert pieces[i] != "\n";
    assert i + 1 < |pieces| ==> (i + 1) % 2 == 1 && pieces[i + 1] == "\n";
    if i + 2 < |pieces| {
      var b2 := AddListPiece(run, AddListPiece(run, b, pieces, i), pieces, i + 1);
      FieldThenNewline(run, b, pieces, i);
      ListPiecesAppendItems(run, b2, pieces, i + 2);
      var b1 := AddListPiece(run, b, pieces, i);
      var item := Item(run, pieces[i]);
      assert AddListPieces(run, b, pieces, i) == AddListPieces(run, b1, pieces, i + 1);
      assert AddListPieces(run, b1, pieces, i + 1) == AddListPieces(run, b2, pieces, i + 2);
      ItemsFromField(run, pieces, i);
      AppendAllOne(b.root, b.cursor, item);
      AppendAllConcat(b.root, b.cursor, [item], Items(run, pieces[i + 2..]));
    } else {
      LastField(run, b, pieces, i);
    }
  }

  /**
    List text at an `ol` or `ul`: every field of the text's newline split,
    empty fields included, becomes one `li` appended to the container in
    order, carrying the checkbox class and the field's rendered text.
  */
  lemma AddListTextAppendsItems(run: AttributeRun, b: Builder, text: string)
    requires Valid(b) && ChecklistReadable(run) && ActiveTag(b) != "li"
    ensures AddListText(run, b, text).root == AppendAllAt(b.root, b.cursor, Items(run, RubySplit(text, {'\n'})))
  {
    var ps := RubySplit(text, {'\n'});
    forall j | 0 <= j < |ps|
      ensures ps[j] == "\n" <==> j % 2 == 1
    {
      assert ps[j] == "\n" <==> IsSeparator(ps[j], {'\n'});
    }
    ListPiecesAppendItems(run, b, ps, 0);
    assert ps[0..] == ps;
  }

  /** The text leaves of children joined are the text of the node sequence. */
  lemma {:induction false} LeavesOfText(cs: seq<Node>, parent: Node)
    requires forall i :: 0 <= i < |cs| ==> cs[i] < parent
    ensures Concat(LeavesOf(cs, parent)) == TextOf(cs)
    decreases |cs|
  {
    if |cs| > 0 {
      LeavesOfText(cs[1..], parent);
      ConcatAppend(Leaves(cs[0]), LeavesOf(cs[1..], parent));
    }
  }

  /** The text of one item is its field minus the line breaks. */
  lemma ItemText(run: AttributeRun, field: string)
    requires ChecklistReadable(run)
    ensures TextOf([Item(run, field)]) == KeptText("li", field)
  {
    var item := Item(run, field);
    LeavesOfText(item.children, item);
    AddHtmlTextKeepsText(run, "li", field);
    assert [item][1..] == [];
  }

  lemma {:induction false} ItemsText(run: AttributeRun, pieces: seq<string>)
    requires ChecklistReadable(run)
    ensures TextOf(Items(run, pieces)) == KeptText("li", Concat(pieces))
    decreases |pieces|
  {
    if |pieces| > 0 {
      ItemsText(run, pieces[1..]);
      var first := if pieces[0] == "\n" then [] else [Item(run, pieces[0])];
      TextOfAppend(first, Items(run, pieces[1..]));
      KeptTextAppend("li", pieces[0], Concat(pieces[1..]));
      if pieces[0] == "\n" {
        assert KeptText("li", "\n") == "";
      } else {
        ItemText(run, pieces[0]);
      }
    }
  }

  /**
    The text the list items hold is the run's text minus every newline and
    line separator: nothing else is lost, duplicated or reordered.
  */
  lemma ListTextKeepsText(run: AttributeRun, text: string)
    requires ChecklistReadable(run)
    ensures TextOf(Items(run, RubySplit(text, {'\n'}))) == KeptText("li", text)
  {
    ItemsText(run, RubySplit(text, {'\n'}));
  }

  // ---------------------------------------------------------------- generate_html

  /** The cursor state after the block and list-container phases, before any text goes in. */
  function PlaceCursor(run: AttributeRun, prev: Option<PreviousRun>, root: Node): (b: Builder)
    requires root.Element? && Readable(run, prev)
    requires Relocation(run, prev) != Stay ==> LastElementChild(root).Some? || OpensBlock(run, prev)
    ensures Valid(b) && Extends(root, b.root)
  {
    var b0 := Builder(root, [], 0);
    var b1 := OpenBlock(run, prev, b0);
    assert OpensBlock(run, prev) ==> b1.root.children == root.children + [At(b1.root, b1.cursor)];
    match ListTag(run)
    case None => b1
    case Some(container) =>
      var b2 := b1.(cursor := Relocate(run, prev, b1));
      var start := ContainerStart(b2);
      var b3 := OpenLevels(b2, start, IndentOf(run), container);
      ExtendsTransitive(root, b1.root, b3.root);
      b3
  }

  /**
    `generate_html`: renders the run's text into `root` and reports whether
    the run left its item open. The tree only grows.
  */
  function GenerateHtml(run: AttributeRun, prev: Option<PreviousRun>, text: string, root: Node): (r: Rendered)
    requires root.Element? && Readable(run, prev)
    requires Relocation(run, prev) != Stay ==> LastElementChild(root).Some? || OpensBlock(run, prev)
    ensures r.tagIsOpen <==> !EndsWithNewline(text)
    ensures Extends(root, r.root)
  {
    var tagIsOpen := !EndsWithNewline(text);
    var b := PlaceCursor(run, prev, root);
    var done := if IsListNode(ActiveTag(b)) then AddListText(run, b, text) else AddHtmlText(run, b, text);
    ExtendsTransitive(root, b.root, done.root);
    Rendered(done.root, tagIsOpen)
  }

  // ---------------------------------------------------------------- consequences

  /** An unstyled run of plain text adds exactly one wrapped text subtree to the root. */
  lemma PlainRunAppendsOneSubtree(run: AttributeRun, prev: Option<PreviousRun>, text: string, root: Node)
    requires root.Element? && !IsListNode(root.tag)
    requires run.paragraphStyle.None?
    requires text != "" && SeparatorFree(text, LINE_BREAKS)
    ensures GenerateHtml(run, prev, text, root).root == AppendAt(root, [], Wrap(InlineElements(run, root.tag), Text(text)))
  {
    UnstyledRunRendersText(run, prev, text, root);
    OneSegmentAppendsOneSubtree(run, Builder(root, [], 0), text);
  }

  /** An unstyled run renders its text, split at line breaks, at the root. */
  lemma UnstyledRunRendersText(run: AttributeRun, prev: Option<PreviousRun>, text: string, root: Node)
    requires root.Element? && !IsListNode(root.tag)
    requires run.paragraphStyle.None?
    ensures GenerateHtml(run, prev, text, root).root == AddHtmlText(run, Builder(root, [], 0), text).root
  {
    UnstyledRunStaysAtRoot(run, prev, root);
  }

  lemma OneSegmentAppendsOneSubtree(run: AttributeRun, b: Builder, text: string)
    requires Valid(b) && text != "" && SeparatorFree(text, LINE_BREAKS)
    ensures AddHtmlText(run, b, text).root == AppendAt(b.root, b.cursor, Wrap(InlineElements(run, ActiveTag(b)), Text(text)))
  {
    AppendAllOne(b.root, b.cursor, Wrap(InlineElements(run, ActiveTag(b)), Text(text)));
    SplitSeparatorFree(text, LINE_BREAKS);
    AddHtmlTextAppends(run, b, text);
    assert text != [LINE_SEPARATOR] && text != "\n" by {
      assert text[0] !in LINE_BREAKS;
    }
    assert SegmentsNodes(run, ActiveTag(b), [text]) == SegmentNodes(run, ActiveTag(b), text) + SegmentsNodes(run, ActiveTag(b), []);
  }

  /** An unstyled run opens nothing and leaves the cursor on the root. */
  lemma UnstyledRunStaysAtRoot(run: AttributeRun, prev: Option<PreviousRun>, root: Node)
    requires root.Element? && run.paragraphStyle.None?
    ensures PlaceCursor(run, prev, root) == Builder(root, [], 0)
  {
    var b := Builder(root, [], 0);
    assert !HasStyleType(run) && IndentOf(run) == 0 && !IsAnyList(run);
    assert ListTag(run).None?;
    assert OpenBlock(run, prev, b) == b;
  }

  /** An unstyled run with no text leaves the root as it was. */
  lemma EmptyPlainRunAddsNothing(run: AttributeRun, prev: Option<PreviousRun>, root: Node)
    requires root.Element? && run.paragraphStyle.None?
    ensures GenerateHtml(run, prev, "", root).root == root
  {
    var b := Builder(root, [], 0);
    UnstyledRunStaysAtRoot(run, prev, root);
    assert RubySplit("", {'\n'}) == [];
    assert RubySplit("", LINE_BREAKS) == [];
  }

  /** The builder a list run has after relocation, before any level is opened. */
  function Relocated(run: AttributeRun, prev: Option<PreviousRun>, root: Node): (b: Builder)
    requires root.Element? && Readable(run, prev) && !OpensBlock(run, prev)
    requires Relocation(run, prev) != Stay ==> LastElementChild(root).Some?
    ensures Valid(b) && b.root == root
  {
    var b0 := Builder(root, [], 0);
    b0.(cursor := Relocate(run, prev, b0))
  }

  /**
    A list run that opens no heading appends at most one chain of containers,
    at the relocated cursor, for the levels from `ContainerStart` to its
    indent, and leaves the cursor on the innermost, empty container.
  */
  lemma ListRunAppendsChain(run: AttributeRun, prev: Option<PreviousRun>, root: Node)
    requires root.Element? && Readable(run, prev) && !OpensBlock(run, prev) && ListTag(run).Some?
    requires Relocation(run, prev) != Stay ==> LastElementChild(root).Some?
    ensures var b := Relocated(run, prev, root);
      var start := ContainerStart(b);
      var container := ListTag(run).value;
      var r := PlaceCursor(run, prev, root);
      && (start > IndentOf(run) ==> r == b)
      && (start <= IndentOf(run) ==>
            && r.root == AppendAt(root, b.cursor, Chain(start, IndentOf(run), container))
            && At(r.root, r.cursor) == Element(container.name, container.attrs, Some(IndentOf(run)), []))
  {
    var b := Relocated(run, prev, root);
    var start := ContainerStart(b);
    var n := IndentOf(run);
    var container := ListTag(run).value;
    assert PlaceCursor(run, prev, root) == OpenLevels(b, start, n, container);
    if start <= n {
      OpenLevelsAppendsChain(b, start, n, container);
      var p := b.cursor;
      var k := |At(root, p).children|;
      var c := Chain(start, n, container);
      var root1 := AppendAt(root, p, c);
      assert At(root1, p).children[k] == c;
      PathConcat(root1, p, [k]);
      ChainInnermost(start, n, container);
      PathConcat(root1, p + [k], Zeros(2 * (n - start)));
    }
  }

  /**
    The first run of a note that is a list opens every level from 0 to its
    indent, one container per level marked with that level, and the text
    then goes into list items.
  */
  lemma FirstListRunOpensEveryLevel(run: AttributeRun, root: Node)
    requires root.Element? && root.marker.None? && IsAnyList(run) && ChecklistReadable(run) && IndentOf(run) >= 0
    ensures var r := PlaceCursor(run, None, root);
      var container := ListTag(run).value;
      && r.root == AppendAt(root, [], Chain(0, IndentOf(run), container))
      && SpineMarkers(Chain(0, IndentOf(run), container)) == seq(IndentOf(run) + 1, i => Some(i))
      && ActiveTag(r) == container.name && IsListNode(ActiveTag(r))
  {
    var b := Relocated(run, None, root);
    assert b.cursor == [];
    MarkersAlongEnds(root, []);
    assert ContainerStart(b) == 0;
    ListRunAppendsChain(run, None, root);
    ChainMarkers(0, IndentOf(run), ListTag(run).value);
  }

  /**
    Whenever the cursor ends on an `ol` or `ul`, the run's text goes in as
    list items: one `li` per field of its newline split, appended to that
    container in order.
  */
  lemma ListTextGoesInAsItems(run: AttributeRun, prev: Option<PreviousRun>, text: string, root: Node)
    requires root.Element? && Readable(run, prev)
    requires Relocation(run, prev) != Stay ==> LastElementChild(root).Some? || OpensBlock(run, prev)
    requires var tag := ActiveTag(PlaceCursor(run, prev, root)); IsListNode(tag) && tag != "li"
    ensures var b := PlaceCursor(run, prev, root);
      GenerateHtml(run, prev, text, root).root == AppendAllAt(b.root, b.cursor, Items(run, RubySplit(text, {'\n'})))
  {
    AddListTextAppendsItems(run, PlaceCursor(run, prev, root), text);
  }

  /**
    A run that finds the container marked with its indent reuses it: no new
    container is opened and the cursor rests on that container.
  */
  lemma MarkedContainerIsReused(run: AttributeRun, prev: PreviousRun, root: Node)
    requires root.Element? && Readable(run, Some(prev)) && !OpensBlock(run, Some(prev))
    requires Relocation(run, Some(prev)) == ToMarkedContainer && LastElementChild(root).Some?
    requires MarkedLookup(root.children[LastElementChild(root).value], IndentOf(run)).Some?
    ensures PlaceCursor(run, Some(prev), root).root == root
    ensures MarkedAt(root, PlaceCursor(run, Some(prev), root).cursor, IndentOf(run))
  {
    var b := Relocated(run, Some(prev), root);
    RelocatedToMarked(run, prev, root);
    NearestMarkerOfMarked(root, b.cursor);
    assert ContainerStart(b) == IndentOf(run) + 1;
    ListRunAppendsChain(run, Some(prev), root);
  }

  lemma RelocatedToMarked(run: AttributeRun, prev: PreviousRun, root: Node)
    requires root.Element? && Readable(run, Some(prev)) && !OpensBlock(run, Some(prev))
    requires Relocation(run, Some(prev)) == ToMarkedContainer && LastElementChild(root).Some?
    requires MarkedLookup(root.children[LastElementChild(root).value], IndentOf(run)).Some?
    ensures MarkedAt(root, Relocated(run, Some(prev), root).cursor, IndentOf(run))
  {
    var p := Relocated(run, Some(prev), root).cursor;
    var k := LastElementChild(root).value;
    MarkedLookupIsFirst(root.children[k], IndentOf(run));
    assert p != [];
    assert [k] + p[1..] == p;
    PathConcat(root, [k], p[1..]);
  }
}
