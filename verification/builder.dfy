/**
  The renderer's mutable state, as a value: the tree being built, the active
  node (a path into it) and the count of tags opened with depth tracking.
  `open_html_tag` and `close_html_tag` are the two moves of the cursor.
*/
module Builder {
  import opened Options
  import opened Html

  /**
    A tag to open: its name, its attributes in insertion order and the
    indent marker it carries, if any.
  */
  datatype Tag = Tag(name: string, attrs: seq<Attr>, marker: Option<int>)

  /** The empty element opening `t` adds. */
  function Empty(t: Tag): (e: Node)
    ensures e.Element? && e.children == []
  {
    Element(t.name, t.attrs, t.marker, [])
  }

  datatype Builder = Builder(root: Node, cursor: Path, depth: int)

  predicate Valid(b: Builder) {
    ValidPath(b.root, b.cursor)
  }

  /** The name of the active node (`@active_html_node.node_name`). */
  function ActiveTag(b: Builder): (r: string)
    requires Valid(b)
  {
    At(b.root, b.cursor).tag
  }

  /** `b` ends in a state that only added to the tree of `a`. */
  predicate Grows(a: Builder, b: Builder) {
    Valid(b) && Extends(a.root, b.root)
  }

  /**
    `open_html_tag`: adds an empty element as the last child of the active
    node, makes it active and counts it.
  */
  function OpenTag(b: Builder, t: Tag): (r: Builder)
    requires Valid(b)
    ensures Grows(b, r)
    ensures r.depth == b.depth + 1
    ensures |r.cursor| == |b.cursor| + 1 && r.cursor[..|b.cursor|] == b.cursor
    ensures At(r.root, r.cursor) == Empty(t)
    ensures r.root == AppendAt(b.root, b.cursor, Empty(t))
    ensures r.cursor == b.cursor + [|At(b.root, b.cursor).children|]
  {
    var e := Empty(t);
    var k := |At(b.root, b.cursor).children|;
    var root := AppendAt(b.root, b.cursor, e);
    ChildPath(root, b.cursor, k);
    AppendExtends(b.root, b.cursor, e);
    assert (b.cursor + [k])[..|b.cursor|] == b.cursor;
    Builder(root, b.cursor + [k], b.depth + 1)
  }

  /**
    `close_html_tag`: the parent becomes active and the count drops by one;
    at the root nothing happens.
  */
  function CloseTag(b: Builder): (r: Builder)
    requires Valid(b)
    ensures Valid(r) && r.root == b.root
    ensures |b.cursor| == 0 ==> r == b
    ensures |b.cursor| > 0 ==> r.cursor == b.cursor[..|b.cursor| - 1] && r.depth == b.depth - 1
  {
    if |b.cursor| == 0 then b
    else
      PathPrefix(b.root, b.cursor, |b.cursor| - 1);
      Builder(b.root, b.cursor[..|b.cursor| - 1], b.depth - 1)
  }

  /** `close_html_tag` repeated `k` times. */
  function CloseN(b: Builder, k: nat): (r: Builder)
    requires Valid(b)
    ensures Valid(r) && r.root == b.root
    ensures k <= |b.cursor| ==> r.cursor == b.cursor[..|b.cursor| - k] && r.depth == b.depth - k
    decreases k
  {
    if k == 0 then b else CloseTag(CloseN(b, k - 1))
  }

  /** `@active_html_node.add_child(x)` without moving the cursor. */
  function AddChild(b: Builder, x: Node): (r: Builder)
    requires Valid(b)
    ensures Grows(b, r) && r.cursor == b.cursor && r.depth == b.depth
    ensures ActiveTag(r) == ActiveTag(b)
    ensures At(r.root, r.cursor) == Grown(At(b.root, b.cursor), [x])
  {
    AppendExtends(b.root, b.cursor, x);
    Builder(AppendAt(b.root, b.cursor, x), b.cursor, b.depth)
  }

  /** Opens each tag in turn, each inside the previous one. */
  function OpenAll(b: Builder, ts: seq<Tag>): (r: Builder)
    requires Valid(b)
    ensures Grows(b, r)
    ensures r.depth == b.depth + |ts|
    ensures |r.cursor| == |b.cursor| + |ts| && r.cursor[..|b.cursor|] == b.cursor
    decreases |ts|
  {
    if |ts| == 0 then ExtendsReflexive(b.root); b
    else
      var b1 := OpenTag(b, ts[0]);
      var r := OpenAll(b1, ts[1..]);
      ExtendsTransitive(b.root, b1.root, r.root);
      assert r.cursor[..|b.cursor|] == r.cursor[..|b1.cursor|][..|b.cursor|];
      r
  }

  /** The nest of elements `ts[0] > ts[1] > ... > inner` that opening `ts` and adding `inner` leaves behind. */
  function Wrap(ts: seq<Tag>, inner: Node): (r: Node)
    ensures |ts| > 0 ==> r.Element? && r.tag == ts[0].name && r.attrs == ts[0].attrs && r.marker == ts[0].marker
    decreases |ts|
  {
    if |ts| == 0 then inner else Element(ts[0].name, ts[0].attrs, ts[0].marker, [Wrap(ts[1..], inner)])
  }

  /** The nest `ts[0] > ts[1] > ... > ts[last]` of empty elements that opening `ts` leaves behind. */
  function Nest(ts: seq<Tag>): (r: Node)
    requires |ts| > 0
    ensures r.Element? && r.tag == ts[0].name && r.attrs == ts[0].attrs && r.marker == ts[0].marker
    decreases |ts|
  {
    if |ts| == 1 then Empty(ts[0]) else Element(ts[0].name, ts[0].attrs, ts[0].marker, [Nest(ts[1..])])
  }

  /** `n` zeros: the path from the top of a nest to its innermost element. */
  function Zeros(n: nat): (p: Path)
    ensures |p| == n && forall i :: 0 <= i < n ==> p[i] == 0
  {
    seq(n, i => 0)
  }

  /** The text leaves of a subtree, in document order. */
  function Leaves(n: Node): (r: seq<string>)
    decreases n
  {
    match n
    case Text(s) => [s]
    case Element(_, _, _, cs) => LeavesOf(cs, n)
  }

  function LeavesOf(cs: seq<Node>, ghost parent: Node): (r: seq<string>)
    requires forall i :: 0 <= i < |cs| ==> cs[i] < parent
    decreases parent, |cs|
  {
    if |cs| == 0 then [] else Leaves(cs[0]) + LeavesOf(cs[1..], parent)
  }

  /** A wrapped text node is the only leaf of its wrapper. */
  lemma {:induction false} WrapHasOneLeaf(ts: seq<Tag>, s: string)
    ensures Leaves(Wrap(ts, Text(s))) == [s]
    decreases |ts|
  {
    if |ts| > 0 {
      var w := Wrap(ts, Text(s));
      WrapHasOneLeaf(ts[1..], s);
      assert LeavesOf(w.children[1..], w) == [];
    }
  }

  /**
    Opening `ts`, adding `x` and closing as many tags as were opened appends
    exactly one subtree, `Wrap(ts, x)`, at the starting node, and leaves the
    cursor and the depth count where they were.
  */
  lemma {:induction false} OpenAddClose(b: Builder, ts: seq<Tag>, x: Node)
    requires Valid(b)
    ensures CloseN(AddChild(OpenAll(b, ts), x), |ts|) == Builder(AppendAt(b.root, b.cursor, Wrap(ts, x)), b.cursor, b.depth)
    decreases |ts|
  {
    if |ts| > 0 {
      var e := Empty(ts[0]);
      var k := |At(b.root, b.cursor).children|;
      var b1 := OpenTag(b, ts[0]);
      assert b1.cursor == b.cursor + [k];
      OpenAddClose(b1, ts[1..], x);
      var w := Wrap(ts[1..], x);
      AppendInside(b.root, b.cursor, e, [], w);
      assert b.cursor + [k] + [] == b1.cursor;
      assert AppendAt(e, [], w) == Wrap(ts, x);
      assert b1.cursor[..|b1.cursor| - 1] == b.cursor;
    }
  }

  /**
    Opening a non-empty sequence of tags appends one nest of empty elements
    at the active node, and leaves its innermost element active.
  */
  lemma {:induction false} OpenAllAppendsNest(b: Builder, ts: seq<Tag>)
    requires Valid(b) && |ts| > 0
    ensures var k := |At(b.root, b.cursor).children|;
      OpenAll(b, ts) == Builder(AppendAt(b.root, b.cursor, Nest(ts)), b.cursor + [k] + Zeros(|ts| - 1), b.depth + |ts|)
    decreases |ts|
  {
    var k := |At(b.root, b.cursor).children|;
    var b1 := OpenTag(b, ts[0]);
    if |ts| == 1 {
      assert OpenAll(b1, ts[1..]) == b1;
      assert b.cursor + [k] + Zeros(0) == b1.cursor;
    } else {
      var inner := Nest(ts[1..]);
      assert OpenAll(b1, ts[1..]) == Builder(AppendAt(b1.root, b1.cursor, inner), b1.cursor + [0] + Zeros(|ts| - 2), b1.depth + |ts| - 1) by {
        OpenAllAppendsNest(b1, ts[1..]);
      }
      NestInside(b.root, b.cursor, ts);
      assert b1.cursor + [0] + Zeros(|ts| - 2) == b.cursor + [k] + Zeros(|ts| - 1);
    }
  }

  /** Appending the rest of a nest inside its freshly appended top gives the whole nest. */
  lemma NestInside(n: Node, p: Path, ts: seq<Tag>)
    requires ValidPath(n, p) && |ts| > 1
    ensures var k := |At(n, p).children|;
      && ValidPath(AppendAt(n, p, Empty(ts[0])), p + [k])
      && AppendAt(AppendAt(n, p, Empty(ts[0])), p + [k], Nest(ts[1..])) == AppendAt(n, p, Nest(ts))
  {
    var k := |At(n, p).children|;
    AppendInside(n, p, Empty(ts[0]), [], Nest(ts[1..]));
    assert p + [k] + [] == p + [k];
    assert AppendAt(Empty(ts[0]), [], Nest(ts[1..])) == Nest(ts);
  }
}
