/**
  The output tree that replaces the Nokogiri document: elements with a tag,
  ordered attributes, an optional indent marker (the
  `data-apple-notes-indent-amount` attribute, kept as a number because it is
  only ever written from and compared with integers) and ordered children;
  text nodes carry a string. A node inside the tree is addressed by the path
  of child indices leading to it from the root.
*/
module Html {
  import opened Options

  datatype Attr = Attr(key: string, value: string)

  datatype Node =
    | Element(tag: string, attrs: seq<Attr>, marker: Option<int>, children: seq<Node>)
    | Text(content: string)

  type Path = seq<nat>

  /** `p` leads from `n` through element children to an element. */
  predicate ValidPath(n: Node, p: Path)
    decreases |p|
  {
    n.Element? && (|p| > 0 ==> p[0] < |n.children| && ValidPath(n.children[p[0]], p[1..]))
  }

  function At(n: Node, p: Path): (r: Node)
    requires ValidPath(n, p)
    ensures r.Element?
    decreases |p|
  {
    if |p| == 0 then n else At(n.children[p[0]], p[1..])
  }

  /** The element `e` with `xs` added after its children. */
  function Grown(e: Node, xs: seq<Node>): (r: Node)
    requires e.Element?
    ensures r.Element? && r.tag == e.tag && r.attrs == e.attrs && r.marker == e.marker
    ensures r.children == e.children + xs
  {
    e.(children := e.children + xs)
  }

  /** `add_child`: appends `x` as the last child of the element at `p`. */
  function AppendAt(n: Node, p: Path, x: Node): (r: Node)
    requires ValidPath(n, p)
    ensures ValidPath(r, p)
    ensures At(r, p) == Grown(At(n, p), [x])
    decreases |p|
  {
    if |p| == 0 then n.(children := n.children + [x])
    else n.(children := n.children[p[0] := AppendAt(n.children[p[0]], p[1..], x)])
  }

  /** Appends several children in order at the same element. */
  function AppendAllAt(n: Node, p: Path, xs: seq<Node>): (r: Node)
    requires ValidPath(n, p)
    ensures ValidPath(r, p)
    ensures At(r, p) == Grown(At(n, p), xs)
    decreases |xs|
  {
    if |xs| == 0 then
      assert At(n, p).children + xs == At(n, p).children;
      n
    else
      var r := AppendAllAt(AppendAt(n, p, xs[0]), p, xs[1..]);
      assert At(n, p).children + [xs[0]] + xs[1..] == At(n, p).children + xs;
      r
  }

  lemma {:induction false} AppendAllConcat(n: Node, p: Path, xs: seq<Node>, ys: seq<Node>)
    requires ValidPath(n, p)
    ensures AppendAllAt(AppendAllAt(n, p, xs), p, ys) == AppendAllAt(n, p, xs + ys)
    decreases |xs|
  {
    if |xs| == 0 {
      assert xs + ys == ys;
    } else {
      assert (xs + ys)[0] == xs[0];
      assert (xs + ys)[1..] == xs[1..] + ys;
      AppendAllConcat(AppendAt(n, p, xs[0]), p, xs[1..], ys);
    }
  }

  lemma AppendAllOne(n: Node, p: Path, x: Node)
    requires ValidPath(n, p)
    ensures AppendAllAt(n, p, [x]) == AppendAt(n, p, x)
  {
    assert [x][1..] == [];
  }

  // ---------------------------------------------------------------- paths

  lemma {:induction false} PathConcat(n: Node, p: Path, q: Path)
    requires ValidPath(n, p) && ValidPath(At(n, p), q)
    ensures ValidPath(n, p + q) && At(n, p + q) == At(At(n, p), q)
    decreases |p|
  {
    if |p| > 0 {
      assert (p + q)[0] == p[0];
      assert (p + q)[1..] == p[1..] + q;
      PathConcat(n.children[p[0]], p[1..], q);
    } else {
      assert p + q == q;
    }
  }

  lemma {:induction false} PathPrefix(n: Node, p: Path, i: nat)
    requires ValidPath(n, p) && i <= |p|
    ensures ValidPath(n, p[..i])
    decreases |p|
  {
    if i > 0 {
      assert p[..i][0] == p[0];
      assert p[..i][1..] == p[1..][..i - 1];
      PathPrefix(n.children[p[0]], p[1..], i - 1);
    }
  }

  /** A child of the node at `p` that is an element extends the path by one step. */
  lemma ChildPath(n: Node, p: Path, k: nat)
    requires ValidPath(n, p) && k < |At(n, p).children| && At(n, p).children[k].Element?
    ensures ValidPath(n, p + [k]) && At(n, p + [k]) == At(n, p).children[k]
  {
    PathConcat(n, p, [k]);
  }

  /** Appending anywhere keeps every previously valid path valid. */
  lemma {:induction false} AppendKeepsPaths(n: Node, p: Path, x: Node, q: Path)
    requires ValidPath(n, p) && ValidPath(n, q)
    ensures ValidPath(AppendAt(n, p, x), q)
    ensures At(AppendAt(n, p, x), q).tag == At(n, q).tag
    decreases |p|
  {
    if |q| > 0 && |p| > 0 && p[0] == q[0] {
      AppendKeepsPaths(n.children[p[0]], p[1..], x, q[1..]);
    }
  }

  /**
    Working inside a child that was just appended at `p` is the same as
    appending that child already modified: the key step for showing that a
    sequence of "open a tag, fill it" operations builds one nested subtree.
  */
  lemma {:induction false} AppendInside(n: Node, p: Path, e: Node, q: Path, x: Node)
    requires ValidPath(n, p) && ValidPath(e, q)
    ensures ValidPath(AppendAt(n, p, e), p + [|At(n, p).children|] + q)
    ensures AppendAt(AppendAt(n, p, e), p + [|At(n, p).children|] + q, x) == AppendAt(n, p, AppendAt(e, q, x))
    decreases |p|
  {
    var k := |At(n, p).children|;
    if |p| == 0 {
      assert p + [k] + q == [k] + q;
      assert ([k] + q)[0] == k && ([k] + q)[1..] == q;
      var n1 := AppendAt(n, p, e);
      assert n1.children[k] == e;
    } else {
      var c := n.children[p[0]];
      assert (p + [k] + q)[0] == p[0];
      assert (p + [k] + q)[1..] == p[1..] + [k] + q;
      AppendInside(c, p[1..], e, q, x);
    }
  }

  // ---------------------------------------------------------------- growth

  /**
    `b` is `a` with children appended somewhere: same labels everywhere, and
    every child list of `a` is a prefix of the matching one in `b`. Nothing is
    removed or reordered.
  */
  predicate Extends(a: Node, b: Node)
    decreases a
  {
    match a
    case Text(_) => b == a
    case Element(t, at, m, cs) =>
      && b.Element? && b.tag == t && b.attrs == at && b.marker == m
      && |cs| <= |b.children|
      && forall i :: 0 <= i < |cs| ==> Extends(cs[i], b.children[i])
  }

  lemma {:induction false} ExtendsReflexive(a: Node)
    ensures Extends(a, a)
    decreases a
  {
    if a.Element? {
      forall i | 0 <= i < |a.children|
        ensures Extends(a.children[i], a.children[i])
      {
        ExtendsReflexive(a.children[i]);
      }
    }
  }

  lemma {:induction false} ExtendsTransitive(a: Node, b: Node, c: Node)
    requires Extends(a, b) && Extends(b, c)
    ensures Extends(a, c)
    decreases a
  {
    if a.Element? {
      forall i | 0 <= i < |a.children|
        ensures Extends(a.children[i], c.children[i])
      {
        ExtendsTransitive(a.children[i], b.children[i], c.children[i]);
      }
    }
  }

  lemma {:induction false} AppendExtends(n: Node, p: Path, x: Node)
    requires ValidPath(n, p)
    ensures Extends(n, AppendAt(n, p, x))
    decreases |p|
  {
    var r := AppendAt(n, p, x);
    forall i | 0 <= i < |n.children|
      ensures Extends(n.children[i], r.children[i])
    {
      if |p| > 0 && i == p[0] {
        AppendExtends(n.children[i], p[1..], x);
      } else {
        ExtendsReflexive(n.children[i]);
      }
    }
  }

  lemma {:induction false} AppendAllExtends(n: Node, p: Path, xs: seq<Node>)
    requires ValidPath(n, p)
    ensures Extends(n, AppendAllAt(n, p, xs))
    decreases |xs|
  {
    if |xs| == 0 {
      ExtendsReflexive(n);
    } else {
      AppendExtends(n, p, xs[0]);
      AppendAllExtends(AppendAt(n, p, xs[0]), p, xs[1..]);
      ExtendsTransitive(n, AppendAt(n, p, xs[0]), AppendAllAt(n, p, xs));
    }
  }

  // ---------------------------------------------------------------- document order

  /** `a` comes no later than `b` in document (preorder) order: an ancestor precedes its descendants. */
  predicate PreorderLe(a: Path, b: Path)
    decreases |a|
  {
    if |a| == 0 then true
    else if |b| == 0 then false
    else if a[0] != b[0] then a[0] < b[0]
    else PreorderLe(a[1..], b[1..])
  }

  lemma {:induction false} PreorderLeReflexive(a: Path)
    ensures PreorderLe(a, a)
    decreases |a|
  {
    if |a| > 0 {
      PreorderLeReflexive(a[1..]);
    }
  }

  // ---------------------------------------------------------------- last element child

  /** `last_element_child`: index of the last child that is an element. */
  function LastElementChild(n: Node): (r: Option<nat>)
    requires n.Element?
    ensures r.Some? ==> r.value < |n.children| && n.children[r.value].Element?
    ensures r.Some? ==> forall j :: r.value < j < |n.children| ==> n.children[j].Text?
    ensures r.None? ==> forall j :: 0 <= j < |n.children| ==> n.children[j].Text?
  {
    LastElementBefore(n.children, |n.children|)
  }

  function LastElementBefore(cs: seq<Node>, k: nat): (r: Option<nat>)
    requires k <= |cs|
    ensures r.Some? ==> r.value < k && cs[r.value].Element?
    ensures r.Some? ==> forall j :: r.value < j < k ==> cs[j].Text?
    ensures r.None? ==> forall j :: 0 <= j < k ==> cs[j].Text?
    decreases k
  {
    if k == 0 then None
    else if cs[k - 1].Element? then Some(k - 1)
    else LastElementBefore(cs, k - 1)
  }

  // ---------------------------------------------------------------- last descendant li

  /** `q` is a proper descendant of `n` and an `li` element. */
  predicate IsLiBelow(n: Node, q: Path) {
    |q| > 0 && ValidPath(n, q) && At(n, q).tag == "li"
  }

  /**
    The item lookup of `generate_html`: the last `li` strictly below `n` in
    document order, searching the children with index below `k`.
  */
  function LastLiBefore(n: Node, k: nat): (r: Option<Path>)
    requires n.Element? && k <= |n.children|
    decreases n, k
  {
    if k == 0 then None
    else
      var c := n.children[k - 1];
      if c.Text? then LastLiBefore(n, k - 1)
      else match LastLiBefore(c, |c.children|)
        case Some(q) => Some([k - 1] + q)
        case None => if c.tag == "li" then Some([k - 1]) else LastLiBefore(n, k - 1)
  }

  function LastLi(n: Node): (r: Option<Path>)
    requires n.Element?
  {
    LastLiBefore(n, |n.children|)
  }

  lemma {:induction false} LastLiBeforeIsLast(n: Node, k: nat)
    requires n.Element? && k <= |n.children|
    ensures var r := LastLiBefore(n, k);
      && (r.Some? ==> IsLiBelow(n, r.value) && r.value[0] < k)
      && (r.Some? ==> forall q :: IsLiBelow(n, q) && q[0] < k ==> PreorderLe(q, r.value))
      && (r.None? ==> forall q :: IsLiBelow(n, q) ==> q[0] >= k)
    decreases n, k
  {
    if k > 0 {
      var c := n.children[k - 1];
      LastLiBeforeIsLast(n, k - 1);
      forall q | IsLiBelow(n, q) && q[0] == k - 1
        ensures c.Element? && (|q| == 1 ==> At(n, q) == c) && (|q| > 1 ==> IsLiBelow(c, q[1..]))
      {
        assert ValidPath(c, q[1..]);
        assert At(n, q) == At(c, q[1..]);
      }
      if c.Element? {
        LastLiBeforeIsLast(c, |c.children|);
        var inner := LastLiBefore(c, |c.children|);
        var r := LastLiBefore(n, k);
        if inner.Some? {
          var q' := inner.value;
          assert r == Some([k - 1] + q');
          assert ([k - 1] + q')[1..] == q';
          forall q | IsLiBelow(n, q) && q[0] < k
            ensures PreorderLe(q, r.value)
          {
            if q[0] == k - 1 {
              if |q| == 1 {
                assert PreorderLe(q[1..], q');
              } else {
                assert PreorderLe(q[1..], q');
              }
            }
          }
        } else if c.tag == "li" {
          forall q | IsLiBelow(n, q) && q[0] < k
            ensures PreorderLe(q, r.value)
          {
            if q[0] == k - 1 {
              assert q == [k - 1];
              PreorderLeReflexive(q);
            }
          }
        } else {
          assert forall q :: IsLiBelow(n, q) && q[0] == k - 1 ==> false;
        }
      }
    }
  }

  /** `last_li` names the last `li` below `n` in document order, or there is none. */
  lemma LastLiIsLast(n: Node)
    requires n.Element?
    ensures var r := LastLi(n);
      && (r.Some? ==> IsLiBelow(n, r.value))
      && (r.Some? ==> forall q :: IsLiBelow(n, q) ==> PreorderLe(q, r.value))
      && (r.None? ==> forall q :: !IsLiBelow(n, q))
  {
    LastLiBeforeIsLast(n, |n.children|);
  }

  // ---------------------------------------------------------------- first marked node

  /** The element at `q` (self included) carries indent marker `v`. */
  predicate MarkedAt(n: Node, q: Path, v: int) {
    ValidPath(n, q) && At(n, q).marker == Some(v)
  }

  /**
    The first node, in document order, among `n` and its descendants whose
    marker is `v`: within one subtree the root comes first.
  */
  function FirstMarked(n: Node, v: int): (r: Option<Path>)
    requires n.Element?
    decreases n, |n.children| + 1
  {
    if n.marker == Some(v) then Some([]) else FirstMarkedFrom(n, v, 0)
  }

  /** The first marked node inside the children of `n` with index `k` or more. */
  function FirstMarkedFrom(n: Node, v: int, k: nat): (r: Option<Path>)
    requires n.Element? && k <= |n.children|
    decreases n, |n.children| - k
  {
    if k == |n.children| then None
    else
      var c := n.children[k];
      var inner := if c.Element? then FirstMarked(c, v) else None;
      match inner
      case Some(q) => Some([k] + q)
      case None => FirstMarkedFrom(n, v, k + 1)
  }

  lemma {:induction false} FirstMarkedIsFirst(n: Node, v: int)
    requires n.Element?
    ensures var r := FirstMarked(n, v);
      && (r.Some? ==> MarkedAt(n, r.value, v))
      && (r.Some? ==> forall q :: MarkedAt(n, q, v) ==> PreorderLe(r.value, q))
      && (r.None? ==> forall q :: !MarkedAt(n, q, v))
    decreases n, |n.children| + 1
  {
    if n.marker != Some(v) {
      FirstMarkedFromIsFirst(n, v, 0);
      forall q | MarkedAt(n, q, v)
        ensures |q| > 0
      {
      }
    }
  }

  lemma {:induction false} FirstMarkedFromIsFirst(n: Node, v: int, k: nat)
    requires n.Element? && k <= |n.children|
    ensures var r := FirstMarkedFrom(n, v, k);
      && (r.Some? ==> MarkedAt(n, r.value, v) && |r.value| > 0 && r.value[0] >= k)
      && (r.Some? ==> forall q :: MarkedAt(n, q, v) && |q| > 0 && q[0] >= k ==> PreorderLe(r.value, q))
      && (r.None? ==> forall q :: MarkedAt(n, q, v) && |q| > 0 ==> q[0] < k)
    decreases n, |n.children| - k
  {
    if k < |n.children| {
      var c := n.children[k];
      FirstMarkedFromIsFirst(n, v, k + 1);
      var r := FirstMarkedFrom(n, v, k);
      forall q | MarkedAt(n, q, v) && |q| > 0 && q[0] == k
        ensures c.Element? && MarkedAt(c, q[1..], v)
      {
        assert ValidPath(c, q[1..]);
        assert At(n, q) == At(c, q[1..]);
      }
      if c.Element? {
        FirstMarkedIsFirst(c, v);
        var inner := FirstMarked(c, v);
        if inner.Some? {
          var q' := inner.value;
          assert ([k] + q')[0] == k && ([k] + q')[1..] == q';
          forall q | MarkedAt(n, q, v) && |q| > 0 && q[0] >= k
            ensures PreorderLe(r.value, q)
          {
            if q[0] == k {
              assert PreorderLe(q', q[1..]);
            }
          }
        }
      }
    }
  }

  /**
    The container lookup of `generate_html`: an XPath search with two
    expressions, descendants first and the node itself second, whose results
    are gathered expression by expression. The first match is the first
    marked descendant in document order, and `n` itself only when no
    descendant carries the marker.
  */
  function MarkedLookup(n: Node, v: int): (r: Option<Path>)
    requires n.Element?
  {
    match FirstMarkedFrom(n, v, 0)
    case Some(q) => Some(q)
    case None => if n.marker == Some(v) then Some([]) else None
  }

  lemma MarkedLookupIsFirst(n: Node, v: int)
    requires n.Element?
    ensures var r := MarkedLookup(n, v);
      && (r.None? <==> forall q :: !MarkedAt(n, q, v))
      && (r.Some? ==> MarkedAt(n, r.value, v))
      && (r == Some([]) ==> forall q :: MarkedAt(n, q, v) ==> q == [])
      && (r.Some? && r.value != [] ==> forall q :: MarkedAt(n, q, v) && q != [] ==> PreorderLe(r.value, q))
  {
    FirstMarkedFromIsFirst(n, v, 0);
    if n.marker == Some(v) {
      assert MarkedAt(n, [], v);
    }
    forall q | MarkedAt(n, q, v) && q != []
      ensures FirstMarkedFrom(n, v, 0).Some?
    {
      assert |q| > 0 && q[0] >= 0;
    }
  }

  // ---------------------------------------------------------------- nearest marker

  /** The markers met on the way from `n` down to the end of `p`, root first. */
  function MarkersAlong(n: Node, p: Path): (ms: seq<Option<int>>)
    requires ValidPath(n, p)
    ensures |ms| == |p| + 1
    decreases |p|
  {
    if |p| == 0 then [n.marker] else [n.marker] + MarkersAlong(n.children[p[0]], p[1..])
  }

  /** A marked element is its own nearest marker. */
  lemma {:induction false} NearestMarkerOfMarked(n: Node, p: Path)
    requires ValidPath(n, p) && At(n, p).marker.Some?
    ensures NearestMarker(n, p) == At(n, p).marker
    decreases |p|
  {
    if |p| > 0 {
      NearestMarkerOfMarked(n.children[p[0]], p[1..]);
    }
  }

  /** The markers along a path start at `n` and end at the element the path leads to. */
  lemma {:induction false} MarkersAlongEnds(n: Node, p: Path)
    requires ValidPath(n, p)
    ensures MarkersAlong(n, p)[0] == n.marker
    ensures MarkersAlong(n, p)[|p|] == At(n, p).marker
    decreases |p|
  {
    if |p| > 0 {
      MarkersAlongEnds(n.children[p[0]], p[1..]);
    }
  }

  /** The position of the last present value of a sequence of optional values. */
  function LastPresentIndex(ms: seq<Option<int>>): (r: Option<nat>)
    ensures r.None? ==> forall i :: 0 <= i < |ms| ==> ms[i].None?
    ensures r.Some? ==> r.value < |ms| && ms[r.value].Some? && forall j :: r.value < j < |ms| ==> ms[j].None?
    decreases |ms|
  {
    if |ms| == 0 then None
    else if ms[|ms| - 1].Some? then Some(|ms| - 1)
    else
      var r := LastPresentIndex(ms[..|ms| - 1]);
      assert forall i :: 0 <= i < |ms| - 1 ==> ms[..|ms| - 1][i] == ms[i];
      r
  }

  /** The last present value of a sequence of optional values. */
  function LastPresent(ms: seq<Option<int>>): (r: Option<int>)
    ensures r.None? <==> forall i :: 0 <= i < |ms| ==> ms[i].None?
  {
    match LastPresentIndex(ms)
    case None => None
    case Some(i) => ms[i]
  }

  /**
    The start-level lookup: the marker of the element at `p` or, failing
    that, of its nearest marked ancestor.
  */
  function NearestMarker(n: Node, p: Path): (m: Option<int>)
    requires ValidPath(n, p)
    decreases |p|
  {
    if |p| == 0 then n.marker
    else match NearestMarker(n.children[p[0]], p[1..])
      case Some(m) => Some(m)
      case None => n.marker
  }

  lemma {:induction false} LastPresentCons(m: Option<int>, ms: seq<Option<int>>)
    ensures LastPresent([m] + ms) == if LastPresent(ms).Some? then LastPresent(ms) else m
    decreases |ms|
  {
    if |ms| > 0 {
      assert ([m] + ms)[..|ms|] == [m] + ms[..|ms| - 1];
      LastPresentCons(m, ms[..|ms| - 1]);
    }
  }

  /** The nearest marker is the deepest marker present on the root-to-cursor path. */
  lemma {:induction false} NearestMarkerIsDeepest(n: Node, p: Path)
    requires ValidPath(n, p)
    ensures NearestMarker(n, p) == LastPresent(MarkersAlong(n, p))
    decreases |p|
  {
    if |p| > 0 {
      NearestMarkerIsDeepest(n.children[p[0]], p[1..]);
      LastPresentCons(n.marker, MarkersAlong(n.children[p[0]], p[1..]));
    } else {
      assert MarkersAlong(n, p)[..0] == [];
    }
  }
}
