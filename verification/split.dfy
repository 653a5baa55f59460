/**
  Ruby's `String#split` with a pattern that captures a single separator
  character, as `split(/(\n)/)` and `split(/( |\n)/)` use it: fields and
  the separators between them alternate, and trailing empty strings are
  removed (so the empty string splits into nothing).
*/
module Split {

  /** Every character of `s` lies outside `seps`. */
  predicate SeparatorFree(s: string, seps: set<char>) {
    forall i :: 0 <= i < |s| ==> s[i] !in seps
  }

  /** `s` is one separator character. */
  predicate IsSeparator(s: string, seps: set<char>) {
    |s| == 1 && s[0] in seps
  }

  /** The concatenation of a sequence of strings. */
  function Concat(ss: seq<string>): (s: string)
    decreases |ss|
  {
    if |ss| == 0 then "" else ss[0] + Concat(ss[1..])
  }

  lemma {:induction false} ConcatAppend(ss: seq<string>, ts: seq<string>)
    ensures Concat(ss + ts) == Concat(ss) + Concat(ts)
    decreases |ss|
  {
    if |ss| > 0 {
      assert (ss + ts)[1..] == ss[1..] + ts;
      ConcatAppend(ss[1..], ts);
    } else {
      assert ss + ts == ts;
    }
  }

  /** The fields and separators alternate, fields at even positions, and the sequence starts and ends with a field. */
  predicate Alternating(ps: seq<string>, seps: set<char>) {
    && |ps| % 2 == 1
    && forall i :: 0 <= i < |ps| ==>
         (if i % 2 == 0 then SeparatorFree(ps[i], seps) else IsSeparator(ps[i], seps))
  }

  /** Cuts `s` at every separator, keeping the separators: no pieces are dropped yet. */
  function Pieces(s: string, seps: set<char>): (ps: seq<string>)
    ensures Alternating(ps, seps)
    ensures Concat(ps) == s
    decreases |s|
  {
    if |s| == 0 then [""]
    else
      var rest := Pieces(s[1..], seps);
      if s[0] in seps then
        var ps := ["", [s[0]]] + rest;
        assert ps[2..] == rest;
        assert forall i :: 2 <= i < |ps| ==> ps[i] == rest[i - 2];
        ps
      else
        var ps := [[s[0]] + rest[0]] + rest[1..];
        assert s == [s[0]] + s[1..];
        assert rest == [rest[0]] + rest[1..];
        ps
  }

  /**
    `split` with a capturing separator pattern: the pieces, minus a trailing
    empty field. Fields sit at the even positions and separators at the odd
    ones, so empty fields between or before separators are kept.
  */
  function RubySplit(s: string, seps: set<char>): (ps: seq<string>)
    ensures Concat(ps) == s
    ensures forall i :: 0 <= i < |ps| ==> SeparatorFree(ps[i], seps) || IsSeparator(ps[i], seps)
    ensures |ps| > 0 ==> ps[|ps| - 1] != ""
    ensures forall i :: 0 <= i < |ps| - 1 ==> IsSeparator(ps[i], seps) || IsSeparator(ps[i + 1], seps)
    ensures forall i :: 0 <= i < |ps| ==> (IsSeparator(ps[i], seps) <==> i % 2 == 1)
    ensures s == "" <==> ps == []
  {
    var ps := Pieces(s, seps);
    TrimShape(ps, seps);
    Trim(ps)
  }

  /** Drops a trailing empty field. */
  function Trim(ps: seq<string>): (r: seq<string>)
    requires |ps| > 0
  {
    if ps[|ps| - 1] == "" then ps[..|ps| - 1] else ps
  }

  lemma TrimShape(ps: seq<string>, seps: set<char>)
    requires Alternating(ps, seps)
    ensures var qs := Trim(ps);
      && Concat(qs) == Concat(ps)
      && (forall i :: 0 <= i < |qs| ==> SeparatorFree(qs[i], seps) || IsSeparator(qs[i], seps))
      && (|qs| > 0 ==> qs[|qs| - 1] != "")
      && (forall i :: 0 <= i < |qs| - 1 ==> IsSeparator(qs[i], seps) || IsSeparator(qs[i + 1], seps))
      && (forall i :: 0 <= i < |qs| ==> (IsSeparator(qs[i], seps) <==> i % 2 == 1))
      && (Concat(ps) == "" <==> qs == [])
  {
    AlternatingShape(ps, seps);
    var n := |ps|;
    if ps[n - 1] == "" {
      var qs := ps[..n - 1];
      ConcatAppend(qs, [ps[n - 1]]);
      assert qs + [ps[n - 1]] == ps;
      assert Concat([ps[n - 1]]) == "";
      if |qs| > 0 {
        assert qs[|qs| - 1] == ps[n - 2];
        ConcatNonEmpty(qs, |qs| - 1);
      }
    } else if Concat(ps) == "" {
      ConcatNonEmpty(ps, n - 1);
    }
  }

  /** Fields and separators: every piece is one or the other, and no two fields are adjacent. */
  lemma AlternatingShape(ps: seq<string>, seps: set<char>)
    requires Alternating(ps, seps)
    ensures |ps| > 0
    ensures forall i :: 0 <= i < |ps| ==> SeparatorFree(ps[i], seps) || IsSeparator(ps[i], seps)
    ensures forall i :: 0 <= i < |ps| - 1 ==> IsSeparator(ps[i], seps) || IsSeparator(ps[i + 1], seps)
    ensures |ps| > 1 ==> IsSeparator(ps[|ps| - 2], seps)
  {
    forall i | 0 <= i < |ps| - 1
      ensures IsSeparator(ps[i], seps) || IsSeparator(ps[i + 1], seps)
    {
      if i % 2 == 0 {
        assert (i + 1) % 2 == 1;
      }
    }
    if |ps| > 1 {
      assert (|ps| - 2) % 2 == 1;
    }
  }

  /** A non-empty piece makes the concatenation non-empty. */
  lemma {:induction false} ConcatNonEmpty(ss: seq<string>, i: nat)
    requires i < |ss| && ss[i] != ""
    ensures Concat(ss) != ""
    decreases |ss|
  {
    if i > 0 {
      ConcatNonEmpty(ss[1..], i - 1);
    }
  }

  lemma {:induction false} PiecesSeparatorFree(s: string, seps: set<char>)
    requires SeparatorFree(s, seps)
    ensures Pieces(s, seps) == [s]
    decreases |s|
  {
    if |s| > 0 {
      PiecesSeparatorFree(s[1..], seps);
      assert [s[0]] + s[1..] == s;
    }
  }

  /** Text without separators splits into itself alone. */
  lemma SplitSeparatorFree(s: string, seps: set<char>)
    requires SeparatorFree(s, seps) && s != ""
    ensures RubySplit(s, seps) == [s]
  {
    PiecesSeparatorFree(s, seps);
  }
}
