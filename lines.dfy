/**
  Lines of a nonogram grid and the run lengths read off them.

  A cell holds 0 (unknown), 1 (filled) or -1 (crossed). A line is a row or a
  column, read as a sequence of cells. Both grid implementations of the
  repository compute the lengths of the pieces between separators and then
  drop the empty pieces; they differ only in what they return for a line
  without a filled cell.
 */
module Lines {

  const Unknown: int := 0
  const Filled: int := 1
  const Crossed: int := -1

  /** A value the grid accepts: -1, 0 or 1. */
  predicate IsCell(v: int) {
    v == Crossed || v == Unknown || v == Filled
  }

  /** Filled or crossed: a value a candidate line may hold. */
  predicate IsDecided(v: int) {
    v == Crossed || v == Filled
  }

  predicate AllCells(s: seq<int>) {
    forall i :: 0 <= i < |s| ==> IsCell(s[i])
  }

  predicate AllDecided(s: seq<int>) {
    forall i :: 0 <= i < |s| ==> IsDecided(s[i])
  }

  /** n copies of v. */
  function Repeat(v: int, n: nat): (r: seq<int>)
    ensures |r| == n && forall i :: 0 <= i < n ==> r[i] == v
  {
    seq(n, _ => v)
  }

  /** A run of n filled cells. */
  function Ones(n: nat): seq<int> {
    Repeat(Filled, n)
  }

  function Sum(s: seq<nat>): nat {
    if s == [] then 0 else s[0] + Sum(s[1..])
  }

  function Max(s: seq<nat>): nat {
    if s == [] then 0 else var m := Max(s[1..]); if s[0] > m then s[0] else m
  }

  /** Number of cells of s equal to v. */
  function Count(s: seq<int>, v: int): (n: nat)
    ensures n <= |s|
  {
    if s == [] then 0 else (if s[0] == v then 1 else 0) + Count(s[1..], v)
  }

  /**
    The lengths of the pieces of s between the cells that are not v, from left
    to right: splitting the line at every other cell gives one piece more than
    there are separators. Built cell by cell as the repository's loops build it:
    a v cell lengthens the last piece, any other cell opens a new empty one.
   */
  function Pieces(s: seq<int>, v: int): (r: seq<nat>)
    ensures r != [] && |r| == |s| - Count(s, v) + 1
    decreases |s|
  {
    if s == [] then [0]
    else
      var p := Pieces(s[..|s| - 1], v);
      CountSnoc(s[..|s| - 1], s[|s| - 1], v);
      assert s[..|s| - 1] + [s[|s| - 1]] == s;
      if s[|s| - 1] == v then p[..|p| - 1] + [p[|p| - 1] + 1] else p + [0]
  }

  /** The entries of p that are not zero, in order. */
  function NonZero(p: seq<nat>): (r: seq<nat>)
    ensures forall i :: 0 <= i < |r| ==> r[i] > 0
    ensures Sum(r) == Sum(p)
    ensures |r| <= |p|
  {
    if p == [] then []
    else if p[0] == 0 then NonZero(p[1..])
    else [p[0]] + NonZero(p[1..])
  }

  /**
    Lengths of the maximal runs of filled cells, both 0 and -1 acting as
    separators; a line without a filled cell gives [] (the grid class of the
    package).
   */
  function Segments(line: seq<int>): seq<nat> {
    NonZero(Pieces(line, Filled))
  }

  /** The same run lengths, but [0] for a line without a filled cell (the game class). */
  function SegmentsOrZero(line: seq<int>): seq<nat> {
    var r := Segments(line);
    if r == [] then [0] else r
  }

  /** Lengths of the maximal runs of unknown cells, or [0] when there is none. */
  function EmptySegmentsOrZero(line: seq<int>): seq<nat> {
    var r := NonZero(Pieces(line, Unknown));
    if r == [] then [0] else r
  }

  // ---------------------------------------------------------------------
  // Arithmetic on sequences

  lemma {:induction false} CountSnoc(s: seq<int>, c: int, v: int)
    ensures Count(s + [c], v) == Count(s, v) + (if c == v then 1 else 0)
  {
    if s == [] {
      assert [] + [c] == [c];
    } else {
      assert (s + [c])[1..] == s[1..] + [c];
      CountSnoc(s[1..], c, v);
    }
  }

  lemma {:induction false} CountAppend(a: seq<int>, b: seq<int>, v: int)
    ensures Count(a + b, v) == Count(a, v) + Count(b, v)
  {
    if a == [] {
      assert a + b == b;
    } else {
      assert (a + b)[1..] == a[1..] + b;
      CountAppend(a[1..], b, v);
    }
  }

  lemma {:induction false} SumAppend(a: seq<nat>, b: seq<nat>)
    ensures Sum(a + b) == Sum(a) + Sum(b)
  {
    if a == [] {
      assert a + b == b;
    } else {
      assert (a + b)[1..] == a[1..] + b;
      SumAppend(a[1..], b);
    }
  }

  lemma {:induction false} NonZeroAppend(a: seq<nat>, b: seq<nat>)
    ensures NonZero(a + b) == NonZero(a) + NonZero(b)
  {
    if a == [] {
      assert a + b == b;
    } else {
      assert (a + b)[1..] == a[1..] + b;
      NonZeroAppend(a[1..], b);
    }
  }

  /** A sequence of positive numbers is its own NonZero. */
  lemma {:induction false} NonZeroOfPositive(p: seq<nat>)
    requires forall i :: 0 <= i < |p| ==> p[i] > 0
    ensures NonZero(p) == p
  {
    if p != [] {
      NonZeroOfPositive(p[1..]);
    }
  }

  lemma {:induction false} CountRepeat(v: int, n: nat, w: int)
    ensures Count(Repeat(v, n), w) == (if v == w then n else 0)
  {
    if n > 0 {
      assert Repeat(v, n)[1..] == Repeat(v, n - 1);
      CountRepeat(v, n - 1, w);
    }
  }

  // ---------------------------------------------------------------------
  // Pieces under concatenation

  /** The pieces after one more cell c. */
  function Step(p: seq<nat>, c: int, v: int): seq<nat>
    requires p != []
  {
    if c == v then p[..|p| - 1] + [p[|p| - 1] + 1] else p + [0]
  }

  /** The pieces of a + b from those of a and b: the two pieces at the seam join. */
  function Join(pa: seq<nat>, pb: seq<nat>): seq<nat>
    requires pa != [] && pb != []
  {
    pa[..|pa| - 1] + [pa[|pa| - 1] + pb[0]] + pb[1..]
  }

  lemma PiecesSnoc(s: seq<int>, c: int, v: int)
    ensures Pieces(s + [c], v) == Step(Pieces(s, v), c, v)
  {
    var t := s + [c];
    assert t[..|t| - 1] == s && t[|t| - 1] == c;
  }

  lemma JoinStep(pa: seq<nat>, pb: seq<nat>, c: int, v: int)
    requires pa != [] && pb != []
    ensures Join(pa, Step(pb, c, v)) == Step(Join(pa, pb), c, v)
  {
    if c == v && |pb| == 1 {
      assert Step(pb, c, v) == [pb[0] + 1];
    }
  }

  /**
    Splitting a + b: the last piece of a and the first piece of b join,
    everything else is kept.
   */
  lemma {:induction false} PiecesAppend(a: seq<int>, b: seq<int>, v: int)
    ensures Pieces(a + b, v) == Join(Pieces(a, v), Pieces(b, v))
    decreases |b|
  {
    var pa := Pieces(a, v);
    if b == [] {
      assert a + b == a;
      assert Pieces(b, v) == [0];
      assert pa[..|pa| - 1] + [pa[|pa| - 1]] == pa;
    } else {
      var b' := b[..|b| - 1];
      var c := b[|b| - 1];
      var pb' := Pieces(b', v);
      calc {
        Pieces(a + b, v);
        { assert a + b == (a + b') + [c]; }
        Pieces((a + b') + [c], v);
        { PiecesSnoc(a + b', c, v); }
        Step(Pieces(a + b', v), c, v);
        { PiecesAppend(a, b', v); }
        Step(Join(pa, pb'), c, v);
        { JoinStep(pa, pb', c, v); }
        Join(pa, Step(pb', c, v));
        { PiecesSnoc(b', c, v); assert b' + [c] == b; }
        Join(pa, Pieces(b, v));
      }
    }
  }

  /** A run of n cells equal to v closed by a separator splits as [n], then the rest. */
  lemma PiecesRunThenSeparator(n: nat, c: int, rest: seq<int>, v: int)
    requires c != v
    ensures Pieces(Repeat(v, n) + [c] + rest, v) == [n] + Pieces(rest, v)
  {
    var head := Repeat(v, n) + [c];
    PiecesOfRun(n, v);
    assert head[..|head| - 1] == Repeat(v, n);
    assert Pieces(head, v) == [n, 0];
    PiecesAppend(head, rest, v);
  }

  lemma {:induction false} PiecesOfRun(n: nat, v: int)
    ensures Pieces(Repeat(v, n), v) == [n]
  {
    if n > 0 {
      assert Repeat(v, n)[..n - 1] == Repeat(v, n - 1);
      PiecesOfRun(n - 1, v);
    }
  }

  /** A trailing separator adds an empty piece, which Segments drops. */
  lemma SegmentsDropSeparator(s: seq<int>, c: int)
    requires c != Filled
    ensures Segments(s + [c]) == Segments(s)
  {
    assert (s + [c])[..|s + [c]| - 1] == s;
    assert Pieces(s + [c], Filled) == Pieces(s, Filled) + [0];
    NonZeroAppend(Pieces(s, Filled), [0]);
  }

  // ---------------------------------------------------------------------
  // What the run lengths say about the line

  lemma {:induction false} PiecesSum(s: seq<int>, v: int)
    ensures Sum(Pieces(s, v)) == Count(s, v)
    decreases |s|
  {
    if s != [] {
      var s' := s[..|s| - 1];
      PiecesSum(s', v);
      PiecesSumStep(s', s[|s| - 1], v);
      assert s' + [s[|s| - 1]] == s;
    }
  }

  /** One more cell adds one to the sum of the pieces exactly when it is a v cell. */
  lemma PiecesSumStep(s: seq<int>, c: int, v: int)
    ensures Sum(Pieces(s + [c], v)) == Sum(Pieces(s, v)) + (if c == v then 1 else 0)
  {
    var p := Pieces(s, v);
    assert (s + [c])[..|s|] == s;
    if c == v {
      var init := p[..|p| - 1];
      assert init + [p[|p| - 1]] == p;
      SumAppend(init, [p[|p| - 1]]);
      SumAppend(init, [p[|p| - 1] + 1]);
    } else {
      SumAppend(p, [0]);
    }
  }

  /** Every run is at least one cell long, and the runs add up to the filled cells. */
  lemma SegmentsMeaning(line: seq<int>)
    ensures forall i :: 0 <= i < |Segments(line)| ==> Segments(line)[i] >= 1
    ensures Sum(Segments(line)) == Count(line, Filled)
    ensures Segments(line) == [] <==> Count(line, Filled) == 0
  {
    PiecesSum(line, Filled);
    var r := Segments(line);
    if r != [] {
      SumPositive(r);
    }
  }

  lemma {:induction false} SumPositive(r: seq<nat>)
    requires r != [] && forall i :: 0 <= i < |r| ==> r[i] > 0
    ensures Sum(r) > 0
  {
  }

  /** The same facts for the runs of unknown cells. */
  lemma EmptySegmentsMeaning(line: seq<int>)
    ensures forall i :: 0 <= i < |EmptySegmentsOrZero(line)| ==> EmptySegmentsOrZero(line)[i] >= 1 || EmptySegmentsOrZero(line) == [0]
    ensures EmptySegmentsOrZero(line) == [0] <==> Count(line, Unknown) == 0
    ensures Count(line, Unknown) > 0 ==> Sum(EmptySegmentsOrZero(line)) == Count(line, Unknown)
  {
    PiecesSum(line, Unknown);
    var r := NonZero(Pieces(line, Unknown));
    if r != [] {
      SumPositive(r);
    }
  }

  /** Both conventions agree on every line with a filled cell. */
  lemma SegmentsConventions(line: seq<int>)
    ensures Count(line, Filled) > 0 ==> SegmentsOrZero(line) == Segments(line)
    ensures Count(line, Filled) == 0 ==> Segments(line) == [] && SegmentsOrZero(line) == [0]
  {
    SegmentsMeaning(line);
  }
}
