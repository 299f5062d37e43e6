/**
  What each step of the solver does to one line, as a function of the line
  before the step. Every rule of the solver reads and writes one row or one
  column at a time, so the board-level passes (module Passes) only apply
  these functions line after line.
 */
module Heuristics {
  import opened Lines
  import opened Candidates
  import opened Checks

  /** `sol` is consistent with every known cell of `line`. */
  predicate Agrees(line: seq<int>, sol: seq<int>) {
    |line| == |sol| && forall j :: 0 <= j < |line| && line[j] != Unknown ==> line[j] == sol[j]
  }

  // ---------------------------------------------------------------------
  // find_full

  /** Each run followed by one crossed cell, as the cursor loop writes them. */
  function Stamp(clue: seq<nat>): (r: seq<int>)
    ensures |r| == Sum(clue) + |clue|
  {
    if clue == [] then [] else Ones(clue[0]) + [Crossed] + Stamp(clue[1..])
  }

  /** The clue fills its line exactly, with one crossed cell between runs. */
  predicate Tight(clue: seq<nat>, n: nat) {
    |clue| >= 1 && Sum(clue) + |clue| - 1 == n
  }

  /**
    `find_full` on one line of n cells: a single run as long as the line fills
    it; several runs that fit exactly are stamped from the left, the separator
    after the last run falling outside the line. Any other line is kept.
   */
  function FullLine(clue: seq<nat>, line: seq<int>): (r: seq<int>)
    ensures |r| == |line|
  {
    var n := |line|;
    if |clue| == 1 then
      if clue[0] == n then Ones(n) else line
    else if |clue| - 1 + Sum(clue) == n then Stamp(clue)[..n]
    else line
  }

  // ---------------------------------------------------------------------
  // fill_middle

  /** A single run longer than half the line (r > n/2, in exact arithmetic). */
  predicate MiddleFires(clue: seq<nat>, n: nat) {
    |clue| == 1 && 2 * clue[0] > n
  }

  /**
    `fill_middle` on one line: the cells covered by the run both when it is
    pushed to the left and when it is pushed to the right, [n - r, r), are
    filled; every other cell is kept (the source rewrites an unknown cell with
    0, which changes nothing).
   */
  function MiddleLine(clue: seq<nat>, line: seq<int>): (r: seq<int>)
    requires MiddleFires(clue, |line|) ==> clue[0] <= |line|
    ensures |r| == |line|
  {
    var n := |line|;
    if MiddleFires(clue, n) then
      seq(n, i requires 0 <= i < n => if n - clue[0] <= i < clue[0] then Filled else line[i])
    else line
  }

  // ---------------------------------------------------------------------
  // fill_from_possibilities

  /** `all_occurrences[j]`: no candidate crosses cell j. */
  predicate AllFilledAt(cands: seq<seq<int>>, j: nat)
    requires forall k :: 0 <= k < |cands| ==> j < |cands[k]|
  {
    forall k :: 0 <= k < |cands| ==> cands[k][j] != Crossed
  }

  /** `none_occurrences[j]`: no candidate fills cell j. */
  predicate NoneFilledAt(cands: seq<seq<int>>, j: nat)
    requires forall k :: 0 <= k < |cands| ==> j < |cands[k]|
  {
    forall k :: 0 <= k < |cands| ==> cands[k][j] != Filled
  }

  predicate SameLength(cands: seq<seq<int>>, n: nat) {
    forall k :: 0 <= k < |cands| ==> |cands[k]| == n
  }

  predicate AllCandidatesDecided(cands: seq<seq<int>>) {
    forall k :: 0 <= k < |cands| ==> AllDecided(cands[k])
  }

  /**
    `fill_from_possibilities` on one line: a lone candidate is written as it
    is; with several, a cell no candidate crosses is filled and a cell no
    candidate fills is crossed; without candidates nothing is written.
   */
  function ConsensusLine(cands: seq<seq<int>>, line: seq<int>): (r: seq<int>)
    requires SameLength(cands, |line|)
    ensures |r| == |line|
  {
    if |cands| == 1 then cands[0]
    else if cands == [] then line
    else seq(|line|, j requires 0 <= j < |line| => ConsensusCell(cands, line, j))
  }

  /** The value of cell j when there are several candidates. */
  function ConsensusCell(cands: seq<seq<int>>, line: seq<int>, j: nat): int
    requires SameLength(cands, |line|) && j < |line|
  {
    if AllFilledAt(cands, j) then Filled else if NoneFilledAt(cands, j) then Crossed else line[j]
  }

  // ---------------------------------------------------------------------
  // fill_with_crosses and the solved branch of remove_possibilities

  /** `fill_row(y, -1, False)`: every unknown cell crossed, every other cell kept. */
  function CrossUnknown(line: seq<int>): (r: seq<int>)
    ensures |r| == |line|
  {
    seq(|line|, j requires 0 <= j < |line| => if line[j] == Unknown then Crossed else line[j])
  }

  function CrossIfSolved(conv: Convention, clue: seq<nat>, line: seq<int>): (r: seq<int>)
    ensures |r| == |line|
  {
    if LineSolved(conv, line, clue) then CrossUnknown(line) else line
  }

  // ---------------------------------------------------------------------
  // fill_edges

  /** The edge cell at the start of the line is filled and its run is longer than 1. */
  predicate FrontFires(line: seq<int>, c: nat) {
    |line| > 0 && line[0] == Filled && c > 1
  }

  predicate BackFires(line: seq<int>, c: nat) {
    |line| > 0 && line[|line| - 1] == Filled && c > 1
  }

  /**
    The top and left edges: the first run, anchored at the edge, is filled
    in; the cell just past it is crossed when it is unknown. When the run is
    the whole line there is no such cell (the source's IndexError is caught).
   */
  function ExtendFront(line: seq<int>, c: nat): (r: seq<int>)
    requires c <= |line|
    ensures |r| == |line|
  {
    if FrontFires(line, c) then
      seq(|line|, j requires 0 <= j < |line| =>
        if j < c then Filled else if j == c && line[j] == Unknown then Crossed else line[j])
    else line
  }

  /**
    The bottom and right edges, the mirror image. When the run is the whole
    line the source reads index -1, which numpy takes as the last cell; that
    cell was just filled, so nothing more is written.
   */
  function ExtendBack(line: seq<int>, c: nat): (r: seq<int>)
    requires c <= |line|
    ensures |r| == |line|
  {
    var n := |line|;
    if BackFires(line, c) then
      seq(n, j requires 0 <= j < n =>
        if j >= n - c then Filled else if j == n - 1 - c && line[j] == Unknown then Crossed else line[j])
    else line
  }

  // ---------------------------------------------------------------------
  // remove_possibilities

  /** `list.remove(x)`: the first element equal to x goes. */
  function RemoveFirst(s: seq<seq<int>>, x: seq<int>): (r: seq<seq<int>>)
    requires x in s
    ensures |r| == |s| - 1
    ensures multiset(r) == multiset(s) - multiset{x}
  {
    if s[0] == x then
      assert s == [s[0]] + s[1..];
      s[1..]
    else
      assert s == [s[0]] + s[1..];
      [s[0]] + RemoveFirst(s[1..], x)
  }

  /**
    The loop `for p in row: if not is_possible(actual, p): row.remove(p)`.
    Python's list iterator walks by index over the list being shortened, so
    after each removal the element that moves into the current position is
    never looked at.
   */
  function PruneFrom(s: seq<seq<int>>, i: nat, actual: seq<int>): seq<seq<int>>
    decreases |s| - i
  {
    if i >= |s| then s
    else if IsPossible(actual, s[i]) then PruneFrom(s, i + 1, actual)
    else PruneFrom(RemoveFirst(s, s[i]), i + 1, actual)
  }

  function Prune(s: seq<seq<int>>, actual: seq<int>): seq<seq<int>> {
    PruneFrom(s, 0, actual)
  }

  /** `t` is `s` with some elements left out, the rest in their order. */
  predicate SubList(t: seq<seq<int>>, s: seq<seq<int>>)
    decreases |s|
  {
    if t == [] then true
    else if s == [] then false
    else (t[0] == s[0] && SubList(t[1..], s[1..])) || SubList(t, s[1..])
  }

  // =====================================================================
  // Properties of the rules

  // -- find_full ----------------------------------------------------------

  lemma {:induction false} FlattenAllChosen(sel: seq<int>, clue: seq<nat>, lo: nat)
    requires lo + |sel| == |clue|
    requires forall i :: 0 <= i < |sel| ==> sel[i] == lo + i
    ensures SlotsFit(sel, clue)
    ensures Flatten(sel, clue) == Stamp(clue[lo..])
    decreases |sel|
  {
    if sel != [] {
      FlattenAllChosen(sel[1..], clue, lo + 1);
      assert clue[lo..][1..] == clue[lo + 1..];
    }
  }

  /** A clue without slack has exactly one candidate: the stamped runs. */
  lemma TightGenerate(clue: seq<nat>, n: nat)
    requires Tight(clue, n)
    ensures Generate(clue, n) == [Stamp(clue)[..n]]
  {
    var k := |clue|;
    assert SlotCount(clue, n) == k;
    CombinationsAll(0, k);
    var sel := Slots(Range(0, k), k);
    forall i | 0 <= i < k
      ensures sel[i] == i
    {
      SlotOfRange(k, i);
    }
    FlattenAllChosen(sel, clue, 0);
    assert clue[0..] == clue;
    assert Layout(Range(0, k), clue, k) == Stamp(clue)[..n];
  }

  /**
    `find_full` writes a line exactly when its clue leaves no slack, and then
    writes the one candidate line the enumeration produces for that clue;
    otherwise the line is kept.
   */
  lemma FullLineMeaning(clue: seq<nat>, line: seq<int>)
    ensures Tight(clue, |line|) ==> Generate(clue, |line|) == [FullLine(clue, line)]
    ensures !Tight(clue, |line|) ==> FullLine(clue, line) == line
  {
    var n := |line|;
    if |clue| == 1 {
      assert clue[1..] == [];
      assert Sum(clue) == clue[0];
    }
    if Tight(clue, n) {
      TightGenerate(clue, n);
      if |clue| == 1 {
        assert Stamp(clue)[..n] == Ones(n);
      }
    }
  }

  // -- fill_middle --------------------------------------------------------

  /** Every candidate of a single run longer than half the line fills [n - r, r). */
  lemma MiddleInEveryCandidate(r: nat, n: nat, p: seq<int>, i: nat)
    requires MiddleFires([r], n) && r <= n
    requires p in Generate([r], n)
    requires n - r <= i < r
    ensures i < |p| && p[i] == Filled
  {
    var m := SlotCount([r], n);
    assert Sum([r]) == r by { assert [r][1..] == []; }
    assert m == n - r + 1;
    var combos := Combinations(0, m, 1);
    var k :| 0 <= k < |combos| && p == Generate([r], n)[k];
    var c := combos[k];
    assert IsCombination(c, 0, m, 1);
    assert c == [c[0]];
    SingleRunLayout(c[0], r, m, i);
  }

  /**
    `fill_middle` fills exactly the cells [n - r, r) and keeps the others;
    every solution of the clue fills those cells, so a solution that agrees
    with the line still does afterwards.
   */
  lemma MiddleLineSound(conv: Convention, clue: seq<nat>, line: seq<int>, sol: seq<int>)
    requires MiddleFires(clue, |line|) ==> clue[0] <= |line|
    requires LineSolved(conv, sol, clue) && AllDecided(sol) && Agrees(line, sol)
    ensures Agrees(MiddleLine(clue, line), sol)
    ensures forall i :: 0 <= i < |line| ==>
      MiddleLine(clue, line)[i] == if MiddleFires(clue, |line|) && |line| - clue[0] <= i < clue[0] then Filled else line[i]
  {
    var n := |line|;
    if MiddleFires(clue, n) {
      assert clue == [clue[0]];
      SolutionIsCandidate(conv, clue, sol);
      forall i | n - clue[0] <= i < clue[0]
        ensures sol[i] == Filled
      {
        MiddleInEveryCandidate(clue[0], n, sol, i);
      }
    }
  }

  /**
    Every solution of a line, under either convention for the empty line, is
    one of the candidates `_generate_all_possibilities` lists for its clue.
   */
  lemma SolutionIsCandidate(conv: Convention, clue: seq<nat>, sol: seq<int>)
    requires LineSolved(conv, sol, clue) && AllDecided(sol)
    ensures sol in Generate(clue, |sol|)
  {
    GenerateComplete(clue, sol);
  }

  /**
    A solution that agrees with the known cells of the line passes
    `is_possible`, so pruning against the line never drops it.
   */
  lemma PruneKeepsSolution(cands: seq<seq<int>>, line: seq<int>, sol: seq<int>)
    requires AllCells(line) && AllDecided(sol) && Agrees(line, sol)
    requires sol in cands
    ensures IsPossible(line, sol)
    ensures sol in Prune(cands, line)
  {
    PruneMeaning(cands, line);
  }

  // -- fill_from_possibilities ---------------------------------------------

  predicate Unanimous(cands: seq<seq<int>>, j: nat, v: int)
    requires forall k :: 0 <= k < |cands| ==> j < |cands[k]|
  {
    forall k :: 0 <= k < |cands| ==> cands[k][j] == v
  }

  /**
    With several candidates, a cell is written exactly when all candidates
    agree on it, and it gets their common value; every other cell is kept.
   */
  lemma ConsensusMeaning(cands: seq<seq<int>>, line: seq<int>, j: nat)
    requires SameLength(cands, |line|) && AllCandidatesDecided(cands)
    requires |cands| >= 2 && j < |line|
    ensures ConsensusLine(cands, line)[j] ==
      if Unanimous(cands, j, Filled) then Filled
      else if Unanimous(cands, j, Crossed) then Crossed
      else line[j]
  {
    assert AllFilledAt(cands, j) <==> Unanimous(cands, j, Filled);
    assert NoneFilledAt(cands, j) <==> Unanimous(cands, j, Crossed);
  }

  /**
    Soundness: when the true line is among the candidates and agrees with the
    known cells, it still agrees with them after the consensus is written.
   */
  lemma ConsensusSound(cands: seq<seq<int>>, line: seq<int>, sol: seq<int>)
    requires SameLength(cands, |line|) && AllCandidatesDecided(cands)
    requires sol in cands && Agrees(line, sol)
    ensures Agrees(ConsensusLine(cands, line), sol)
  {
    if |cands| >= 2 {
      var k :| 0 <= k < |cands| && cands[k] == sol;
      forall j | 0 <= j < |line|
        ensures ConsensusLine(cands, line)[j] != Unknown ==> ConsensusLine(cands, line)[j] == sol[j]
      {
        assert AllDecided(cands[k]);
      }
    } else {
      assert cands == [sol];
    }
  }

  // -- crossing solved lines -----------------------------------------------

  /** The pieces of a line depend only on which of its cells hold v. */
  lemma {:induction false} PiecesSameShape(l1: seq<int>, l2: seq<int>, v: int)
    requires |l1| == |l2| && forall j :: 0 <= j < |l1| ==> (l1[j] == v <==> l2[j] == v)
    ensures Pieces(l1, v) == Pieces(l2, v)
    decreases |l1|
  {
    if l1 != [] {
      PiecesSameShape(l1[..|l1| - 1], l2[..|l2| - 1], v);
    }
  }

  /** Crossing the unknown cells keeps the run lengths, so a solved line stays solved. */
  lemma CrossKeepsSegments(conv: Convention, line: seq<int>)
    ensures Segments(CrossUnknown(line)) == Segments(line)
    ensures LineSegments(conv, CrossUnknown(line)) == LineSegments(conv, line)
  {
    PiecesSameShape(CrossUnknown(line), line, Filled);
  }

  lemma SumSegmentsIsCount(conv: Convention, line: seq<int>)
    ensures Sum(LineSegments(conv, line)) == Count(line, Filled)
  {
    SegmentsMeaning(line);
  }

  lemma {:induction false} CountMono(l1: seq<int>, l2: seq<int>)
    requires |l1| == |l2| && forall i :: 0 <= i < |l1| && l1[i] == Filled ==> l2[i] == Filled
    ensures Count(l2, Filled) >= Count(l1, Filled)
  {
    if l1 != [] {
      CountMono(l1[1..], l2[1..]);
    }
  }

  lemma {:induction false} CountStrict(l1: seq<int>, l2: seq<int>, j: nat)
    requires |l1| == |l2| && forall i :: 0 <= i < |l1| && l1[i] == Filled ==> l2[i] == Filled
    requires j < |l1| && l1[j] != Filled && l2[j] == Filled
    ensures Count(l2, Filled) > Count(l1, Filled)
  {
    if j == 0 {
      CountMono(l1[1..], l2[1..]);
    } else {
      CountStrict(l1[1..], l2[1..], j - 1);
    }
  }

  /**
    Soundness of crossing: when a line already shows all the runs of its
    clue, every unknown cell of it is crossed in any solution of the line
    that agrees with its known cells.
   */
  lemma CrossSound(conv: Convention, clue: seq<nat>, line: seq<int>, sol: seq<int>)
    requires LineSolved(conv, line, clue) && LineSolved(conv, sol, clue)
    requires AllDecided(sol) && Agrees(line, sol)
    ensures Agrees(CrossUnknown(line), sol)
  {
    SumSegmentsIsCount(conv, line);
    SumSegmentsIsCount(conv, sol);
    forall j | 0 <= j < |line| && line[j] == Unknown
      ensures sol[j] == Crossed
    {
      if sol[j] == Filled {
        CountStrict(line, sol, j);
      }
    }
  }

  // -- fill_edges -----------------------------------------------------------

  /** Length of the run of v at the start of s. */
  function LeadingRun(s: seq<int>, v: int): (t: nat)
    ensures t <= |s| && (forall j :: 0 <= j < t ==> s[j] == v) && (t < |s| ==> s[t] != v)
  {
    if s == [] || s[0] != v then 0 else 1 + LeadingRun(s[1..], v)
  }

  /** Length of the run of v at the end of s. */
  function TrailingRun(s: seq<int>, v: int): (t: nat)
    ensures t <= |s| && (forall j :: |s| - t <= j < |s| ==> s[j] == v) && (t < |s| ==> s[|s| - 1 - t] != v)
  {
    if s == [] || s[|s| - 1] != v then 0
    else
      var t := TrailingRun(s[..|s| - 1], v);
      assert forall j :: |s| - 1 - t <= j < |s| - 1 ==> s[j] == s[..|s| - 1][j];
      1 + t
  }

  /** A line starting with a filled cell: its first run is the filled cells at its start. */
  lemma FirstSegment(s: seq<int>)
    requires |s| > 0 && s[0] == Filled
    ensures Segments(s) != [] && Segments(s)[0] == LeadingRun(s, Filled)
  {
    var t := LeadingRun(s, Filled);
    assert t > 0;
    assert Repeat(Filled, t) == s[..t];
    if t == |s| {
      assert s == Repeat(Filled, t);
      PiecesOfRun(t, Filled);
    } else {
      RunThenRest(s, t);
    }
  }

  lemma RunThenRest(s: seq<int>, t: nat)
    requires 0 < t < |s| && s[..t] == Repeat(Filled, t) && s[t] != Filled
    ensures Segments(s) == [t] + Segments(s[t + 1..])
  {
    var rest := s[t + 1..];
    assert s[..t + 1] == s[..t] + [s[t]];
    assert s == s[..t + 1] + rest;
    PiecesRunThenSeparator(t, s[t], rest, Filled);
    NonZeroAppend([t], Pieces(rest, Filled));
  }

  lemma {:induction false} LastPiece(s: seq<int>, v: int)
    ensures Pieces(s, v)[|Pieces(s, v)| - 1] == TrailingRun(s, v)
    decreases |s|
  {
    if s != [] {
      LastPiece(s[..|s| - 1], v);
    }
  }

  /** A line ending with a filled cell: its last run is the filled cells at its end. */
  lemma LastSegment(s: seq<int>)
    requires |s| > 0 && s[|s| - 1] == Filled
    ensures Segments(s) != [] && Segments(s)[|Segments(s)| - 1] == TrailingRun(s, Filled)
  {
    var p := Pieces(s, Filled);
    LastPiece(s, Filled);
    assert p == p[..|p| - 1] + [p[|p| - 1]];
    NonZeroAppend(p[..|p| - 1], [p[|p| - 1]]);
  }

  /** A line with a filled cell reads the same in both conventions. */
  lemma FilledLineSegments(conv: Convention, s: seq<int>)
    requires Segments(s) != []
    ensures LineSegments(conv, s) == Segments(s)
  {
  }

  /**
    Soundness of the top and left edges: a filled edge cell is the start of
    the first run, so the run's cells are filled and the cell after it is
    crossed in every solution of the line that agrees with its known cells.
   */
  lemma FrontSound(conv: Convention, clue: seq<nat>, line: seq<int>, sol: seq<int>)
    requires |clue| > 0 && clue[0] <= |line|
    requires LineSolved(conv, sol, clue) && AllDecided(sol) && Agrees(line, sol)
    ensures Agrees(ExtendFront(line, clue[0]), sol)
  {
    if FrontFires(line, clue[0]) {
      FirstSegment(sol);
      FilledLineSegments(conv, sol);
    }
  }

  /** The same for the bottom and right edges and the last run. */
  lemma BackSound(conv: Convention, clue: seq<nat>, line: seq<int>, sol: seq<int>)
    requires |clue| > 0 && clue[|clue| - 1] <= |line|
    requires LineSolved(conv, sol, clue) && AllDecided(sol) && Agrees(line, sol)
    ensures Agrees(ExtendBack(line, clue[|clue| - 1]), sol)
  {
    if BackFires(line, clue[|clue| - 1]) {
      LastSegment(sol);
      FilledLineSegments(conv, sol);
    }
  }

  // -- remove_possibilities ---------------------------------------------------

  lemma {:induction false} SubListRefl(s: seq<seq<int>>)
    ensures SubList(s, s)
  {
    if s != [] {
      SubListRefl(s[1..]);
    }
  }

  lemma {:induction false} SubListTrans(a: seq<seq<int>>, b: seq<seq<int>>, c: seq<seq<int>>)
    requires SubList(a, b) && SubList(b, c)
    ensures SubList(a, c)
    decreases |c|
  {
    if a != [] {
      if b[0] == c[0] && SubList(b[1..], c[1..]) {
        if a[0] == b[0] && SubList(a[1..], b[1..]) {
          SubListTrans(a[1..], b[1..], c[1..]);
        } else {
          SubListTrans(a, b[1..], c[1..]);
        }
      } else {
        SubListTrans(a, b, c[1..]);
      }
    }
  }

  lemma {:induction false} SubListRemoveFirst(s: seq<seq<int>>, x: seq<int>)
    requires x in s
    ensures SubList(RemoveFirst(s, x), s)
  {
    if s[0] == x {
      SubListRefl(s[1..]);
    } else {
      SubListRemoveFirst(s[1..], x);
      assert ([s[0]] + RemoveFirst(s[1..], x))[1..] == RemoveFirst(s[1..], x);
    }
  }

  lemma {:induction false} SubListMultiset(t: seq<seq<int>>, s: seq<seq<int>>)
    requires SubList(t, s)
    ensures multiset(t) <= multiset(s)
    decreases |s|
  {
    if t != [] {
      assert s == [s[0]] + s[1..];
      if t[0] == s[0] && SubList(t[1..], s[1..]) {
        SubListMultiset(t[1..], s[1..]);
        assert t == [t[0]] + t[1..];
      } else {
        SubListMultiset(t, s[1..]);
      }
    }
  }

  /** Pruning keeps a sub-list and keeps every candidate that is still possible, as often as it occurs. */
  lemma {:induction false} PruneFromMeaning(s: seq<seq<int>>, i: nat, actual: seq<int>)
    ensures SubList(PruneFrom(s, i, actual), s)
    ensures forall p :: IsPossible(actual, p) ==> multiset(PruneFrom(s, i, actual))[p] == multiset(s)[p]
    decreases |s| - i
  {
    if i >= |s| {
      SubListRefl(s);
    } else if IsPossible(actual, s[i]) {
      PruneFromMeaning(s, i + 1, actual);
    } else {
      var s' := RemoveFirst(s, s[i]);
      PruneFromMeaning(s', i + 1, actual);
      SubListRemoveFirst(s, s[i]);
      SubListTrans(PruneFrom(s', i + 1, actual), s', s);
    }
  }

  /**
    One pass of `remove_possibilities` on a line: the new list is a sub-list
    of the old one, every candidate that is dropped (counted with its
    repetitions) is impossible, and so a possible true line is never lost.
   */
  lemma PruneMeaning(s: seq<seq<int>>, actual: seq<int>)
    ensures SubList(Prune(s, actual), s)
    ensures multiset(Prune(s, actual)) <= multiset(s)
    ensures forall p :: multiset(Prune(s, actual))[p] < multiset(s)[p] ==> !IsPossible(actual, p)
    ensures forall p :: p in s && IsPossible(actual, p) ==> p in Prune(s, actual)
  {
    PruneFromMeaning(s, 0, actual);
    SubListMultiset(Prune(s, actual), s);
  }

  /**
    The pass is not complete: the row [1, 1] rules out both candidates
    [-1, -1] and [-1, 1], yet only the first is removed, because the second
    moves into the slot the iterator has just passed.
   */
  lemma PruneSkipsAfterRemoval()
    ensures Prune([[-1, -1], [-1, 1]], [1, 1]) == [[-1, 1]]
    ensures !IsPossible([1, 1], [-1, 1])
  {
    var s := [[-1, -1], [-1, 1]];
    var a := [1, 1];
    assert a[0] + s[0][0] == 0;
    assert a[0] + s[1][0] == 0;
    assert RemoveFirst(s, s[0]) == [[-1, 1]];
  }

  // -- facts the solver's loops use ---------------------------------------

  /** Where run s of the clue sits in the stamped line: after the earlier runs and their separators. */
  lemma {:induction false} StampAt(clue: seq<nat>, s: nat)
    requires s < |clue|
    ensures Sum(clue[..s + 1]) == Sum(clue[..s]) + clue[s]
    ensures Sum(clue[..s]) + s + clue[s] < |Stamp(clue)|
    ensures forall k :: Sum(clue[..s]) + s <= k < Sum(clue[..s]) + s + clue[s] ==> Stamp(clue)[k] == Filled
    ensures Stamp(clue)[Sum(clue[..s]) + s + clue[s]] == Crossed
    decreases s
  {
    var head := Ones(clue[0]) + [Crossed];
    assert Stamp(clue) == head + Stamp(clue[1..]);
    if s == 0 {
      assert clue[..1] == [clue[0]];
      assert clue[..1][1..] == [];
    } else {
      var rest := clue[1..];
      StampAt(rest, s - 1);
      assert clue[..s][1..] == rest[..s - 1];
      assert clue[..s + 1][1..] == rest[..s];
      var p := Sum(clue[..s]) + s;
      var p' := Sum(rest[..s - 1]) + s - 1;
      assert p == |head| + p';
      assert rest[s - 1] == clue[s];
      forall k | p <= k < p + clue[s]
        ensures Stamp(clue)[k] == Filled
      {
        assert Stamp(clue)[k] == Stamp(rest)[k - |head|];
      }
    }
  }

  /** The runs before position s add up to at most the whole clue. */
  lemma SumPrefix(clue: seq<nat>, s: nat)
    requires s <= |clue|
    ensures Sum(clue[..s]) <= Sum(clue)
    ensures s == |clue| ==> Sum(clue[..s]) == Sum(clue)
  {
    assert clue[..s] + clue[s..] == clue;
    SumAppend(clue[..s], clue[s..]);
  }

  /** The occurrence tables after one more candidate. */
  lemma FilledAtSnoc(cands: seq<seq<int>>, k: nat, j: nat)
    requires k < |cands| && forall q :: 0 <= q < |cands| ==> j < |cands[q]|
    ensures AllFilledAt(cands[..k + 1], j) == (AllFilledAt(cands[..k], j) && cands[k][j] != Crossed)
    ensures NoneFilledAt(cands[..k + 1], j) == (NoneFilledAt(cands[..k], j) && cands[k][j] != Filled)
  {
    assert forall q :: 0 <= q < k ==> cands[..k + 1][q] == cands[..k][q];
    assert cands[..k + 1][k] == cands[k];
  }

  /** The cells of the bottom or right edge step, one by one. */
  lemma FrontTarget(line: seq<int>, c: nat)
    requires c <= |line| && FrontFires(line, c)
    ensures forall k :: 0 <= k < c ==> ExtendFront(line, c)[k] == Filled
    ensures c < |line| ==> ExtendFront(line, c)[c] == if line[c] == Unknown then Crossed else line[c]
    ensures forall k :: c < k < |line| ==> ExtendFront(line, c)[k] == line[k]
  {
  }

  lemma BackTarget(line: seq<int>, c: nat)
    requires c <= |line| && BackFires(line, c)
    ensures forall k :: |line| - c <= k < |line| ==> ExtendBack(line, c)[k] == Filled
    ensures c < |line| ==> ExtendBack(line, c)[|line| - 1 - c] == if line[|line| - 1 - c] == Unknown then Crossed else line[|line| - 1 - c]
    ensures forall k :: 0 <= k < |line| - 1 - c ==> ExtendBack(line, c)[k] == line[k]
  {
  }
}
