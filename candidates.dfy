/**
  Enumeration of the candidate lines for a clue, and the test of one
  candidate against the known cells of a line.

  A clue of k runs on a line of `size` cells leaves
  slack = size - Sum(runs) - (k - 1) cells free once every run is separated
  from the next by one crossed cell. The enumeration chooses k of the
  k + slack slots (in the lexicographic order of itertools.combinations)
  as the places of the runs; every other slot is one crossed cell. Each
  chosen slot expands into its run followed by one crossed cell, each other
  slot into a crossed cell, and the last cell of the result is dropped.
 */
module Candidates {
  import opened Lines

  function Binomial(n: nat, k: nat): nat {
    if k == 0 then 1 else if n == 0 then 0 else Binomial(n - 1, k - 1) + Binomial(n - 1, k)
  }

  /** Strictly increasing, k long, every element in [lo, n). */
  predicate IsCombination(c: seq<nat>, lo: nat, n: nat, k: nat) {
    && |c| == k
    && (forall j :: 0 <= j < |c| ==> lo <= c[j] < n)
    && (forall j :: 0 < j < |c| ==> c[j - 1] < c[j])
  }

  function Prepend(x: nat, cs: seq<seq<nat>>): (r: seq<seq<nat>>)
    ensures |r| == |cs| && forall i :: 0 <= i < |r| ==> r[i] == [x] + cs[i]
  {
    seq(|cs|, i requires 0 <= i < |cs| => [x] + cs[i])
  }

  /**
    The k-element combinations of range(lo, n) in lexicographic order, as
    itertools.combinations yields them: first those that start with lo, then
    those that do not.
   */
  function Combinations(lo: nat, n: nat, k: nat): (r: seq<seq<nat>>)
    ensures |r| == Binomial(if lo <= n then n - lo else 0, k)
    ensures forall i :: 0 <= i < |r| ==> IsCombination(r[i], lo, n, k)
    decreases n - lo
  {
    if k == 0 then [[]]
    else if lo >= n then []
    else
      var first := Combinations(lo + 1, n, k - 1);
      var rest := Combinations(lo + 1, n, k);
      var r := Prepend(lo, first) + rest;
      assert forall i :: 0 <= i < |first| ==> IsCombination(r[i], lo, n, k) by {
        forall i | 0 <= i < |first| ensures IsCombination(r[i], lo, n, k) {
          assert r[i] == [lo] + first[i];
          assert IsCombination(first[i], lo + 1, n, k - 1);
        }
      }
      assert forall i :: |first| <= i < |r| ==> r[i] == rest[i - |first|];
      r
  }

  /**
    Which run a slot holds, -1 for an empty slot: the array `selected` that
    the loop over a combination fills in (a later assignment to the same slot
    wins, as in the loop).
   */
  function SlotOf(c: seq<nat>, i: nat): (r: int)
    ensures -1 <= r < |c|
  {
    if c == [] then -1
    else if c[|c| - 1] == i then |c| - 1
    else SlotOf(c[..|c| - 1], i)
  }

  function Slots(c: seq<nat>, m: nat): (r: seq<int>)
    ensures |r| == m && forall i :: 0 <= i < m ==> r[i] == SlotOf(c, i)
  {
    seq(m, i requires 0 <= i < m => SlotOf(c, i))
  }

  predicate SlotsFit(sel: seq<int>, clue: seq<nat>) {
    forall i :: 0 <= i < |sel| ==> sel[i] < |clue|
  }

  /** A run followed by its separator, or a lone separator for an empty slot. */
  function Piece(v: int, clue: seq<nat>): seq<int>
    requires v < |clue|
  {
    if v > -1 then Ones(clue[v]) + [Crossed] else [Crossed]
  }

  /** The expanded slots, concatenated. */
  function Flatten(sel: seq<int>, clue: seq<nat>): seq<int>
    requires SlotsFit(sel, clue)
  {
    if sel == [] then [] else Piece(sel[0], clue) + Flatten(sel[1..], clue)
  }

  /** The line a combination stands for: the flattened slots without their last cell. */
  function Layout(c: seq<nat>, clue: seq<nat>, m: nat): seq<int>
    requires |c| == |clue|
  {
    var f := Flatten(Slots(c, m), clue);
    if f == [] then [] else f[..|f| - 1]
  }

  /** Free cells once every run is separated from the next by exactly one crossed cell. */
  function Slack(clue: seq<nat>, size: nat): int {
    size - Sum(clue) - (|clue| - 1)
  }

  /** The slots the enumeration chooses from: range(n_groups + n_empty). */
  function SlotCount(clue: seq<nat>, size: nat): nat {
    var m := |clue| + Slack(clue, size);
    if m < 0 then 0 else m
  }

  /** Every candidate line for one clue, in the order the repository generates them. */
  function Generate(clue: seq<nat>, size: nat): seq<seq<int>> {
    var m := SlotCount(clue, size);
    var combos := Combinations(0, m, |clue|);
    seq(|combos|, i requires 0 <= i < |combos| => Layout(combos[i], clue, m))
  }

  /** The candidates of every line: one list per clue. */
  function GenerateAll(values: seq<seq<nat>>, size: nat): (r: seq<seq<seq<int>>>)
    ensures |r| == |values| && forall i :: 0 <= i < |r| ==> r[i] == Generate(values[i], size)
  {
    seq(|values|, i requires 0 <= i < |values| => Generate(values[i], size))
  }

  /**
    `is_possible`: adding the line and the candidate cell by cell (up to the
    shorter of the two) must never give 0.
   */
  predicate IsPossible(actual: seq<int>, p: seq<int>) {
    forall i :: 0 <= i < |actual| && i < |p| ==> actual[i] + p[i] != 0
  }

  // ---------------------------------------------------------------------
  // Properties of the enumeration

  /** A clue all of whose runs are at least one cell long. */
  predicate PositiveRuns(clue: seq<nat>) {
    forall i :: 0 <= i < |clue| ==> clue[i] > 0
  }

  /**
    Every candidate has exactly `size` cells, every one filled or crossed,
    and its filled runs are the non-zero numbers of the clue, in order: the
    clue itself when no run is empty.
   */
  lemma GenerateSound(clue: seq<nat>, size: nat, i: nat)
    requires i < |Generate(clue, size)|
    ensures |Generate(clue, size)[i]| == size
    ensures AllDecided(Generate(clue, size)[i])
    ensures Segments(Generate(clue, size)[i]) == NonZero(clue)
    ensures PositiveRuns(clue) ==> Segments(Generate(clue, size)[i]) == clue
  {
    var m := SlotCount(clue, size);
    var c := Combinations(0, m, |clue|)[i];
    assert Generate(clue, size)[i] == Layout(c, clue, m);
    LayoutSound(c, clue, size);
  }

  lemma LayoutSound(c: seq<nat>, clue: seq<nat>, size: nat)
    requires IsCombination(c, 0, SlotCount(clue, size), |clue|)
    ensures |Layout(c, clue, SlotCount(clue, size))| == size
    ensures AllDecided(Layout(c, clue, SlotCount(clue, size)))
    ensures Segments(Layout(c, clue, SlotCount(clue, size))) == NonZero(clue)
    ensures PositiveRuns(clue) ==> Segments(Layout(c, clue, SlotCount(clue, size))) == clue
  {
    var m := SlotCount(clue, size);
    CombinationBound(c, 0, m, |clue|);
    assert m == size - Sum(clue) + 1;
    FlattenOfCombination(c, m, clue);
    var f := Flatten(Slots(c, m), clue);
    FlattenDrop(f, size);
    assert Layout(c, clue, m) == f[..|f| - 1];
    if PositiveRuns(clue) {
      NonZeroOfPositive(clue);
    }
  }

  lemma FlattenOfCombination(c: seq<nat>, m: nat, clue: seq<nat>)
    requires IsCombination(c, 0, m, |clue|)
    ensures SlotsFit(Slots(c, m), clue)
    ensures |Flatten(Slots(c, m), clue)| == m + Sum(clue)
    ensures AllDecided(Flatten(Slots(c, m), clue))
    ensures m > 0 ==> Flatten(Slots(c, m), clue)[|Flatten(Slots(c, m), clue)| - 1] == Crossed
    ensures Segments(Flatten(Slots(c, m), clue)) == NonZero(clue)
  {
    var sel := Slots(c, m);
    ChosenOfSlots(c, m, clue);
    assert clue[..|c|] == clue;
    FlattenShape(sel, clue);
    FlattenSegments(sel, clue);
  }

  lemma FlattenDrop(f: seq<int>, size: nat)
    requires |f| == size + 1 && AllDecided(f) && f[|f| - 1] == Crossed
    ensures var line := f[..|f| - 1];
      |line| == size && AllDecided(line) && Segments(line) == Segments(f)
  {
    var line := f[..|f| - 1];
    assert f == line + [f[|f| - 1]];
    SegmentsDropSeparator(line, f[|f| - 1]);
  }

  /**
    The converse of GenerateSound: every line of `size` cells, all filled or
    crossed, whose runs are the clue is among the candidates; so is the
    all-crossed line for the clue [0] that an empty line carries in the game
    class.
   */
  lemma GenerateComplete(clue: seq<nat>, line: seq<int>)
    requires AllDecided(line)
    requires Segments(line) == clue || (clue == [0] && Segments(line) == [])
    ensures line in Generate(clue, |line|)
  {
    var size := |line|;
    SegmentsMeaning(line);
    if clue == [0] && Segments(line) == [] {
      GenerateNonEmpty(clue, size);
      assert Sum(clue) == 0 by { assert clue[1..] == []; }
      GenerateSound(clue, size, 0);
      var p := Generate(clue, size)[0];
      assert NonZero(clue) == [] by { assert clue[1..] == []; }
      SegmentsMeaning(p);
      NoFilledIsCrossed(p);
      NoFilledIsCrossed(line);
      assert p == line;
    } else {
      var f := line + [Crossed];
      SegmentsDropSeparator(line, Crossed);
      var m := SlotCount(clue, size);
      assert m == size - Sum(clue) + 1;
      var c := FlattenComplete(f, clue, m);
      CombinationsComplete(c, 0, m, |clue|);
      var combos := Combinations(0, m, |clue|);
      var i :| 0 <= i < |combos| && combos[i] == c;
      assert f[..|f| - 1] == line;
      assert Generate(clue, size)[i] == line;
    }
  }

  /** A decided line without a filled cell is all crossed. */
  lemma {:induction false} NoFilledIsCrossed(line: seq<int>)
    requires AllDecided(line) && Count(line, Filled) == 0
    ensures line == Repeat(Crossed, |line|)
  {
    if line != [] {
      NoFilledIsCrossed(line[1..]);
      assert line == [line[0]] + line[1..];
    }
  }

  /** Every k-element combination of range(lo, n) is enumerated. */
  lemma {:induction false} CombinationsComplete(c: seq<nat>, lo: nat, n: nat, k: nat)
    requires IsCombination(c, lo, n, k)
    ensures c in Combinations(lo, n, k)
    decreases n - lo
  {
    if k > 0 {
      CombinationBound(c, lo, n, k);
      if c[0] == lo {
        CombinationTail(c, lo, n, k);
        CombinationsComplete(c[1..], lo + 1, n, k - 1);
        InFirstHalf(c, lo, n, k);
      } else {
        CombinationRaise(c, lo, n, k);
        CombinationsComplete(c, lo + 1, n, k);
        InSecondHalf(c, lo, n, k);
      }
    }
  }

  /** The combinations that start with lo come first. */
  lemma InFirstHalf(c: seq<nat>, lo: nat, n: nat, k: nat)
    requires k > 0 && lo < n && |c| == k && c[0] == lo
    requires c[1..] in Combinations(lo + 1, n, k - 1)
    ensures c in Combinations(lo, n, k)
  {
    var first := Combinations(lo + 1, n, k - 1);
    var j :| 0 <= j < |first| && first[j] == c[1..];
    assert c == [lo] + c[1..];
    assert Combinations(lo, n, k)[j] == c;
  }

  /** The combinations that do not start with lo come after them. */
  lemma InSecondHalf(c: seq<nat>, lo: nat, n: nat, k: nat)
    requires k > 0 && lo < n
    requires c in Combinations(lo + 1, n, k)
    ensures c in Combinations(lo, n, k)
  {
    var first := Combinations(lo + 1, n, k - 1);
    var rest := Combinations(lo + 1, n, k);
    var j :| 0 <= j < |rest| && rest[j] == c;
    assert Combinations(lo, n, k)[|first| + j] == c;
  }

  /** Without its first element, a combination starting at lo is one of range(lo + 1, n). */
  lemma CombinationTail(c: seq<nat>, lo: nat, n: nat, k: nat)
    requires IsCombination(c, lo, n, k) && k > 0
    ensures IsCombination(c[1..], lo + 1, n, k - 1)
  {
    forall j | 0 <= j < k - 1 ensures lo + 1 <= c[1..][j] {
      AboveIndex(c, lo, j + 1);
    }
  }

  /** A combination that does not start at lo is one of range(lo + 1, n). */
  lemma CombinationRaise(c: seq<nat>, lo: nat, n: nat, k: nat)
    requires IsCombination(c, lo, n, k) && k > 0 && c[0] != lo
    ensures IsCombination(c, lo + 1, n, k)
  {
    forall j | 0 < j < k ensures lo + 1 <= c[j] {
      AboveIndex(c, lo, j);
    }
  }

  /**
    A decided line that ends in a crossed cell, whose runs are the (positive)
    clue and whose length leaves m slots, is the flattening of some
    combination of |clue| of the m slots: the last slot is either an empty
    slot (a crossed cell) or the slot of the last run.
   */
  lemma {:induction false} FlattenComplete(f: seq<int>, clue: seq<nat>, m: nat) returns (c: seq<nat>)
    requires AllDecided(f) && (f != [] ==> f[|f| - 1] == Crossed)
    requires Segments(f) == clue && |f| == m + Sum(clue)
    ensures IsCombination(c, 0, m, |clue|) && SlotsFit(Slots(c, m), clue)
    ensures Flatten(Slots(c, m), clue) == f
    decreases |f|, 1
  {
    if f == [] {
      c := [];
      assert Slots(c, m) == [];
    } else if |f| >= 2 && f[|f| - 2] == Filled {
      c := CompleteLastRun(f, clue, m);
    } else {
      c := CompleteLastEmpty(f, clue, m);
    }
  }

  /** The last slot is empty: the line without its last crossed cell, then one empty slot. */
  lemma {:induction false} CompleteLastEmpty(f: seq<int>, clue: seq<nat>, m: nat) returns (c: seq<nat>)
    requires AllDecided(f) && f != [] && f[|f| - 1] == Crossed && !(|f| >= 2 && f[|f| - 2] == Filled)
    requires Segments(f) == clue && |f| == m + Sum(clue)
    ensures IsCombination(c, 0, m, |clue|) && SlotsFit(Slots(c, m), clue)
    ensures Flatten(Slots(c, m), clue) == f
    decreases |f|, 0
  {
    SlotsNeeded(f, m);
    var h := f[..|f| - 1];
    assert f == h + [Crossed];
    SegmentsDropSeparator(h, Crossed);
    c := FlattenComplete(h, clue, m - 1);
    AddEmptySlot(c, m, clue);
  }

  /** The last slot holds the last run: the line before that run, then the run's slot. */
  lemma {:induction false} CompleteLastRun(f: seq<int>, clue: seq<nat>, m: nat) returns (c: seq<nat>)
    requires AllDecided(f) && |f| >= 2 && f[|f| - 1] == Crossed && f[|f| - 2] == Filled
    requires Segments(f) == clue && |f| == m + Sum(clue)
    ensures IsCombination(c, 0, m, |clue|) && SlotsFit(Slots(c, m), clue)
    ensures Flatten(Slots(c, m), clue) == f
    decreases |f|, 0
  {
    SlotsNeeded(f, m);
    var g, r := SplitLastRun(f);
    var clue' := Segments(g);
    var c' := FlattenComplete(g, clue', m - 1);
    c := AddRunSlot(c', m, clue', r);
  }

  /** A line that ends in a crossed cell has at least one slot beyond its filled cells. */
  lemma SlotsNeeded(f: seq<int>, m: nat)
    requires f != [] && f[|f| - 1] == Crossed && |f| == m + Sum(Segments(f))
    ensures m >= 1
  {
    var h := f[..|f| - 1];
    assert f == h + [Crossed];
    CountSnoc(h, Crossed, Filled);
    SegmentsMeaning(f);
  }

  /**
    A line ending in a run and a crossed cell: what comes before the run,
    whose runs are all but the last, and the run.
   */
  lemma SplitLastRun(f: seq<int>) returns (g: seq<int>, r: nat)
    requires AllDecided(f) && |f| >= 2 && f[|f| - 1] == Crossed && f[|f| - 2] == Filled
    ensures r > 0 && f == g + Ones(r) + [Crossed] && AllDecided(g)
    ensures g != [] ==> g[|g| - 1] == Crossed
    ensures Segments(f) == Segments(g) + [r] && Sum(Segments(f)) == Sum(Segments(g)) + r
  {
    var h := f[..|f| - 1];
    var j := RunStart(h);
    g := h[..j];
    r := |h| - j;
    assert h == g + Ones(r);
    assert f == h + [Crossed];
    SegmentsLastRun(g, r);
    SumAppend(Segments(g), [r]);
    assert Sum([r]) == r by { assert [r][1..] == []; }
  }

  /** An empty last slot adds one crossed cell. */
  lemma AddEmptySlot(c: seq<nat>, m: nat, clue: seq<nat>)
    requires m > 0 && IsCombination(c, 0, m - 1, |clue|) && SlotsFit(Slots(c, m - 1), clue)
    ensures IsCombination(c, 0, m, |clue|) && SlotsFit(Slots(c, m), clue)
    ensures Flatten(Slots(c, m), clue) == Flatten(Slots(c, m - 1), clue) + [Crossed]
  {
    SlotsLastEmpty(c, m);
    FlattenAppend(Slots(c, m - 1), [-1], clue);
    assert Flatten([-1], clue) == [Crossed];
  }

  /** Choosing the last slot for one more run r adds the run and its crossed cell. */
  lemma AddRunSlot(c': seq<nat>, m: nat, clue': seq<nat>, r: nat) returns (c: seq<nat>)
    requires m > 0 && IsCombination(c', 0, m - 1, |clue'|) && SlotsFit(Slots(c', m - 1), clue')
    ensures c == c' + [m - 1]
    ensures IsCombination(c, 0, m, |clue'| + 1) && SlotsFit(Slots(c, m), clue' + [r])
    ensures Flatten(Slots(c, m), clue' + [r]) == Flatten(Slots(c', m - 1), clue') + Ones(r) + [Crossed]
  {
    c := c' + [m - 1];
    CombinationSnoc(c', m);
    assert c[..|c| - 1] == c';
    SlotsLastChosen(c, m);
    FlattenLastRun(Slots(c', m - 1), clue', r);
  }

  /** A combination of range(m - 1) with m - 1 added is a combination of range(m). */
  lemma CombinationSnoc(c': seq<nat>, m: nat)
    requires m > 0 && IsCombination(c', 0, m - 1, |c'|)
    ensures IsCombination(c' + [m - 1], 0, m, |c'| + 1)
  {
  }

  /** A last slot holding one more run r adds the run and its crossed cell. */
  lemma FlattenLastRun(sel: seq<int>, clue': seq<nat>, r: nat)
    requires SlotsFit(sel, clue')
    ensures SlotsFit(sel + [|clue'|], clue' + [r])
    ensures Flatten(sel + [|clue'|], clue' + [r]) == Flatten(sel, clue') + Ones(r) + [Crossed]
  {
    var clue := clue' + [r];
    FlattenWiderClue(sel, clue', clue);
    FlattenAppend(sel, [|clue'|], clue);
    assert Flatten([|clue'|], clue) == Ones(r) + [Crossed];
  }

  /** Where the run of filled cells at the end of s starts. */
  function RunStart(s: seq<int>): (j: nat)
    ensures j <= |s| && (forall i :: j <= i < |s| ==> s[i] == Filled)
    ensures j > 0 ==> s[j - 1] != Filled
  {
    if s == [] || s[|s| - 1] != Filled then |s| else RunStart(s[..|s| - 1])
  }

  /** A run of r > 0 filled cells after an empty line or a crossed cell, then a crossed cell: one more run. */
  lemma SegmentsLastRun(g: seq<int>, r: nat)
    requires r > 0 && (g == [] || g[|g| - 1] != Filled)
    ensures Segments(g + Ones(r) + [Crossed]) == Segments(g) + [r]
  {
    var p := Pieces(g, Filled);
    PiecesEndOpen(g);
    var init := p[..|p| - 1];
    assert p == init + [0];
    PiecesRunAfter(g, r);
    NonZeroRunThenZero(init, r);
  }

  /** The last piece of a line that is empty or ends in a separator is empty. */
  lemma PiecesEndOpen(g: seq<int>)
    requires g == [] || g[|g| - 1] != Filled
    ensures Pieces(g, Filled)[|Pieces(g, Filled)| - 1] == 0
  {
    if g != [] {
      assert g[..|g| - 1] + [g[|g| - 1]] == g;
      PiecesSnoc(g[..|g| - 1], g[|g| - 1], Filled);
    }
  }

  lemma PiecesRunAfter(g: seq<int>, r: nat)
    requires Pieces(g, Filled)[|Pieces(g, Filled)| - 1] == 0
    ensures var p := Pieces(g, Filled);
      Pieces(g + Ones(r) + [Crossed], Filled) == p[..|p| - 1] + [r, 0]
  {
    var t := Ones(r) + [Crossed];
    PiecesRunCross(r);
    assert g + Ones(r) + [Crossed] == g + t;
    PiecesAppend(g, t, Filled);
    JoinRun(Pieces(g, Filled), r);
  }

  lemma PiecesRunCross(r: nat)
    ensures Pieces(Ones(r) + [Crossed], Filled) == [r, 0]
  {
    PiecesRunThenSeparator(r, Crossed, [], Filled);
    assert Ones(r) + [Crossed] + [] == Ones(r) + [Crossed];
  }

  lemma JoinRun(p: seq<nat>, r: nat)
    requires p != [] && p[|p| - 1] == 0
    ensures Join(p, [r, 0]) == p[..|p| - 1] + [r, 0]
  {
  }

  lemma NonZeroRunThenZero(init: seq<nat>, r: nat)
    requires r > 0
    ensures NonZero(init + [r, 0]) == NonZero(init + [0]) + [r]
  {
    assert init + [r, 0] == (init + [r]) + [0];
    NonZeroAppend(init + [r], [0]);
    NonZeroAppend(init, [r]);
    NonZeroAppend(init, [0]);
    assert NonZero([0]) == [] by { assert [0][1..] == []; }
    assert NonZero([r]) == [r] by { assert [r][1..] == []; }
  }

  /** Slots that name runs of a prefix of the clue flatten the same against the whole clue. */
  lemma {:induction false} FlattenWiderClue(sel: seq<int>, clue': seq<nat>, clue: seq<nat>)
    requires SlotsFit(sel, clue') && clue' <= clue
    ensures SlotsFit(sel, clue) && Flatten(sel, clue) == Flatten(sel, clue')
  {
    if sel != [] {
      FlattenWiderClue(sel[1..], clue', clue);
    }
  }

  /** There are C(k + slack, k) candidates, none at all when the slack is negative. */
  lemma GenerateCount(clue: seq<nat>, size: nat)
    ensures Slack(clue, size) >= 0 ==> |Generate(clue, size)| == Binomial(|clue| + Slack(clue, size), |clue|)
    ensures Slack(clue, size) < 0 ==> Generate(clue, size) == []
  {
    var m := SlotCount(clue, size);
    if Slack(clue, size) < 0 {
      BinomialVanishes(m, |clue|);
    }
  }

  /** A clue has a candidate exactly when it fits its line. */
  lemma GenerateNonEmpty(clue: seq<nat>, size: nat)
    ensures Generate(clue, size) != [] <==> Slack(clue, size) >= 0
  {
    GenerateCount(clue, size);
    if Slack(clue, size) >= 0 {
      BinomialPositive(|clue| + Slack(clue, size), |clue|);
    }
  }

  /**
    Clue [3] on five cells: the three placements of the run, in the order of
    the enumeration.
   */
  lemma GenerateExample()
    ensures Generate([3], 5) == [[1, 1, 1, -1, -1], [-1, 1, 1, 1, -1], [-1, -1, 1, 1, 1]]
  {
    assert SlotCount([3], 5) == 3;
    ExampleCombinations();
    ExampleLayouts();
  }

  lemma ExampleCombinations()
    ensures Combinations(0, 3, 1) == [[0], [1], [2]]
  {
    assert Combinations(3, 3, 1) == [];
    assert [2] + [] == [2];
    assert Prepend(2, [[]]) == [[2]];
    assert Combinations(2, 3, 1) == [[2]];
    assert [1] + [] == [1];
    assert Prepend(1, [[]]) == [[1]];
    assert Combinations(1, 3, 1) == [[1], [2]];
    assert [0] + [] == [0];
    assert Prepend(0, [[]]) == [[0]];
  }

  lemma ExampleLayouts()
    ensures Layout([0], [3], 3) == [1, 1, 1, -1, -1]
    ensures Layout([1], [3], 3) == [-1, 1, 1, 1, -1]
    ensures Layout([2], [3], 3) == [-1, -1, 1, 1, 1]
  {
    assert Slots([0], 3) == [0, -1, -1];
    assert Slots([1], 3) == [-1, 0, -1];
    assert Slots([2], 3) == [-1, -1, 0];
    assert Ones(3) == [1, 1, 1];
    assert Flatten([-1], [3]) == [-1];
    assert Flatten([0], [3]) == [1, 1, 1, -1];
    assert Flatten([-1, -1], [3]) == [-1, -1];
    assert Flatten([-1, 0], [3]) == [-1, 1, 1, 1, -1];
    assert Flatten([0, -1, -1], [3]) == [1, 1, 1, -1, -1, -1];
    assert Flatten([-1, 0, -1], [3]) == [-1, 1, 1, 1, -1, -1];
    assert Flatten([-1, -1, 0], [3]) == [-1, -1, 1, 1, 1, -1];
  }

  /**
    The known cells decide `is_possible`: for a line of grid values and a
    candidate of the same length, the candidate is possible exactly when it
    agrees with every cell that is not unknown.
   */
  lemma IsPossibleMeaning(actual: seq<int>, p: seq<int>)
    requires AllCells(actual) && AllDecided(p) && |actual| == |p|
    ensures IsPossible(actual, p) <==> forall i :: 0 <= i < |p| && actual[i] != Unknown ==> actual[i] == p[i]
  {
  }

  /** An all-unknown line admits every candidate; every candidate admits itself. */
  lemma IsPossibleTrivial(p: seq<int>)
    requires AllDecided(p)
    ensures IsPossible(Repeat(Unknown, |p|), p)
    ensures IsPossible(p, p)
  {
  }

  // ---------------------------------------------------------------------
  // Helpers for the enumeration

  lemma BinomialVanishes(n: nat, k: nat)
    requires k > n
    ensures Binomial(n, k) == 0
  {
  }

  lemma {:induction false} BinomialPositive(n: nat, k: nat)
    requires k <= n
    ensures Binomial(n, k) > 0
  {
    if k > 0 {
      BinomialPositive(n - 1, k - 1);
    }
  }

  /** The runs of the chosen slots, in slot order. */
  function ChosenClues(sel: seq<int>, clue: seq<nat>): seq<nat>
    requires SlotsFit(sel, clue)
  {
    if sel == [] then []
    else (if sel[0] > -1 then [clue[sel[0]]] else []) + ChosenClues(sel[1..], clue)
  }

  lemma {:induction false} ChosenCluesSnoc(sel: seq<int>, v: int, clue: seq<nat>)
    requires SlotsFit(sel, clue) && v < |clue|
    ensures SlotsFit(sel + [v], clue)
    ensures ChosenClues(sel + [v], clue) == ChosenClues(sel, clue) + (if v > -1 then [clue[v]] else [])
  {
    assert forall i :: 0 <= i < |sel| ==> sel[i] == (sel + [v])[i];
    if sel == [] {
      assert [] + [v] == [v];
    } else {
      assert (sel + [v])[1..] == sel[1..] + [v];
      ChosenCluesSnoc(sel[1..], v, clue);
    }
  }

  /** Length, values and trailing separator of the flattened slots. */
  lemma {:induction false} FlattenShape(sel: seq<int>, clue: seq<nat>)
    requires SlotsFit(sel, clue)
    ensures |Flatten(sel, clue)| == |sel| + Sum(ChosenClues(sel, clue))
    ensures AllDecided(Flatten(sel, clue))
    ensures sel != [] ==> Flatten(sel, clue)[|Flatten(sel, clue)| - 1] == Crossed
  {
    if sel != [] {
      var rest := sel[1..];
      FlattenShape(rest, clue);
      var p := Piece(sel[0], clue);
      var tail := Flatten(rest, clue);
      assert Flatten(sel, clue) == p + tail;
      var head: seq<nat> := if sel[0] > -1 then [clue[sel[0]]] else [];
      assert ChosenClues(sel, clue) == head + ChosenClues(rest, clue);
      SumAppend(head, ChosenClues(rest, clue));
      assert AllDecided(p);
    }
  }

  /** The runs of the flattened slots are the runs of the chosen slots (empty runs vanish). */
  lemma {:induction false} FlattenSegments(sel: seq<int>, clue: seq<nat>)
    requires SlotsFit(sel, clue)
    ensures Segments(Flatten(sel, clue)) == NonZero(ChosenClues(sel, clue))
  {
    if sel != [] {
      var rest := sel[1..];
      FlattenSegments(rest, clue);
      var p := Piece(sel[0], clue);
      var tail := Flatten(rest, clue);
      var r: nat := if sel[0] > -1 then clue[sel[0]] else 0;
      var head: seq<nat> := if sel[0] > -1 then [clue[sel[0]]] else [];
      assert p == Repeat(Filled, r) + [Crossed];
      assert Flatten(sel, clue) == Repeat(Filled, r) + [Crossed] + tail;
      PiecesRunThenSeparator(r, Crossed, tail, Filled);
      assert Segments(Flatten(sel, clue)) == NonZero([r] + Pieces(tail, Filled));
      NonZeroAppend([r], Pieces(tail, Filled));
      assert ChosenClues(sel, clue) == head + ChosenClues(rest, clue);
      NonZeroAppend(head, ChosenClues(rest, clue));
      assert NonZero([r]) == NonZero(head);
    }
  }

  lemma {:induction false} SlotOfMissing(c: seq<nat>, i: nat)
    requires forall j :: 0 <= j < |c| ==> c[j] != i
    ensures SlotOf(c, i) == -1
  {
    if c != [] {
      SlotOfMissing(c[..|c| - 1], i);
    }
  }

  /**
    For a combination of k slots out of m, the chosen slots hold the runs
    0, 1, ..., k - 1 from left to right.
   */
  lemma {:induction false} ChosenOfSlots(c: seq<nat>, m: nat, clue: seq<nat>)
    requires IsCombination(c, 0, m, |c|) && |c| <= |clue|
    ensures SlotsFit(Slots(c, m), clue)
    ensures ChosenClues(Slots(c, m), clue) == clue[..|c|]
  {
    if m == 0 {
      assert c == [];
      assert Slots(c, m) == [];
    } else {
      var k := |c|;
      if c != [] && c[k - 1] == m - 1 {
        var c' := c[..k - 1];
        SlotsLastChosen(c, m);
        ChosenOfSlots(c', m - 1, clue);
        ChosenCluesSnoc(Slots(c', m - 1), k - 1, clue);
        assert clue[..k - 1] + [clue[k - 1]] == clue[..k];
      } else {
        SlotsLastEmpty(c, m);
        ChosenOfSlots(c, m - 1, clue);
        ChosenCluesSnoc(Slots(c, m - 1), -1, clue);
      }
    }
  }

  /** When the last slot holds the last run, the other slots are a combination of one run fewer. */
  lemma SlotsLastChosen(c: seq<nat>, m: nat)
    requires IsCombination(c, 0, m, |c|) && c != [] && c[|c| - 1] == m - 1
    ensures IsCombination(c[..|c| - 1], 0, m - 1, |c| - 1)
    ensures Slots(c, m) == Slots(c[..|c| - 1], m - 1) + [|c| - 1]
  {
    var k := |c|;
    var c' := c[..k - 1];
    forall j | 0 <= j < k - 1 ensures c'[j] < m - 1 {
      IncreasingBelowLast(c, j + 1);
    }
    var sel := Slots(c, m);
    forall i | 0 <= i < m - 1 ensures sel[i] == Slots(c', m - 1)[i] {
      assert c[k - 1] != i;
    }
  }

  /** When the last slot is not chosen, it is empty and the combination fits one slot fewer. */
  lemma SlotsLastEmpty(c: seq<nat>, m: nat)
    requires m > 0 && IsCombination(c, 0, m, |c|) && !(c != [] && c[|c| - 1] == m - 1)
    ensures IsCombination(c, 0, m - 1, |c|)
    ensures Slots(c, m) == Slots(c, m - 1) + [-1]
  {
    var k := |c|;
    if k > 0 {
      forall j | 0 <= j < k ensures c[j] < m - 1 {
        IncreasingBelowLast(c, j);
      }
    }
    SlotOfMissing(c, m - 1);
  }

  /** k strictly increasing values in [lo, n) need k <= n - lo. */
  lemma CombinationBound(c: seq<nat>, lo: nat, n: nat, k: nat)
    requires IsCombination(c, lo, n, k)
    ensures lo + k <= n || k == 0
  {
    if k > 0 {
      AboveIndex(c, lo, k - 1);
    }
  }

  lemma {:induction false} AboveIndex(c: seq<nat>, lo: nat, j: nat)
    requires j < |c| && (forall i :: 0 <= i < |c| ==> lo <= c[i]) && forall i :: 0 < i < |c| ==> c[i - 1] < c[i]
    ensures c[j] >= lo + j
  {
    if j > 0 {
      AboveIndex(c, lo, j - 1);
    }
  }

  lemma {:induction false} IncreasingBelowLast(c: seq<nat>, j: nat)
    requires j < |c| && forall i :: 0 < i < |c| ==> c[i - 1] < c[i]
    ensures c[j] <= c[|c| - 1]
    decreases |c| - j
  {
    if j < |c| - 1 {
      IncreasingBelowLast(c, j + 1);
    }
  }

  // ---------------------------------------------------------------------
  // A clue that leaves no slack

  /** lo, lo + 1, ..., hi - 1. */
  function Range(lo: nat, hi: nat): (r: seq<nat>)
    ensures |r| == if lo <= hi then hi - lo else 0
    ensures forall i :: 0 <= i < |r| ==> r[i] == lo + i
    decreases hi - lo
  {
    if lo >= hi then [] else [lo] + Range(lo + 1, hi)
  }

  lemma CombinationsTooMany(lo: nat, n: nat, k: nat)
    requires lo + k > n && k > 0
    ensures Combinations(lo, n, k) == []
  {
    BinomialVanishes(if lo <= n then n - lo else 0, k);
  }

  /** Choosing as many slots as there are: the only combination is the whole range. */
  lemma {:induction false} CombinationsAll(lo: nat, n: nat)
    requires lo <= n
    ensures Combinations(lo, n, n - lo) == [Range(lo, n)]
    decreases n - lo
  {
    if lo < n {
      CombinationsAll(lo + 1, n);
      CombinationsTooMany(lo + 1, n, n - lo);
      assert Prepend(lo, [Range(lo + 1, n)]) == [[lo] + Range(lo + 1, n)];
    }
  }

  lemma {:induction false} SlotOfRange(k: nat, i: nat)
    requires i < k
    ensures SlotOf(Range(0, k), i) == i
  {
    var c := Range(0, k);
    if c[k - 1] != i {
      assert c[..k - 1] == Range(0, k - 1);
      SlotOfRange(k - 1, i);
    }
  }

  /** Flattening two runs of slots one after the other. */
  lemma {:induction false} FlattenAppend(a: seq<int>, b: seq<int>, clue: seq<nat>)
    requires SlotsFit(a, clue) && SlotsFit(b, clue)
    ensures SlotsFit(a + b, clue)
    ensures Flatten(a + b, clue) == Flatten(a, clue) + Flatten(b, clue)
  {
    var ab := a + b;
    assert SlotsFit(ab, clue) by {
      forall i | 0 <= i < |ab| ensures ab[i] < |clue| {
        if i >= |a| {
          assert ab[i] == b[i - |a|];
        }
      }
    }
    if a == [] {
      assert ab == b;
    } else {
      assert ab[0] == a[0] && ab[1..] == a[1..] + b;
      FlattenAppend(a[1..], b, clue);
    }
  }

  /** Empty slots flatten to as many crossed cells. */
  lemma {:induction false} FlattenEmpty(t: nat, clue: seq<nat>)
    ensures SlotsFit(Repeat(-1, t), clue)
    ensures Flatten(Repeat(-1, t), clue) == Repeat(Crossed, t)
  {
    if t > 0 {
      assert Repeat(-1, t)[1..] == Repeat(-1, t - 1);
      FlattenEmpty(t - 1, clue);
    }
  }

  /** A clue of one run: the combination [s] puts the run on cells s .. s + r - 1. */
  lemma SingleRunLayout(s: nat, r: nat, m: nat, i: nat)
    requires s < m && s <= i < s + r
    ensures i < |Layout([s], [r], m)| && Layout([s], [r], m)[i] == Filled
  {
    var sel := Slots([s], m);
    var before := Repeat(-1, s);
    var after := Repeat(-1, m - 1 - s);
    assert sel == before + [0] + after;
    FlattenEmpty(s, [r]);
    FlattenEmpty(m - 1 - s, [r]);
    FlattenAppend(before, [0], [r]);
    FlattenAppend(before + [0], after, [r]);
    assert Flatten([0], [r]) == Ones(r) + [Crossed];
    var f := Flatten(sel, [r]);
    assert f == Repeat(Crossed, s) + (Ones(r) + [Crossed]) + Repeat(Crossed, m - 1 - s);
    assert f[i] == Filled;
  }
}
