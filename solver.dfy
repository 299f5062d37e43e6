/**
  The solver of pyNonogram/solver.py and its CPU copy in src/solver.py.

  A `Solver` drives the grid of one puzzle: it writes the shared 2-D array
  cell by cell, as the repository's solvers do through `set_cell`, and keeps
  one list of candidate lines per row and per column. `conv` says which
  grid class is behind the puzzle: the package's NonogramGrid (a line
  without a filled cell reads []) or the game class of src/game.py (it
  reads [0]); the checks that decide "solved" use that convention.

  Every operation is proved against the functions of module Passes: the
  new board (and the new candidate lists) are exactly what those functions
  compute from the old ones.
 */
module Solving {
  import opened Lines
  import opened Candidates
  import opened Boards
  import opened Checks
  import opened Heuristics
  import opened Passes
  import opened Results

  function Other(a: Axis): Axis {
    if a == Row then Col else Row
  }

  /** The refinement limit of the package's `run` when none is given. */
  const DefaultLimit: int := 250

  /** The fixed refinement limit of the `run` in src/solver.py. */
  const GameLimit: int := 1000

  /**
    The two lists of `fill_middle` for a run of r cells in a line of n:
    the run pushed to the left and the run pushed to the right.
   */
  method Pushed(n: nat, r: nat) returns (left: seq<int>, right: seq<int>)
    requires r <= n
    ensures |left| == n && |right| == n
    ensures forall j :: 0 <= j < n ==> left[j] == if j < r then 1 else 0
    ensures forall j :: 0 <= j < n ==> right[j] == if j >= n - r then 1 else 0
  {
    var leftOf := new int[n](_ => 0);
    var rightOf := new int[n](_ => 0);
    for k := 0 to r
      invariant forall j :: 0 <= j < n ==> leftOf[j] == if j < k then 1 else 0
      invariant forall j :: 0 <= j < n ==> rightOf[j] == if j >= n - k then 1 else 0
    {
      leftOf[k] := 1;
      rightOf[n - 1 - k] := 1;
    }
    left, right := leftOf[..], rightOf[..];
  }

  /**
    The tables of `fill_from_possibilities`: for each cell, whether no
    candidate crosses it and whether no candidate fills it.
   */
  method Occurrences(cands: seq<seq<int>>, n: nat) returns (all: seq<bool>, none: seq<bool>)
    requires SameLength(cands, n)
    ensures |all| == n && |none| == n
    ensures forall j :: 0 <= j < n ==> all[j] == AllFilledAt(cands, j)
    ensures forall j :: 0 <= j < n ==> none[j] == NoneFilledAt(cands, j)
  {
    var allOf := new bool[n](_ => true);
    var noneOf := new bool[n](_ => true);
    for k := 0 to |cands|
      invariant forall j :: 0 <= j < n ==> allOf[j] == AllFilledAt(cands[..k], j)
      invariant forall j :: 0 <= j < n ==> noneOf[j] == NoneFilledAt(cands[..k], j)
    {
      var p := cands[k];
      for x := 0 to |p|
        invariant forall j :: 0 <= j < x ==> allOf[j] == AllFilledAt(cands[..k + 1], j)
        invariant forall j :: 0 <= j < x ==> noneOf[j] == NoneFilledAt(cands[..k + 1], j)
        invariant forall j :: x <= j < n ==> allOf[j] == AllFilledAt(cands[..k], j)
        invariant forall j :: x <= j < n ==> noneOf[j] == NoneFilledAt(cands[..k], j)
      {
        FilledAtSnoc(cands, k, x);
        if p[x] == Filled {
          noneOf[x] := false;
        } else if p[x] == Crossed {
          allOf[x] := false;
        }
      }
    }
    assert cands[..|cands|] == cands;
    all, none := allOf[..], noneOf[..];
  }

  // ---------------------------------------------------------------------
  // The rules on one line

  /**
    One line of `find_full`: a single run as long as the line fills it
    (`fill_row` with overwriting); a clue that fits exactly is stamped by
    the cursor loop, whose last separator write raises IndexError, caught.
   */
  method FullLineWrite(g: array2<int>, a: Axis, i: nat, clue: seq<nat>)
    requires i < LineCount(g, a)
    modifies g
    ensures Snapshot(g) == old(Snapshot(g)).PutLine(a, i, FullLine(clue, old(Snapshot(g)).Line(a, i)))
  {
    ghost var b := Snapshot(g);
    ghost var l := b.Line(a, i);
    var n := LineLen(g, a);
    assert b.Len(a) == n && b.Count(a) == LineCount(g, a) && |l| == n;
    PutSameLine(b, a, i);
    if |clue| == 1 {
      if clue[0] == n {
        ghost var t := Ones(n);
        SpliceEnds(t, l);
        FillRun(g, a, i, 0, n, Filled, b, t, l);
      }
    } else if |clue| - 1 + Sum(clue) == n {
      StampLoop(g, a, i, clue, b, l);
    }
  }

  /** The cursor loop of `find_full` for a clue that fills its line exactly. */
  method StampLoop(g: array2<int>, a: Axis, i: nat, clue: seq<nat>, ghost b: Board, ghost l: seq<int>)
    requires i < LineCount(g, a) && |l| == LineLen(g, a) && |clue| - 1 + Sum(clue) == LineLen(g, a)
    requires b.Valid() && b.height == g.Length0 && b.width == g.Length1
    requires Snapshot(g) == b.PutLine(a, i, l)
    modifies g
    ensures Snapshot(g) == b.PutLine(a, i, Stamp(clue)[..LineLen(g, a)])
  {
    var n := LineLen(g, a);
    ghost var t := Stamp(clue)[..n];
    SpliceEnds(t, l);
    var cursor := 0;
    for s := 0 to |clue|
      invariant s < |clue| ==> cursor == Sum(clue[..s]) + s
      invariant s == |clue| ==> cursor == n
      invariant cursor <= n
      invariant Snapshot(g) == b.PutLine(a, i, t[..cursor] + l[cursor..])
    {
      cursor := StampRun(g, a, i, clue, s, cursor, b, l);
    }
  }

  /** One round of the cursor loop: run s is filled, then the cell after it is crossed if there is one. */
  method StampRun(g: array2<int>, a: Axis, i: nat, clue: seq<nat>, s: nat, cursor: nat, ghost b: Board, ghost l: seq<int>) returns (next: nat)
    requires i < LineCount(g, a) && |l| == LineLen(g, a) && |clue| - 1 + Sum(clue) == LineLen(g, a)
    requires s < |clue| && cursor == Sum(clue[..s]) + s && cursor <= LineLen(g, a)
    requires b.Valid() && b.height == g.Length0 && b.width == g.Length1
    requires Snapshot(g) == b.PutLine(a, i, Stamp(clue)[..LineLen(g, a)][..cursor] + l[cursor..])
    modifies g
    ensures s + 1 < |clue| ==> next == Sum(clue[..s + 1]) + s + 1
    ensures s + 1 == |clue| ==> next == LineLen(g, a)
    ensures next <= LineLen(g, a)
    ensures Snapshot(g) == b.PutLine(a, i, Stamp(clue)[..LineLen(g, a)][..next] + l[next..])
  {
    var n := LineLen(g, a);
    ghost var t := Stamp(clue)[..n];
    StampRunCells(clue, s, n, cursor);
    FillRun(g, a, i, cursor, clue[s], Filled, b, t, l);
    next := cursor + clue[s];
    if next < n {
      assert t[next] == Crossed;
      WriteNextCell(g, a, i, next, Crossed, b, t, l);
      next := next + 1;
    }
  }

  /** The cells run s of a clue without slack covers, and the cursor after it. */
  lemma StampRunCells(clue: seq<nat>, s: nat, n: nat, cursor: nat)
    requires |clue| - 1 + Sum(clue) == n && s < |clue| && cursor == Sum(clue[..s]) + s
    ensures cursor + clue[s] <= n
    ensures forall k :: cursor <= k < cursor + clue[s] ==> Stamp(clue)[..n][k] == Filled
    ensures cursor + clue[s] < n ==> Stamp(clue)[..n][cursor + clue[s]] == Crossed
    ensures s + 1 < |clue| ==> cursor + clue[s] < n && cursor + clue[s] + 1 == Sum(clue[..s + 1]) + s + 1
    ensures s + 1 == |clue| ==> cursor + clue[s] == n
  {
    StampAt(clue, s);
    SumPrefix(clue, s + 1);
  }

  /**
    One line of `fill_middle`: the cells covered both by the run pushed to
    the left and by the run pushed to the right are filled; an unknown
    cell elsewhere is rewritten with 0.
   */
  method MiddleLineWrite(g: array2<int>, a: Axis, i: nat, clue: seq<nat>)
    requires i < LineCount(g, a) && (MiddleFires(clue, LineLen(g, a)) ==> clue[0] <= LineLen(g, a))
    modifies g
    ensures Snapshot(g) == old(Snapshot(g)).PutLine(a, i, MiddleLine(clue, old(Snapshot(g)).Line(a, i)))
  {
    ghost var b := Snapshot(g);
    ghost var l := b.Line(a, i);
    var n := LineLen(g, a);
    assert b.Len(a) == n && b.Count(a) == LineCount(g, a) && |l| == n;
    PutSameLine(b, a, i);
    if |clue| == 1 && 2 * clue[0] > n {
      var left, right := Pushed(n, clue[0]);
      ghost var t := MiddleLine(clue, l);
      assert forall j :: 0 <= j < n ==> t[j] == if left[j] == 1 && right[j] == 1 then Filled else l[j];
      MiddleWriteLoop(g, a, i, left, right, b, t, l);
    }
  }

  /** The writing loop of `fill_middle` over one line, given the two pushed runs. */
  method MiddleWriteLoop(g: array2<int>, a: Axis, i: nat, left: seq<int>, right: seq<int>, ghost b: Board, ghost t: seq<int>, ghost l: seq<int>)
    requires i < LineCount(g, a) && |left| == |right| == |t| == |l| == LineLen(g, a)
    requires forall j :: 0 <= j < |t| ==> t[j] == if left[j] == 1 && right[j] == 1 then Filled else l[j]
    requires b.Valid() && b.height == g.Length0 && b.width == g.Length1
    requires Snapshot(g) == b.PutLine(a, i, l)
    modifies g
    ensures Snapshot(g) == b.PutLine(a, i, t)
  {
    var n := LineLen(g, a);
    SpliceEnds(t, l);
    for j := 0 to n
      invariant Snapshot(g) == b.PutLine(a, i, t[..j] + l[j..])
    {
      SpliceAt(b, a, i, t, l, j);
      if left[j] == 1 && right[j] == 1 {
        WriteNextCell(g, a, i, j, Filled, b, t, l);
      } else if ReadCell(g, a, i, j) == Unknown {
        WriteNextCell(g, a, i, j, Unknown, b, t, l);
      } else {
        KeepStep(t, l, j);
      }
    }
  }

  /**
    One line of `fill_from_possibilities`: a lone candidate is written
    cell by cell; with several, the tables of cells no candidate crosses
    and no candidate fills are built, and those cells are written.
   */
  method ConsensusLineWrite(g: array2<int>, a: Axis, i: nat, cands: seq<seq<int>>)
    requires i < LineCount(g, a) && SameLength(cands, LineLen(g, a))
    modifies g
    ensures Snapshot(g) == old(Snapshot(g)).PutLine(a, i, ConsensusLine(cands, old(Snapshot(g)).Line(a, i)))
  {
    ghost var b := Snapshot(g);
    ghost var l := b.Line(a, i);
    var n := LineLen(g, a);
    assert b.Len(a) == n && b.Count(a) == LineCount(g, a) && |l| == n;
    PutSameLine(b, a, i);
    if |cands| == 1 {
      var p := cands[0];
      SpliceEnds(p, l);
      for j := 0 to |p|
        invariant Snapshot(g) == b.PutLine(a, i, p[..j] + l[j..])
      {
        WriteNextCell(g, a, i, j, p[j], b, p, l);
      }
    } else if |cands| != 0 {
      var all, none := Occurrences(cands, n);
      ghost var t := ConsensusLine(cands, l);
      assert forall j :: 0 <= j < n ==> t[j] == if all[j] then Filled else if none[j] then Crossed else l[j];
      ConsensusWriteLoop(g, a, i, all, none, b, t, l);
    }
  }

  /** The writing loop of `fill_from_possibilities` over one line, given the two tables. */
  method ConsensusWriteLoop(g: array2<int>, a: Axis, i: nat, all: seq<bool>, none: seq<bool>, ghost b: Board, ghost t: seq<int>, ghost l: seq<int>)
    requires i < LineCount(g, a) && |all| == |none| == |t| == |l| == LineLen(g, a)
    requires forall j :: 0 <= j < |t| ==> t[j] == if all[j] then Filled else if none[j] then Crossed else l[j]
    requires b.Valid() && b.height == g.Length0 && b.width == g.Length1
    requires Snapshot(g) == b.PutLine(a, i, l)
    modifies g
    ensures Snapshot(g) == b.PutLine(a, i, t)
  {
    var n := LineLen(g, a);
    SpliceEnds(t, l);
    for j := 0 to n
      invariant Snapshot(g) == b.PutLine(a, i, t[..j] + l[j..])
    {
      if all[j] {
        WriteNextCell(g, a, i, j, Filled, b, t, l);
      } else if none[j] {
        WriteNextCell(g, a, i, j, Crossed, b, t, l);
      } else {
        KeepStep(t, l, j);
      }
    }
  }

  /** `fill_row(i, -1, False)` / `fill_col(i, -1, False)`: every unknown cell of the line is crossed. */
  method CrossUnknownWrite(g: array2<int>, a: Axis, i: nat)
    requires i < LineCount(g, a)
    modifies g
    ensures Snapshot(g) == old(Snapshot(g)).PutLine(a, i, CrossUnknown(old(Snapshot(g)).Line(a, i)))
  {
    ghost var b := Snapshot(g);
    ghost var l := b.Line(a, i);
    var n := LineLen(g, a);
    assert b.Len(a) == n && b.Count(a) == LineCount(g, a) && |l| == n;
    PutSameLine(b, a, i);
    ghost var t := CrossUnknown(l);
    SpliceEnds(t, l);
    for j := 0 to n
      invariant Snapshot(g) == b.PutLine(a, i, t[..j] + l[j..])
    {
      SpliceAt(b, a, i, t, l, j);
      if ReadCell(g, a, i, j) == Unknown {
        WriteNextCell(g, a, i, j, Crossed, b, t, l);
      } else {
        KeepStep(t, l, j);
      }
    }
  }

  /** One line of `fill_with_crosses`: a line that checks gets its unknown cells crossed. */
  method CrossLineWrite(g: array2<int>, a: Axis, i: nat, cv: Convention, clue: seq<nat>)
    requires i < LineCount(g, a)
    modifies g
    ensures Snapshot(g) == old(Snapshot(g)).PutLine(a, i, CrossIfSolved(cv, clue, old(Snapshot(g)).Line(a, i)))
  {
    if LineSolved(cv, Snapshot(g).Line(a, i), clue) {
      CrossUnknownWrite(g, a, i);
    } else {
      PutSameLine(Snapshot(g), a, i);
    }
  }

  /**
    One line of the top or left edge in `fill_edges`: when the edge cell is
    filled and the first run c is longer than 1, the c cells from the edge
    are filled, and the cell after them is crossed if it is unknown; past
    the end of the line the read raises IndexError, which is caught.
   */
  method FrontLineWrite(g: array2<int>, a: Axis, i: nat, c: nat)
    requires i < LineCount(g, a) && c <= LineLen(g, a)
    modifies g
    ensures Snapshot(g) == old(Snapshot(g)).PutLine(a, i, ExtendFront(old(Snapshot(g)).Line(a, i), c))
  {
    ghost var b := Snapshot(g);
    ghost var l := b.Line(a, i);
    var n := LineLen(g, a);
    if n > 0 && ReadCell(g, a, i, 0) == Filled && c > 1 {
      FrontRunWrite(g, a, i, c, b, l);
    } else {
      PutSameLine(b, a, i);
    }
  }

  /** The top or left edge when it fires: the run, then the probe after it. */
  method FrontRunWrite(g: array2<int>, a: Axis, i: nat, c: nat, ghost b: Board, ghost l: seq<int>)
    requires b == Snapshot(g) && i < b.Count(a) && l == b.Line(a, i) && c <= |l| && FrontFires(l, c)
    modifies g
    ensures Snapshot(g) == b.PutLine(a, i, ExtendFront(l, c))
  {
    ghost var t := ExtendFront(l, c);
    FrontTarget(l, c);
    PutSameLine(b, a, i);
    SpliceEnds(t, l);
    FillRun(g, a, i, 0, c, Filled, b, t, l);
    FrontProbeWrite(g, a, i, c, b, t, l);
  }

  /**
    The probe of the top or left edge once the run is filled: the cell after
    it, if the line has one, is crossed when it is unknown.
   */
  method FrontProbeWrite(g: array2<int>, a: Axis, i: nat, c: nat, ghost b: Board, ghost t: seq<int>, ghost l: seq<int>)
    requires b.Valid() && b.height == g.Length0 && b.width == g.Length1
    requires i < b.Count(a) && c <= b.Len(a) && |t| == |l| == b.Len(a)
    requires c < |t| ==> t[c] == if l[c] == Unknown then Crossed else l[c]
    requires forall k :: c < k < |t| ==> t[k] == l[k]
    requires Snapshot(g) == b.PutLine(a, i, t[..c] + l[c..])
    modifies g
    ensures Snapshot(g) == b.PutLine(a, i, t)
  {
    var n := LineLen(g, a);
    assert n == b.Len(a);
    if c < n {
      SpliceAt(b, a, i, t, l, c);
      if ReadCell(g, a, i, c) == Unknown {
        WriteNextCell(g, a, i, c, Crossed, b, t, l);
      } else {
        KeepStep(t, l, c);
      }
      TailKept(t, l, c + 1);
    } else {
      SpliceEnds(t, l);
    }
  }

  /**
    One line of the bottom or right edge: the mirror image, the run filled
    from the edge inwards and then the cell before it probed.
   */
  method BackLineWrite(g: array2<int>, a: Axis, i: nat, c: nat)
    requires i < LineCount(g, a) && c <= LineLen(g, a)
    modifies g
    ensures Snapshot(g) == old(Snapshot(g)).PutLine(a, i, ExtendBack(old(Snapshot(g)).Line(a, i), c))
  {
    ghost var b := Snapshot(g);
    ghost var l := b.Line(a, i);
    var n := LineLen(g, a);
    if n > 0 && ReadCell(g, a, i, n - 1) == Filled && c > 1 {
      BackRunWrite(g, a, i, c, b, l);
    } else {
      PutSameLine(b, a, i);
    }
  }

  /** The bottom or right edge when it fires: the run, then the probe before it. */
  method BackRunWrite(g: array2<int>, a: Axis, i: nat, c: nat, ghost b: Board, ghost l: seq<int>)
    requires b == Snapshot(g) && i < b.Count(a) && l == b.Line(a, i) && c <= |l| && BackFires(l, c)
    modifies g
    ensures Snapshot(g) == b.PutLine(a, i, ExtendBack(l, c))
  {
    ghost var t := ExtendBack(l, c);
    BackTarget(l, c);
    PutSameLine(b, a, i);
    FillBackRun(g, a, i, c, Filled, b, t, l);
    BackProbeWrite(g, a, i, c, b, t, l);
  }

  /**
    The probe of the bottom or right edge once the run is filled. It is at
    index n - 1 - c, which is -1 when the run is the whole line; numpy reads
    index -1 as the last cell, which the run has just filled.
   */
  method BackProbeWrite(g: array2<int>, a: Axis, i: nat, c: nat, ghost b: Board, ghost t: seq<int>, ghost l: seq<int>)
    requires b.Valid() && b.height == g.Length0 && b.width == g.Length1
    requires i < b.Count(a) && 0 < c <= b.Len(a) && |t| == |l| == b.Len(a)
    requires t[|t| - 1] == Filled
    requires c < |t| ==> t[|t| - 1 - c] == if l[|t| - 1 - c] == Unknown then Crossed else l[|t| - 1 - c]
    requires forall k :: 0 <= k < |t| - 1 - c ==> t[k] == l[k]
    requires Snapshot(g) == b.PutLine(a, i, l[..b.Len(a) - c] + t[b.Len(a) - c..])
    modifies g
    ensures Snapshot(g) == b.PutLine(a, i, t)
  {
    var n := LineLen(g, a);
    assert n == b.Len(a);
    var probe := n - 1 - c;
    if probe >= 0 {
      BackCrossWrite(g, a, i, c, b, t, l);
    } else {
      WholeRun(b, a, i, t, l, c);
      if ReadCell(g, a, i, probe + n) == Unknown {
        assert false;
      }
    }
  }

  /** A run as long as the line: the splice is the target, whose last cell is filled. */
  lemma WholeRun(b: Board, a: Axis, i: nat, t: seq<int>, l: seq<int>, c: nat)
    requires b.Valid() && i < b.Count(a) && c == b.Len(a) == |t| == |l| && 0 < c && t[|t| - 1] == Filled
    ensures l[..b.Len(a) - c] + t[b.Len(a) - c..] == t
    ensures b.PutLine(a, i, t).Line(a, i)[c - 1] == Filled
  {
    SpliceEnds(t, l);
    LineOfPutLine(b, a, i, t);
  }

  /** The probe before a run that leaves room for it: crossed when it is unknown. */
  method BackCrossWrite(g: array2<int>, a: Axis, i: nat, c: nat, ghost b: Board, ghost t: seq<int>, ghost l: seq<int>)
    requires b.Valid() && b.height == g.Length0 && b.width == g.Length1
    requires i < b.Count(a) && c < b.Len(a) && |t| == |l| == b.Len(a)
    requires t[|t| - 1 - c] == if l[|t| - 1 - c] == Unknown then Crossed else l[|t| - 1 - c]
    requires forall k :: 0 <= k < |t| - 1 - c ==> t[k] == l[k]
    requires Snapshot(g) == b.PutLine(a, i, l[..b.Len(a) - c] + t[b.Len(a) - c..])
    modifies g
    ensures Snapshot(g) == b.PutLine(a, i, t)
  {
    var n := LineLen(g, a);
    assert n == b.Len(a);
    SpliceBackAt(b, a, i, t, l, n - c);
    if ReadCell(g, a, i, n - 1 - c) == Unknown {
      WriteBackCell(g, a, i, n - c, Crossed, b, t, l);
    } else {
      KeepBackStep(t, l, n - c);
    }
    HeadKept(t, l, n - c - 1);
  }

  /** One line of a pass, by rule. */
  method ApplyLine(g: array2<int>, a: Axis, i: nat, rule: Rule)
    requires i < LineCount(g, a) && Fits(rule, i, LineLen(g, a))
    modifies g
    ensures Snapshot(g) == old(Snapshot(g)).PutLine(a, i, NewLine(rule, i, old(Snapshot(g)).Line(a, i)))
  {
    match rule
    case FullRule(cl) => FullLineWrite(g, a, i, cl[i]);
    case MiddleRule(cl) => MiddleLineWrite(g, a, i, cl[i]);
    case ConsensusRule(lists) => ConsensusLineWrite(g, a, i, lists[i]);
    case CrossRule(cv, cl) => CrossLineWrite(g, a, i, cv, cl[i]);
    case FrontRule(cl) => FrontLineWrite(g, a, i, cl[i][0]);
    case BackRule(cl) => BackLineWrite(g, a, i, cl[i][|cl[i]| - 1]);
  }

  /** The grid holds the board `b` after the walk over its first i lines. */
  ghost predicate WalkedTo(g: array2<int>, b: Board, a: Axis, rule: Rule, i: nat)
    reads g
  {
    FitsUpTo(b, a, rule, i) && b.height == g.Length0 && b.width == g.Length1 && Snapshot(g) == Pass(b, a, rule, i)
  }

  /** The loop over the first k lines along one axis. */
  method Walk(g: array2<int>, a: Axis, rule: Rule, k: nat)
    requires FitsUpTo(Snapshot(g), a, rule, k)
    modifies g
    ensures Snapshot(g) == Pass(old(Snapshot(g)), a, rule, k)
  {
    ghost var b := Snapshot(g);
    for i := 0 to k
      invariant WalkedTo(g, b, a, rule, i)
    {
      WalkStep(g, a, rule, k, i, b);
    }
  }

  /** Line i of the walk, the lines before it done. */
  method WalkStep(g: array2<int>, a: Axis, rule: Rule, k: nat, i: nat, ghost b: Board)
    requires FitsUpTo(b, a, rule, k) && i < k && WalkedTo(g, b, a, rule, i)
    modifies g
    ensures WalkedTo(g, b, a, rule, i + 1)
  {
    ghost var c := Snapshot(g);
    assert LineLen(g, a) == b.Len(a) && LineCount(g, a) == b.Count(a) && Fits(rule, i, b.Len(a));
    ApplyLine(g, a, i, rule);
    PassNext(b, a, rule, i, c, Snapshot(g));
  }

  class Solver {
    const conv: Convention
    const clues: Clues
    /** The puzzle's grid, shared with the puzzle object. */
    const cells: array2<int>
    var rowsPossibilities: seq<seq<seq<int>>>
    var colsPossibilities: seq<seq<seq<int>>>

    predicate Valid()
      reads this, cells
    {
      && WellFormed(Snapshot(cells), clues)
      && ListsFit(rowsPossibilities, cells.Length1, cells.Length0)
      && ListsFit(colsPossibilities, cells.Length0, cells.Length1)
    }

    /** Everything the solver changes. */
    function Current(): State
      reads this, cells
    {
      State(Snapshot(cells), rowsPossibilities, colsPossibilities)
    }

    /** The candidate lists along one axis. */
    function Lists(a: Axis): seq<seq<seq<int>>>
      reads this
    {
      if a == Row then rowsPossibilities else colsPossibilities
    }

    function Count(a: Axis): nat {
      if a == Row then cells.Length0 else cells.Length1
    }

    function Len(a: Axis): nat {
      if a == Row then cells.Length1 else cells.Length0
    }

    /**
      A solver for a puzzle whose grid is `cells`. The candidate lists exist
      only once they are generated; until then they are empty here.
     */
    constructor(conv: Convention, clues: Clues, cells: array2<int>)
      requires WellFormed(Snapshot(cells), clues)
      ensures this.conv == conv && this.clues == clues && this.cells == cells
      ensures rowsPossibilities == [] && colsPossibilities == []
      ensures Valid()
    {
      this.conv := conv;
      this.clues := clues;
      this.cells := cells;
      rowsPossibilities := [];
      colsPossibilities := [];
    }

    // -------------------------------------------------------------------
    // Reading and writing one cell of a line

    /** Cell j of line i, as the grid holds it now. */
    function At(a: Axis, i: nat, j: nat): (v: int)
      requires i < Count(a) && j < Len(a)
      reads cells
      ensures v == Snapshot(cells).Line(a, i)[j]
    {
      ReadCell(cells, a, i, j)
    }

    method SetList(a: Axis, i: nat, l: seq<seq<int>>)
      requires i < |Lists(a)|
      modifies this
      ensures Lists(a) == old(Lists(a))[i := l]
      ensures Lists(Other(a)) == old(Lists(Other(a)))
    {
      if a == Row {
        rowsPossibilities := rowsPossibilities[i := l];
      } else {
        colsPossibilities := colsPossibilities[i := l];
      }
    }

    /** Line i as the grid holds it now (`get_row` / `get_col`). */
    function LineOf(a: Axis, i: nat): (r: seq<int>)
      requires i < Count(a)
      reads cells
      ensures r == Snapshot(cells).Line(a, i)
    {
      seq(Len(a), j requires 0 <= j < Len(a) reads cells => At(a, i, j))
    }

    // -------------------------------------------------------------------
    // The steps of `run`

    /** `generate_all_possibilities`: the candidates of every row and of every column. */
    method GenerateAllPossibilities()
      requires Valid()
      modifies this
      ensures rowsPossibilities == GenerateAll(clues.rows, cells.Length1)
      ensures colsPossibilities == GenerateAll(clues.columns, cells.Length0)
      ensures Valid()
    {
      var b := Snapshot(cells);
      GenerateAllFits(b, clues);
      rowsPossibilities := GeneratePossibilities(clues.rows, cells.Length1);
      colsPossibilities := GeneratePossibilities(clues.columns, cells.Length0);
    }

    /** `find_full`: every row, then every column. */
    method FindFull()
      requires Valid()
      modifies cells
      ensures Snapshot(cells) == FindFullStep(old(Snapshot(cells)), clues)
      ensures Valid()
    {
      ghost var b := Snapshot(cells);
      ClueRulesFit(b, clues, Row, conv);
      Walk(cells, Row, FullRule(clues.rows), cells.Length0);
      ClueRulesFit(Snapshot(cells), clues, Col, conv);
      Walk(cells, Col, FullRule(clues.columns), cells.Length1);
    }

    /** `fill_middle`: every row, then every column. */
    method FillMiddle()
      requires Valid()
      modifies cells
      ensures Snapshot(cells) == FillMiddleStep(old(Snapshot(cells)), clues)
      ensures Valid()
    {
      ghost var b := Snapshot(cells);
      ClueRulesFit(b, clues, Row, conv);
      Walk(cells, Row, MiddleRule(clues.rows), cells.Length0);
      ClueRulesFit(Snapshot(cells), clues, Col, conv);
      Walk(cells, Col, MiddleRule(clues.columns), cells.Length1);
    }

    /**
      `fill_edges`. Reading the top row and the left column of a grid with
      no rows or no columns raises IndexError before anything is written.
     */
    method FillEdges() returns (o: Outcome)
      requires Valid()
      modifies cells
      ensures o == Raised(IndexError) <==> cells.Length0 == 0 || cells.Length1 == 0
      ensures o == Done ==> Snapshot(cells) == FillEdgesStep(old(Snapshot(cells)), clues)
      ensures o != Done ==> Snapshot(cells) == old(Snapshot(cells))
      ensures Valid()
    {
      if cells.Length0 == 0 || cells.Length1 == 0 {
        return Raised(IndexError);
      }
      ghost var b := Snapshot(cells);
      ClueRulesFit(b, clues, Col, conv);
      Walk(cells, Col, FrontRule(clues.columns), cells.Length1);
      ClueRulesFit(Snapshot(cells), clues, Col, conv);
      Walk(cells, Col, BackRule(clues.columns), cells.Length1);
      ClueRulesFit(Snapshot(cells), clues, Row, conv);
      Walk(cells, Row, FrontRule(clues.rows), cells.Length0);
      ClueRulesFit(Snapshot(cells), clues, Row, conv);
      Walk(cells, Row, BackRule(clues.rows), cells.Length0);
      o := Done;
    }

    /** `fill_with_crosses`: every solved row, then every solved column. */
    method FillWithCrosses()
      requires Valid()
      modifies cells
      ensures Snapshot(cells) == CrossStep(old(Snapshot(cells)), conv, clues)
      ensures Valid()
    {
      ghost var b := Snapshot(cells);
      ClueRulesFit(b, clues, Row, conv);
      Walk(cells, Row, CrossRule(conv, clues.rows), cells.Length0);
      ClueRulesFit(Snapshot(cells), clues, Col, conv);
      Walk(cells, Col, CrossRule(conv, clues.columns), cells.Length1);
    }

    /** `fill_from_possibilities`: the rows' candidate lists, then the columns'. */
    method FillFromPossibilities()
      requires Valid()
      modifies cells
      ensures Snapshot(cells) == ConsensusStep(old(Snapshot(cells)), rowsPossibilities, colsPossibilities)
      ensures Valid()
    {
      ghost var b := Snapshot(cells);
      ListsRuleFits(b, Row, rowsPossibilities);
      Walk(cells, Row, ConsensusRule(rowsPossibilities), |rowsPossibilities|);
      ListsRuleFits(Snapshot(cells), Col, colsPossibilities);
      Walk(cells, Col, ConsensusRule(colsPossibilities), |colsPossibilities|);
      PassKeepsWellFormed(b, clues, Row, ConsensusRule(rowsPossibilities), |rowsPossibilities|);
    }

    /**
      The inner loop of `remove_possibilities` on one list: every candidate
      the line rules out is removed while the list is being walked.
     */
    method PruneLine(a: Axis, i: nat, actual: seq<int>)
      requires i < |Lists(a)|
      modifies this
      ensures Lists(a) == old(Lists(a))[i := Prune(old(Lists(a))[i], actual)]
      ensures Lists(Other(a)) == old(Lists(Other(a)))
    {
      var list := Lists(a)[i];
      var k := 0;
      while k < |list|
        invariant PruneFrom(list, k, actual) == Prune(old(Lists(a))[i], actual)
        decreases |list| - k
      {
        if !IsPossible(actual, list[k]) {
          list := RemoveFirst(list, list[k]);
        }
        k := k + 1;
      }
      SetList(a, i, list);
    }

    /**
      One line of `remove_possibilities`: a line that checks has its list
      emptied and its unknown cells crossed; any other line prunes its list.
     */
    method RemoveLine(a: Axis, i: nat, clue: seq<nat>)
      requires i < |Lists(a)| && i < Count(a)
      modifies this, cells
      ensures Snapshot(cells) == old(Snapshot(cells)).PutLine(a, i, CrossIfSolved(conv, clue, old(Snapshot(cells)).Line(a, i)))
      ensures Lists(a) == old(Lists(a))[i := if LineSolved(conv, old(Snapshot(cells)).Line(a, i), clue) then []
        else Prune(old(Lists(a))[i], old(Snapshot(cells)).Line(a, i))]
      ensures Lists(Other(a)) == old(Lists(Other(a)))
    {
      var actual := LineOf(a, i);
      if LineSolved(conv, actual, clue) {
        SetList(a, i, []);
        CrossUnknownWrite(cells, a, i);
      } else {
        PruneLine(a, i, actual);
        PutSameLine(Snapshot(cells), a, i);
      }
    }

    /** One half of `remove_possibilities`: every list along the axis, in order. */
    method RemoveHalf(a: Axis)
      requires Valid()
      modifies this, cells
      ensures Snapshot(cells) == (ClueRulesFit(old(Snapshot(cells)), clues, a, conv);
        Pass(old(Snapshot(cells)), a, CrossRule(conv, clues.Of(a)), |old(Lists(a))|))
      ensures Lists(a) == PrunedLists(old(Snapshot(cells)), a, conv, clues.Of(a), old(Lists(a)))
      ensures Lists(Other(a)) == old(Lists(Other(a)))
      ensures Valid()
    {
      ghost var b := Snapshot(cells);
      ghost var orig := Lists(a);
      ClueRulesFit(b, clues, a, conv);
      assert |orig| <= b.Count(a) && Count(a) == b.Count(a) && Len(a) == b.Len(a);
      PrunedListsFit(b, a, conv, clues.Of(a), orig);
      RemoveLines(a);
      PassKeepsWellFormed(b, clues, a, CrossRule(conv, clues.Of(a)), |orig|);
    }

    /** The loop of one half of `remove_possibilities`. */
    method RemoveLines(a: Axis)
      requires |Lists(a)| <= Count(a) && |clues.Of(a)| == Count(a)
      modifies this, cells
      ensures FitsUpTo(old(Snapshot(cells)), a, CrossRule(conv, clues.Of(a)), |old(Lists(a))|)
      ensures Snapshot(cells) == Pass(old(Snapshot(cells)), a, CrossRule(conv, clues.Of(a)), |old(Lists(a))|)
      ensures Lists(a) == PrunedLists(old(Snapshot(cells)), a, conv, clues.Of(a), old(Lists(a)))
      ensures Lists(Other(a)) == old(Lists(Other(a)))
    {
      ghost var b := Snapshot(cells);
      ghost var orig := Lists(a);
      assert Count(a) == b.Count(a) && Len(a) == b.Len(a);
      assert FitsUpTo(b, a, CrossRule(conv, clues.Of(a)), |orig|);
      ghost var target := PrunedLists(b, a, conv, clues.Of(a), orig);
      assert target[..0] + orig[0..] == orig;
      var count := |Lists(a)|;
      for i := 0 to count
        invariant Removed(a, b, orig, i)
        invariant Lists(Other(a)) == old(Lists(Other(a)))
      {
        RemoveNext(a, i, b, orig);
      }
      assert orig[count..] == [] && target[..count] == target;
    }

    /**
      The first i lines along the axis done by `remove_possibilities`,
      started from board b and lists orig.
     */
    ghost predicate Removed(a: Axis, b: Board, orig: seq<seq<seq<int>>>, i: nat)
      reads this, cells
    {
      && |orig| <= Count(a) && |clues.Of(a)| == Count(a) && i <= |orig|
      && b.Valid() && b.Count(a) == Count(a) && b.Len(a) == Len(a)
      && FitsUpTo(b, a, CrossRule(conv, clues.Of(a)), |orig|)
      && Snapshot(cells) == Pass(b, a, CrossRule(conv, clues.Of(a)), i)
      && Lists(a) == PrunedLists(b, a, conv, clues.Of(a), orig)[..i] + orig[i..]
    }

    /** Line i of the loop of `remove_possibilities`, the lines before it done. */
    method RemoveNext(a: Axis, i: nat, ghost b: Board, ghost orig: seq<seq<seq<int>>>)
      requires Removed(a, b, orig, i) && i < |orig|
      modifies this, cells
      ensures Removed(a, b, orig, i + 1)
      ensures Lists(Other(a)) == old(Lists(Other(a)))
    {
      var rule := CrossRule(conv, clues.Of(a));
      ghost var c := Snapshot(cells);
      ghost var cur := Lists(a);
      PassLine(b, a, rule, i, i);
      assert c.Line(a, i) == b.Line(a, i);
      RemoveLine(a, i, clues.Of(a)[i]);
      PrunedListsStep(b, a, conv, clues.Of(a), orig, i, cur, Lists(a));
      assert Snapshot(cells) == c.PutLine(a, i, NewLine(rule, i, c.Line(a, i)));
    }

    /** `remove_possibilities`: the rows, then the columns. */
    method RemovePossibilities()
      requires Valid()
      modifies this, cells
      ensures Current() == RemoveStep(old(Current()), conv, clues)
      ensures Valid()
    {
      RemoveHalf(Row);
      RemoveHalf(Col);
    }

    /**
      `run`: generate the candidates, apply the four deterministic steps and
      a first pruning, then refine until the puzzle is solved or `limit`
      turns have been made. `steps` is the number of turns.
     */
    method Run(limit: int) returns (o: Outcome, steps: nat)
      requires Valid()
      modifies this, cells
      ensures o == Raised(IndexError) <==> cells.Length0 == 0 || cells.Length1 == 0
      ensures o != Done ==> steps == 0 && Current() == State(FillMiddleStep(FindFullStep(old(Snapshot(cells)), clues), clues),
        GenerateAll(clues.rows, cells.Length1), GenerateAll(clues.columns, cells.Length0))
      ensures o == Done ==> steps == Turns(Prelude(old(Snapshot(cells)), conv, clues), conv, clues, limit)
      ensures o == Done ==> Current() == Iterate(Prelude(old(Snapshot(cells)), conv, clues), conv, clues, steps)
      ensures Valid()
    {
      o := Prepare();
      steps := 0;
      if o == Done {
        steps := Refinements(limit);
      }
    }

    /** What `run` does before its loop. */
    method Prepare() returns (o: Outcome)
      requires Valid()
      modifies this, cells
      ensures o == Raised(IndexError) <==> cells.Length0 == 0 || cells.Length1 == 0
      ensures o != Done ==> Current() == State(FillMiddleStep(FindFullStep(old(Snapshot(cells)), clues), clues),
        GenerateAll(clues.rows, cells.Length1), GenerateAll(clues.columns, cells.Length0))
      ensures o == Done ==> Current() == Prelude(old(Snapshot(cells)), conv, clues)
      ensures Valid()
    {
      GenerateAllPossibilities();
      FindFull();
      FillMiddle();
      o := FillEdges();
      if o == Done {
        FillWithCrosses();
        RemovePossibilities();
      }
    }

    /** The loop of `run`: refine until the puzzle is solved or `limit` turns have been made. */
    method Refinements(limit: int) returns (steps: nat)
      requires Valid()
      modifies this, cells
      ensures steps == Turns(old(Current()), conv, clues, limit)
      ensures Current() == Iterate(old(Current()), conv, clues, steps)
      ensures Valid()
    {
      ghost var start := Current();
      steps := 0;
      var solved := IsSolved();
      while !solved && limit > steps
        invariant Valid() && Current() == Iterate(start, conv, clues, steps)
        invariant solved == Solved(conv, Snapshot(cells), clues)
        invariant FirstStop(SolvedAfter(start, conv, clues), limit, steps) == Turns(start, conv, clues, limit)
        decreases limit - steps
      {
        steps := steps + 1;
        Refinement();
        solved := IsSolved();
      }
    }

    /** `is_solved` of the puzzle the solver works on. */
    method IsSolved() returns (r: bool)
      requires Valid()
      ensures r == Solved(conv, Snapshot(cells), clues)
    {
      r := Solved(conv, Snapshot(cells), clues);
    }

    /** One turn of the loop of `run`. */
    method Refinement()
      requires Valid()
      modifies this, cells
      ensures Current() == Refine(old(Current()), conv, clues)
      ensures Valid()
    {
      FillFromPossibilities();
      RemovePossibilities();
    }
  }

  /**
    `_generate_all_possibilities`: for each clue, every way of placing its
    runs in `size` cells, in the order the combinations are enumerated.
   */
  method GeneratePossibilities(values: seq<seq<nat>>, size: nat) returns (possibilities: seq<seq<seq<int>>>)
    ensures possibilities == GenerateAll(values, size)
  {
    possibilities := [];
    for k := 0 to |values|
      invariant |possibilities| == k
      invariant forall q :: 0 <= q < k ==> possibilities[q] == Generate(values[q], size)
    {
      var line := GenerateLine(values[k], size);
      possibilities := possibilities + [line];
    }
  }

  /** The candidates of one clue: one layout per combination of slots, in order. */
  method GenerateLine(value: seq<nat>, size: nat) returns (line: seq<seq<int>>)
    ensures line == Generate(value, size)
  {
    var m := SlotCount(value, size);
    var opts := Combinations(0, m, |value|);
    line := [];
    for j := 0 to |opts|
      invariant |line| == j
      invariant forall q :: 0 <= q < j ==> line[q] == Layout(opts[q], value, m)
    {
      line := line + [Layout(opts[j], value, m)];
    }
  }

  // ---------------------------------------------------------------------
  // Keyword arguments of src/solver.py

  /** The keyword arguments the solver of src/solver.py is built with; None for one not given. */
  datatype Kwargs = Kwargs(warnings: Option<bool>, gpuEnabled: Option<bool>)

  /** The settings the solver keeps. */
  datatype Settings = Settings(warnings: bool, gpuEnabled: bool)

  /**
    `init_kwargs`: warnings default to on and the GPU to off; asking for the
    GPU with warnings on for a puzzle of fewer than 1000 cells raises.
   */
  function InitKwargs(k: Kwargs, width: nat, height: nat): (r: Result<Settings>)
    ensures r.Failure? ==> r.error == GpuWarning
    ensures r.Success? ==> r.value.gpuEnabled == (k.gpuEnabled.Some? && k.gpuEnabled.value)
  {
    var warnings := if k.warnings.Some? then k.warnings.value else true;
    if k.gpuEnabled.Some? && warnings && width * height < 1000 then Failure(GpuWarning)
    else Success(Settings(warnings, k.gpuEnabled.Some? && k.gpuEnabled.value))
  }

  /** With no keyword at all: warnings on, GPU off, whatever the size. */
  lemma InitDefaults(width: nat, height: nat)
    ensures InitKwargs(Kwargs(None, None), width, height) == Success(Settings(true, false))
  {
  }

  /**
    The warning is raised exactly when the GPU keyword is given (even as
    False), warnings are on or not given, and the puzzle has fewer than
    1000 cells; the warnings setting kept is the one given, on by default.
   */
  lemma InitWarning(k: Kwargs, width: nat, height: nat)
    ensures InitKwargs(k, width, height).Failure? <==>
      k.gpuEnabled.Some? && k.warnings != Some(false) && width * height < 1000
    ensures InitKwargs(k, width, height).Success? ==>
      InitKwargs(k, width, height).value.warnings == (k.warnings != Some(false))
  {
  }
}
