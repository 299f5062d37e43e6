/**
  The solver's board passes as functions of the board.

  Each step of the solver walks the rows (or the columns) in increasing
  order and rewrites one line at a time, reading the line as it is at that
  moment. `Pass` is that walk: a fold over the first k lines along one
  axis. A pass along one axis never touches another line along the same
  axis, so every line ends up as the rule applied to the line as it was
  before the pass (`PassLine`); the passes along the other axis, which come
  after, read the board those writes left behind.
 */
module Passes {
  import opened Lines
  import opened Candidates
  import opened Boards
  import opened Checks
  import opened Heuristics

  /** One per-line rule of the solver, with the data it reads. */
  datatype Rule =
    | FullRule(clues: seq<seq<nat>>)
    | MiddleRule(clues: seq<seq<nat>>)
    | ConsensusRule(lists: seq<seq<seq<int>>>)
    | CrossRule(conv: Convention, clues: seq<seq<nat>>)
    | FrontRule(clues: seq<seq<nat>>)
    | BackRule(clues: seq<seq<nat>>)

  /** Line i, of n cells, can be rewritten by the rule without an error. */
  predicate Fits(rule: Rule, i: nat, n: nat) {
    match rule
    case FullRule(clues) => i < |clues|
    case MiddleRule(clues) => i < |clues| && (MiddleFires(clues[i], n) ==> clues[i][0] <= n)
    case ConsensusRule(lists) => i < |lists| && SameLength(lists[i], n)
    case CrossRule(_, clues) => i < |clues|
    case FrontRule(clues) => i < |clues| && |clues[i]| > 0 && clues[i][0] <= n
    case BackRule(clues) => i < |clues| && |clues[i]| > 0 && clues[i][|clues[i]| - 1] <= n
  }

  /** What the rule makes of line i. */
  function NewLine(rule: Rule, i: nat, line: seq<int>): (r: seq<int>)
    requires Fits(rule, i, |line|)
    ensures |r| == |line|
  {
    match rule
    case FullRule(clues) => FullLine(clues[i], line)
    case MiddleRule(clues) => MiddleLine(clues[i], line)
    case ConsensusRule(lists) => ConsensusLine(lists[i], line)
    case CrossRule(conv, clues) => CrossIfSolved(conv, clues[i], line)
    case FrontRule(clues) => ExtendFront(line, clues[i][0])
    case BackRule(clues) => ExtendBack(line, clues[i][|clues[i]| - 1])
  }

  predicate FitsUpTo(b: Board, a: Axis, rule: Rule, k: nat) {
    b.Valid() && k <= b.Count(a) && forall i :: 0 <= i < k ==> Fits(rule, i, b.Len(a))
  }

  /** The rule applied to lines 0 .. k-1 along the axis, one after the other. */
  function Pass(b: Board, a: Axis, rule: Rule, k: nat): (r: Board)
    requires FitsUpTo(b, a, rule, k)
    ensures r.Valid() && r.height == b.height && r.width == b.width
    decreases k
  {
    if k == 0 then b
    else
      var c := Pass(b, a, rule, k - 1);
      assert c.Len(a) == b.Len(a) && Fits(rule, k - 1, b.Len(a));
      c.PutLine(a, k - 1, NewLine(rule, k - 1, c.Line(a, k - 1)))
  }

  /** One more line of the walk: line k rewritten in the board after k lines. */
  lemma PassNext(b: Board, a: Axis, rule: Rule, k: nat, c: Board, d: Board)
    requires FitsUpTo(b, a, rule, k + 1) && c == Pass(b, a, rule, k)
    requires c.Valid() && c.Count(a) == b.Count(a) && c.Len(a) == b.Len(a)
    requires d == c.PutLine(a, k, NewLine(rule, k, c.Line(a, k)))
    ensures d == Pass(b, a, rule, k + 1)
  {
  }

  /**
    After the walk over the first k lines, each of them is the rule applied
    to its old contents, and every later line is as it was.
   */
  lemma PassLine(b: Board, a: Axis, rule: Rule, k: nat, i: nat)
    requires FitsUpTo(b, a, rule, k) && i < b.Count(a)
    ensures Pass(b, a, rule, k).Line(a, i) == if i < k then NewLine(rule, i, b.Line(a, i)) else b.Line(a, i)
  {
    if i < k {
      PassLineDone(b, a, rule, k, i);
    } else {
      PassLineLater(b, a, rule, k, i);
    }
  }

  /** A line the walk has not reached yet is as it was. */
  lemma {:induction false} PassLineLater(b: Board, a: Axis, rule: Rule, k: nat, i: nat)
    requires FitsUpTo(b, a, rule, k) && k <= i < b.Count(a)
    ensures Pass(b, a, rule, k).Line(a, i) == b.Line(a, i)
    decreases k
  {
    if k > 0 {
      var c := Pass(b, a, rule, k - 1);
      assert c.Len(a) == b.Len(a) && Fits(rule, k - 1, b.Len(a));
      var line := NewLine(rule, k - 1, c.Line(a, k - 1));
      PassLineLater(b, a, rule, k - 1, i);
      OtherLineOfPutLine(c, a, k - 1, line, i);
    }
  }

  /** A line the walk has passed is the rule applied to its old contents. */
  lemma {:induction false} PassLineDone(b: Board, a: Axis, rule: Rule, k: nat, i: nat)
    requires FitsUpTo(b, a, rule, k) && i < k
    ensures Pass(b, a, rule, k).Line(a, i) == NewLine(rule, i, b.Line(a, i))
    decreases k
  {
    var c := Pass(b, a, rule, k - 1);
    assert c.Len(a) == b.Len(a) && Fits(rule, k - 1, b.Len(a));
    var line := NewLine(rule, k - 1, c.Line(a, k - 1));
    if i == k - 1 {
      PassLineLater(b, a, rule, k - 1, i);
      LineOfPutLine(c, a, i, line);
    } else {
      PassLineDone(b, a, rule, k - 1, i);
      OtherLineOfPutLine(c, a, k - 1, line, i);
    }
  }

  /** One more step of the walk. */
  lemma PassStep(b: Board, a: Axis, rule: Rule, k: nat)
    requires FitsUpTo(b, a, rule, k + 1)
    ensures Pass(b, a, rule, k + 1) == Pass(b, a, rule, k).PutLine(a, k, NewLine(rule, k, b.Line(a, k)))
  {
    PassLine(b, a, rule, k, k);
  }

  // ---------------------------------------------------------------------
  // The clues the solver needs

  /**
    The solver's demands on its puzzle: one clue per line, no empty clue and
    no clue number longer than its line (the edge and middle steps index the
    first and last numbers and write a run of that length).
   */
  predicate WellFormed(b: Board, clues: Clues) {
    && b.Valid() && clues.Fit(b)
    && (forall y :: 0 <= y < b.height ==> LineClue(clues.rows[y], b.width))
    && (forall x :: 0 <= x < b.width ==> LineClue(clues.columns[x], b.height))
  }

  predicate LineClue(clue: seq<nat>, n: nat) {
    |clue| > 0 && forall k :: 0 <= k < |clue| ==> clue[k] <= n
  }

  /** Candidate lists for at most `count` lines of n cells each. */
  predicate ListsFit(lists: seq<seq<seq<int>>>, n: nat, count: nat) {
    |lists| <= count && forall i :: 0 <= i < |lists| ==> SameLength(lists[i], n)
  }

  lemma ClueRulesFit(b: Board, clues: Clues, a: Axis, conv: Convention)
    requires WellFormed(b, clues)
    ensures FitsUpTo(b, a, FullRule(clues.Of(a)), b.Count(a))
    ensures FitsUpTo(b, a, MiddleRule(clues.Of(a)), b.Count(a))
    ensures FitsUpTo(b, a, CrossRule(conv, clues.Of(a)), b.Count(a))
    ensures FitsUpTo(b, a, FrontRule(clues.Of(a)), b.Count(a))
    ensures FitsUpTo(b, a, BackRule(clues.Of(a)), b.Count(a))
  {
    forall i | 0 <= i < b.Count(a)
      ensures LineClue(clues.Of(a)[i], b.Len(a))
    {
    }
  }

  lemma ListsRuleFits(b: Board, a: Axis, lists: seq<seq<seq<int>>>)
    requires b.Valid() && ListsFit(lists, b.Len(a), b.Count(a))
    ensures FitsUpTo(b, a, ConsensusRule(lists), |lists|)
  {
  }

  /** A pass along an axis keeps the shape, so the clues still fit the board. */
  lemma PassKeepsWellFormed(b: Board, clues: Clues, a: Axis, rule: Rule, k: nat)
    requires WellFormed(b, clues) && FitsUpTo(b, a, rule, k)
    ensures WellFormed(Pass(b, a, rule, k), clues)
  {
  }

  // ---------------------------------------------------------------------
  // The steps of `run`

  /** `find_full`: the rows, then the columns. */
  function FindFullStep(b: Board, clues: Clues): (r: Board)
    requires WellFormed(b, clues)
    ensures WellFormed(r, clues)
  {
    ClueRulesFit(b, clues, Row, Package);
    var b1 := Pass(b, Row, FullRule(clues.rows), b.height);
    ClueRulesFit(b1, clues, Col, Package);
    Pass(b1, Col, FullRule(clues.columns), b.width)
  }

  /** `fill_middle`: the rows, then the columns. */
  function FillMiddleStep(b: Board, clues: Clues): (r: Board)
    requires WellFormed(b, clues)
    ensures WellFormed(r, clues)
  {
    ClueRulesFit(b, clues, Row, Package);
    var b1 := Pass(b, Row, MiddleRule(clues.rows), b.height);
    ClueRulesFit(b1, clues, Col, Package);
    Pass(b1, Col, MiddleRule(clues.columns), b.width)
  }

  /**
    `fill_edges`: the top edge (the first run of every column), the bottom
    edge (the last run of every column), the left edge (the first run of
    every row), the right edge (the last run of every row). Each edge is
    read from the board as the previous edges left it.
   */
  function FillEdgesStep(b: Board, clues: Clues): (r: Board)
    requires WellFormed(b, clues)
    ensures WellFormed(r, clues)
  {
    ClueRulesFit(b, clues, Col, Package);
    var b1 := Pass(b, Col, FrontRule(clues.columns), b.width);
    ClueRulesFit(b1, clues, Col, Package);
    var b2 := Pass(b1, Col, BackRule(clues.columns), b.width);
    ClueRulesFit(b2, clues, Row, Package);
    var b3 := Pass(b2, Row, FrontRule(clues.rows), b.height);
    ClueRulesFit(b3, clues, Row, Package);
    Pass(b3, Row, BackRule(clues.rows), b.height)
  }

  /** `fill_with_crosses`: every solved row, then every solved column, gets its unknown cells crossed. */
  function CrossStep(b: Board, conv: Convention, clues: Clues): (r: Board)
    requires WellFormed(b, clues)
    ensures WellFormed(r, clues)
  {
    ClueRulesFit(b, clues, Row, conv);
    var b1 := Pass(b, Row, CrossRule(conv, clues.rows), b.height);
    ClueRulesFit(b1, clues, Col, conv);
    Pass(b1, Col, CrossRule(conv, clues.columns), b.width)
  }

  /** `fill_from_possibilities`: the rows' candidate lists, then the columns'. */
  function ConsensusStep(b: Board, rows: seq<seq<seq<int>>>, cols: seq<seq<seq<int>>>): (r: Board)
    requires b.Valid() && ListsFit(rows, b.width, b.height) && ListsFit(cols, b.height, b.width)
    ensures r.Valid() && r.height == b.height && r.width == b.width
  {
    ListsRuleFits(b, Row, rows);
    var b1 := Pass(b, Row, ConsensusRule(rows), |rows|);
    ListsRuleFits(b1, Col, cols);
    Pass(b1, Col, ConsensusRule(cols), |cols|)
  }

  /**
    The candidate lists after one half of `remove_possibilities`: a list
    whose line checks is emptied, every other one is pruned against the
    line. Each line is read before it is crossed, and crossing a line
    changes no other line along the same axis.
   */
  function PrunedLists(b: Board, a: Axis, conv: Convention, clues: seq<seq<nat>>, lists: seq<seq<seq<int>>>): (r: seq<seq<seq<int>>>)
    requires b.Valid() && |clues| == b.Count(a) && |lists| <= b.Count(a)
    ensures |r| == |lists|
  {
    seq(|lists|, i requires 0 <= i < |lists| =>
      var line := b.Line(a, i);
      if LineSolved(conv, line, clues[i]) then [] else Prune(lists[i], line))
  }

  /** The whole state the solver changes: the board and both candidate lists. */
  datatype State = State(board: Board, rows: seq<seq<seq<int>>>, cols: seq<seq<seq<int>>>)

  predicate StateFits(s: State, clues: Clues) {
    && WellFormed(s.board, clues)
    && ListsFit(s.rows, s.board.width, s.board.height)
    && ListsFit(s.cols, s.board.height, s.board.width)
  }

  /** `remove_possibilities`: the rows (crossing solved ones), then the columns on the board that leaves. */
  function RemoveStep(s: State, conv: Convention, clues: Clues): (r: State)
    requires StateFits(s, clues)
    ensures StateFits(r, clues) && r.board.height == s.board.height && r.board.width == s.board.width
  {
    var b := s.board;
    ClueRulesFit(b, clues, Row, conv);
    var b1 := Pass(b, Row, CrossRule(conv, clues.rows), |s.rows|);
    var rows := PrunedLists(b, Row, conv, clues.rows, s.rows);
    PrunedListsFit(b, Row, conv, clues.rows, s.rows);
    ClueRulesFit(b1, clues, Col, conv);
    var b2 := Pass(b1, Col, CrossRule(conv, clues.columns), |s.cols|);
    var cols := PrunedLists(b1, Col, conv, clues.columns, s.cols);
    PrunedListsFit(b1, Col, conv, clues.columns, s.cols);
    State(b2, rows, cols)
  }

  /** Pruning list i of a list whose first i entries are already pruned. */
  lemma PrunedListsStep(b: Board, a: Axis, conv: Convention, clues: seq<seq<nat>>, lists: seq<seq<seq<int>>>,
                        i: nat, cur: seq<seq<seq<int>>>, next: seq<seq<seq<int>>>)
    requires b.Valid() && |clues| == b.Count(a) && |lists| <= b.Count(a) && i < |lists|
    requires cur == PrunedLists(b, a, conv, clues, lists)[..i] + lists[i..]
    requires next == cur[i := if LineSolved(conv, b.Line(a, i), clues[i]) then [] else Prune(lists[i], b.Line(a, i))]
    ensures next == PrunedLists(b, a, conv, clues, lists)[..i + 1] + lists[i + 1..]
  {
    var r := PrunedLists(b, a, conv, clues, lists);
    assert r[i] == if LineSolved(conv, b.Line(a, i), clues[i]) then [] else Prune(lists[i], b.Line(a, i));
    SpliceUpdate(r, lists, i, cur, next);
  }

  /** Writing entry i of r into a splice of r and l that switches at i moves the switch to i + 1. */
  lemma SpliceUpdate<T>(r: seq<T>, l: seq<T>, i: nat, cur: seq<T>, next: seq<T>)
    requires |r| == |l| && i < |l| && cur == r[..i] + l[i..] && next == cur[i := r[i]]
    ensures next == r[..i + 1] + l[i + 1..]
  {
    assert forall k :: 0 <= k < |l| ==> next[k] == (r[..i + 1] + l[i + 1..])[k];
  }

  lemma PrunedListsFit(b: Board, a: Axis, conv: Convention, clues: seq<seq<nat>>, lists: seq<seq<seq<int>>>)
    requires b.Valid() && |clues| == b.Count(a) && ListsFit(lists, b.Len(a), b.Count(a))
    ensures ListsFit(PrunedLists(b, a, conv, clues, lists), b.Len(a), b.Count(a))
  {
    var r := PrunedLists(b, a, conv, clues, lists);
    forall i | 0 <= i < |r|
      ensures SameLength(r[i], b.Len(a))
    {
      var line := b.Line(a, i);
      if !LineSolved(conv, line, clues[i]) {
        PruneMeaning(lists[i], line);
        forall k | 0 <= k < |r[i]|
          ensures |r[i][k]| == b.Len(a)
        {
          assert r[i][k] in multiset(lists[i]);
        }
      }
    }
  }

  /** The candidates of every row and of every column fit their lines. */
  lemma GenerateAllFits(b: Board, clues: Clues)
    requires b.Valid() && clues.Fit(b)
    ensures ListsFit(GenerateAll(clues.rows, b.width), b.width, b.height)
    ensures ListsFit(GenerateAll(clues.columns, b.height), b.height, b.width)
  {
    forall y, k | 0 <= y < b.height && 0 <= k < |Generate(clues.rows[y], b.width)|
      ensures |Generate(clues.rows[y], b.width)[k]| == b.width
    {
      GenerateSound(clues.rows[y], b.width, k);
    }
    forall x, k | 0 <= x < b.width && 0 <= k < |Generate(clues.columns[x], b.height)|
      ensures |Generate(clues.columns[x], b.height)[k]| == b.height
    {
      GenerateSound(clues.columns[x], b.height, k);
    }
  }

  /**
    What `run` does before its loop: generate the candidates, then
    `find_full`, `fill_middle`, `fill_edges`, `fill_with_crosses` and
    `remove_possibilities`.
   */
  function Prelude(b: Board, conv: Convention, clues: Clues): (r: State)
    requires WellFormed(b, clues)
    ensures StateFits(r, clues) && r.board.height == b.height && r.board.width == b.width
  {
    GenerateAllFits(b, clues);
    var b1 := CrossStep(FillEdgesStep(FillMiddleStep(FindFullStep(b, clues), clues), clues), conv, clues);
    RemoveStep(State(b1, GenerateAll(clues.rows, b.width), GenerateAll(clues.columns, b.height)), conv, clues)
  }

  /** One turn of the loop in `run`: `fill_from_possibilities`, then `remove_possibilities`. */
  function Refine(s: State, conv: Convention, clues: Clues): (r: State)
    requires StateFits(s, clues)
    ensures StateFits(r, clues) && r.board.height == s.board.height && r.board.width == s.board.width
  {
    RemoveStep(State(ConsensusStep(s.board, s.rows, s.cols), s.rows, s.cols), conv, clues)
  }

  /** n turns of the loop. */
  function Iterate(s: State, conv: Convention, clues: Clues, n: nat): (r: State)
    requires StateFits(s, clues)
    ensures StateFits(r, clues) && r.board.height == s.board.height && r.board.width == s.board.width
  {
    if n == 0 then s else Refine(Iterate(s, conv, clues, n - 1), conv, clues)
  }

  /**
    The first n' >= n at which `stop` holds, or `limit` if that comes first:
    the number of turns a loop guarded by `!stop(turns) && limit > turns`
    has made when it leaves, having made n of them already.
   */
  function FirstStop(stop: nat -> bool, limit: int, n: nat): (r: nat)
    ensures n <= r && (n < limit ==> r <= limit)
    decreases if limit > n then limit - n else 0
  {
    if stop(n) || limit <= n then n else FirstStop(stop, limit, n + 1)
  }

  lemma {:induction false} FirstStopStops(stop: nat -> bool, limit: int, n: nat)
    ensures stop(FirstStop(stop, limit, n)) || FirstStop(stop, limit, n) >= limit
    decreases if limit > n then limit - n else 0
  {
    if !(stop(n) || limit <= n) {
      FirstStopStops(stop, limit, n + 1);
    }
  }

  lemma {:induction false} FirstStopFirst(stop: nat -> bool, limit: int, n: nat, k: nat)
    requires n <= k < FirstStop(stop, limit, n)
    ensures !stop(k)
    decreases if limit > n then limit - n else 0
  {
    if k > n {
      FirstStopFirst(stop, limit, n + 1, k);
    }
  }

  /** Whether the state after k turns of the loop is solved. */
  function SolvedAfter(s: State, conv: Convention, clues: Clues): nat -> bool
    requires StateFits(s, clues)
  {
    (k: nat) => Solved(conv, Iterate(s, conv, clues, k).board, clues)
  }

  /** The number of turns the loop of `run` makes from state s. */
  function Turns(s: State, conv: Convention, clues: Clues, limit: int): nat
    requires StateFits(s, clues)
  {
    FirstStop(SolvedAfter(s, conv, clues), limit, 0)
  }

  /**
    The loop stops at the first solved state, or after `limit` turns if no
    state before that is solved, and makes no turn when `limit` is not
    positive.
   */
  lemma TurnsMeaning(s: State, conv: Convention, clues: Clues, limit: int, k: nat)
    requires StateFits(s, clues)
    ensures var r := Turns(s, conv, clues, limit);
      && (Solved(conv, Iterate(s, conv, clues, r).board, clues) || r >= limit)
      && (k < r ==> !Solved(conv, Iterate(s, conv, clues, k).board, clues))
      && (limit <= 0 ==> r == 0) && (limit > 0 ==> r <= limit)
  {
    var stop := SolvedAfter(s, conv, clues);
    FirstStopStops(stop, limit, 0);
    if k < Turns(s, conv, clues, limit) {
      FirstStopFirst(stop, limit, 0, k);
    }
  }
}
