/**
  When a line, and the whole puzzle, counts as solved, and when the game
  class reports a line as wrong.

  The two grid classes of the repository compute run lengths the same way
  except for a line without a filled cell: the package's NonogramGrid gives
  [], the Game class of src/game.py gives [0]. A line is solved when its run
  lengths equal its clue exactly, so the convention decides which clue an
  empty line satisfies.
 */
module Checks {
  import opened Lines
  import opened Boards

  datatype Convention = Package | GameClass

  /** The clues of the puzzle: one per row, one per column. */
  datatype Clues = Clues(rows: seq<seq<nat>>, columns: seq<seq<nat>>) {
    function Of(a: Axis): seq<seq<nat>> {
      if a == Row then rows else columns
    }

    /** One clue per line of the board. */
    predicate Fit(b: Board) {
      |rows| == b.height && |columns| == b.width
    }
  }

  function LineSegments(conv: Convention, line: seq<int>): seq<nat> {
    if conv == Package then Segments(line) else SegmentsOrZero(line)
  }

  /** `check_row` / `check_col`: as many runs as clue numbers, and each equal to its number. */
  predicate LineSolved(conv: Convention, line: seq<int>, clue: seq<nat>) {
    LineSegments(conv, line) == clue
  }

  /** `check_all` / `is_solved`: every row and every column checks. */
  predicate Solved(conv: Convention, b: Board, clues: Clues)
    requires b.Valid() && clues.Fit(b)
  {
    && (forall y :: 0 <= y < b.height ==> LineSolved(conv, b.Line(Row, y), clues.rows[y]))
    && (forall x :: 0 <= x < b.width ==> LineSolved(conv, b.Line(Col, x), clues.columns[x]))
  }

  /**
    `check_row_error` / `check_col_error` of the game class: a line with a
    filled cell is wrong when it holds more filled cells than its clue asks
    for, or a run longer than the longest clue number. (The sum test comes
    first, so an empty clue never reaches the maximum.)
   */
  predicate LineError(line: seq<int>, clue: seq<nat>) {
    var s := SegmentsOrZero(line);
    s != [0] && (Sum(s) > Sum(clue) || exists k :: 0 <= k < |s| && s[k] > Max(clue))
  }

  /** `check_error`: some row or some column is wrong. */
  predicate BoardError(b: Board, clues: Clues)
    requires b.Valid() && clues.Fit(b)
  {
    || (exists y :: 0 <= y < b.height && LineError(b.Line(Row, y), clues.rows[y]))
    || (exists x :: 0 <= x < b.width && LineError(b.Line(Col, x), clues.columns[x]))
  }

  /** `full` fills in some unknown cells of `line` and keeps every other cell. */
  predicate Completes(line: seq<int>, full: seq<int>) {
    |full| == |line| && forall i :: 0 <= i < |line| && line[i] != Unknown ==> full[i] == line[i]
  }

  // ---------------------------------------------------------------------
  // Properties

  /**
    A board with no cell filled is solved exactly when every clue is what an
    empty line reads: [] for the package, [0] for the game class. In
    particular a fresh grid is not solved as soon as one clue asks for a
    filled cell.
   */
  lemma EmptyBoardSolved(conv: Convention, h: nat, w: nat, clues: Clues)
    requires clues.Fit(Uniform(h, w, Unknown))
    ensures Solved(conv, Uniform(h, w, Unknown), clues) <==>
      (forall y :: 0 <= y < h ==> clues.rows[y] == LineSegments(conv, [])) &&
      (forall x :: 0 <= x < w ==> clues.columns[x] == LineSegments(conv, []))
  {
    var b := Uniform(h, w, Unknown);
    forall a: Axis, i: nat | i < b.Count(a)
      ensures LineSegments(conv, b.Line(a, i)) == LineSegments(conv, [])
    {
      var line := b.Line(a, i);
      assert Count(line, Filled) == 0 by {
        assert line == Repeat(Unknown, |line|);
        CountRepeat(Unknown, |line|, Filled);
      }
      SegmentsMeaning(line);
      SegmentsMeaning([]);
    }
  }

  /** A line the game class reports as wrong is not solved. */
  lemma ErrorNotSolved(line: seq<int>, clue: seq<nat>)
    requires LineError(line, clue)
    ensures !LineSolved(GameClass, line, clue)
  {
    var s := SegmentsOrZero(line);
    if s == clue {
      if k :| 0 <= k < |s| && s[k] > Max(clue) {
        MaxBound(clue, k);
      }
    }
  }

  /** A line without a filled cell is never reported as wrong. */
  lemma NoFilledNoError(line: seq<int>, clue: seq<nat>)
    requires Count(line, Filled) == 0
    ensures !LineError(line, clue)
  {
    SegmentsConventions(line);
  }

  /**
    Too many filled cells stay too many: no way of filling in the unknown
    cells of such a line solves it.
   */
  lemma TooManyFilledIsPermanent(line: seq<int>, full: seq<int>, clue: seq<nat>)
    requires Completes(line, full)
    requires Count(line, Filled) > Sum(clue)
    ensures !LineSolved(GameClass, full, clue) && !LineSolved(Package, full, clue)
  {
    CountCompletes(line, full);
    SegmentsMeaning(full);
    SegmentsConventions(full);
  }

  lemma MaxBound(s: seq<nat>, k: nat)
    requires k < |s|
    ensures s[k] <= Max(s)
  {
    if k > 0 {
      MaxBound(s[1..], k - 1);
    }
  }

  /** Filling in unknown cells can only add filled cells. */
  lemma {:induction false} CountCompletes(line: seq<int>, full: seq<int>)
    requires Completes(line, full)
    ensures Count(full, Filled) >= Count(line, Filled)
  {
    if line != [] {
      CountCompletes(line[1..], full[1..]);
    }
  }
}
