/**
  The game class of src/game.py: the same grid operations as the package's
  NonogramGrid, kept on a numpy array of its own, but without the value
  check in `set_cell`, with run lengths that read [0] for a line without a
  run, and with the solved and error checks of the puzzle on top.

  Cells are addressed as (x, y) with numpy's index rules (see
  `Grids.NumpyIndex`). Every loop of the class walks the cells of a line
  with `get_cell`, so an index that names no line only raises once a cell
  is read: along a line of no cells nothing is raised.
 */
module Games {
  import opened Lines
  import opened Boards
  import opened Checks
  import opened Results
  import opened Grids

  // ---------------------------------------------------------------------
  // The operations on board values

  /** `set_cell(x, y, v)`: no check of the value. */
  function GameSetCellOf(b: Board, x: int, y: int, v: int): Result<Board>
    requires b.Valid()
  {
    match (NumpyIndex(y, b.height), NumpyIndex(x, b.width))
    case (Some(r), Some(c)) => Success(b.Put(Row, r, c, v))
    case _ => Failure(IndexError)
  }

  /** `fill_row(i, v, overwrite)` (a = Row) / `fill_col(i, v, overwrite)` (a = Col). */
  function GameFillLineOf(b: Board, a: Axis, i: int, v: int, overwrite: bool): Result<Board>
    requires b.Valid()
  {
    if b.Len(a) == 0 then Success(b)
    else match NumpyIndex(i, b.Count(a))
      case None => Failure(IndexError)
      case Some(k) =>
        Success(b.PutLine(a, k, if overwrite then Repeat(v, b.Len(a)) else FillUnknown(b.Line(a, k), v)))
  }

  /**
    The run lengths of line i: of the filled cells when v = 1
    (`get_row_segments`, `get_col_segments`), of the unknown cells when
    v = 0 (`get_row_segments_empty`), [0] when there is no run.
   */
  function RunsAt(b: Board, a: Axis, i: int, v: int): Result<seq<nat>>
    requires b.Valid()
  {
    if b.Len(a) == 0 then Success([0])
    else match NumpyIndex(i, b.Count(a))
      case None => Failure(IndexError)
      case Some(k) => Success(RunsOrZero(b.Line(a, k), v))
  }

  function RunsOrZero(line: seq<int>, v: int): seq<nat> {
    var r := NonZero(Pieces(line, v));
    if r == [] then [0] else r
  }

  /** `check_row(i)` (a = Row) / `check_col(i)` (a = Col). */
  function CheckAt(b: Board, clues: Clues, a: Axis, i: int): Result<bool>
    requires b.Valid() && clues.Fit(b)
  {
    match NumpyIndex(i, b.Count(a))
    case None => Failure(IndexError)
    case Some(k) => Success(LineSolved(GameClass, b.Line(a, k), clues.Of(a)[k]))
  }

  /** The results of the test for lines 0 .. n-1, in order. */
  function Flags(n: nat, test: nat -> bool): (r: seq<bool>)
    ensures |r| == n
  {
    if n == 0 then [] else Flags(n - 1, test) + [test(n - 1)]
  }

  lemma {:induction false} FlagsAt(n: nat, test: nat -> bool, k: nat)
    requires k < n
    ensures Flags(n, test)[k] == test(k)
  {
    if k < n - 1 {
      FlagsAt(n - 1, test, k);
    }
  }

  /** `check_row(k)` (a = Row) or `check_col(k)` for a line k that exists. */
  function SolvedTest(b: Board, clues: Clues, a: Axis): nat -> bool
    requires b.Valid() && clues.Fit(b)
  {
    (k: nat) => k < b.Count(a) && LineSolved(GameClass, b.Line(a, k), clues.Of(a)[k])
  }

  /** `check_row_error(k)` (a = Row) or `check_col_error(k)` for a line k that exists. */
  function ErrorTest(b: Board, clues: Clues, a: Axis): nat -> bool
    requires b.Valid() && clues.Fit(b)
  {
    (k: nat) => k < b.Count(a) && LineError(b.Line(a, k), clues.Of(a)[k])
  }

  /** A line that exists checks without an error. */
  lemma CheckAtLine(b: Board, clues: Clues, a: Axis, k: nat)
    requires b.Valid() && clues.Fit(b) && k < b.Count(a)
    ensures CheckAt(b, clues, a, k) == Success(LineSolved(GameClass, b.Line(a, k), clues.Of(a)[k]))
  {
    assert NumpyIndex(k, b.Count(a)) == Some(k);
  }

  lemma CheckErrorAtLine(b: Board, clues: Clues, a: Axis, k: nat)
    requires b.Valid() && clues.Fit(b) && k < b.Count(a)
    ensures CheckErrorAt(b, clues, a, k) == Success(LineError(b.Line(a, k), clues.Of(a)[k]))
  {
    assert NumpyIndex(k, b.Count(a)) == Some(k);
  }

  /**
    `check_row_error(i)` (a = Row) / `check_col_error(i)` (a = Col). Along
    a line of no cells the runs read [0] without a cell being read, and
    the check answers false before the clue list is indexed, whatever i is.
   */
  function CheckErrorAt(b: Board, clues: Clues, a: Axis, i: int): Result<bool>
    requires b.Valid() && clues.Fit(b)
  {
    if b.Len(a) == 0 then Success(false)
    else match NumpyIndex(i, b.Count(a))
      case None => Failure(IndexError)
      case Some(k) => Success(LineError(b.Line(a, k), clues.Of(a)[k]))
  }

  // ---------------------------------------------------------------------
  // Properties

  /**
    The error checks raise IndexError only for an index outside [-n, n)
    along lines that have cells; along lines of no cells they answer false
    for every index.
   */
  lemma CheckErrorAtRaises(b: Board, clues: Clues, a: Axis, i: int)
    requires b.Valid() && clues.Fit(b)
    ensures CheckErrorAt(b, clues, a, i).Failure? <==> b.Len(a) > 0 && !(-(b.Count(a) as int) <= i < b.Count(a))
    ensures CheckErrorAt(b, clues, a, i).Failure? ==> CheckErrorAt(b, clues, a, i).error == IndexError
    ensures b.Len(a) == 0 ==> CheckErrorAt(b, clues, a, i) == Success(false)
  {
  }

  /** With a value of -1, 0 or 1 the game's `set_cell` does what the grid's does. */
  lemma SetCellAgrees(b: Board, x: int, y: int, v: int)
    requires b.Valid() && IsCell(v)
    ensures GameSetCellOf(b, x, y, v) == SetCellOf(b, x, y, v)
  {
  }

  /**
    With a value of -1, 0 or 1 the game's fills do what the grid's do. With
    any other value and overwriting, the grid raises ValueError where the
    game does not: it writes the value along a line it can index, and raises
    IndexError for any other index.
   */
  lemma FillLineAgrees(b: Board, a: Axis, i: int, v: int, overwrite: bool)
    requires b.Valid()
    ensures IsCell(v) ==> GameFillLineOf(b, a, i, v, overwrite) == FillLineOf(b, a, i, v, overwrite)
    ensures !IsCell(v) && overwrite && b.Len(a) > 0 ==>
      FillLineOf(b, a, i, v, overwrite) == Failure(ValueError) && GameFillLineOf(b, a, i, v, overwrite) != Failure(ValueError)
    ensures !IsCell(v) && overwrite && b.Len(a) > 0 ==>
      (GameFillLineOf(b, a, i, v, overwrite).Success? <==> NumpyIndex(i, b.Count(a)).Some?) &&
      (GameFillLineOf(b, a, i, v, overwrite).Failure? ==> GameFillLineOf(b, a, i, v, overwrite).error == IndexError)
  {
  }

  /**
    The game's run lengths are the grid's wherever the line has a filled
    cell; a line without one reads [0] in the game and [] in the grid.
   */
  lemma RunsAgree(b: Board, a: Axis, i: int)
    requires b.Valid() && AllBoardCells(b) && b.Len(a) > 0
    ensures RunsAt(b, a, i, Filled).Success? <==> SegmentsAt(b, a, i).Success?
    ensures RunsAt(b, a, i, Filled).Success? ==>
      var line := b.Line(a, NumpyIndex(i, b.Count(a)).value);
      RunsAt(b, a, i, Filled).value == SegmentsOrZero(line) &&
      (Count(line, Filled) > 0 ==> RunsAt(b, a, i, Filled).value == SegmentsAt(b, a, i).value) &&
      (Count(line, Filled) == 0 ==> RunsAt(b, a, i, Filled).value == [0] && SegmentsAt(b, a, i).value == [])
  {
    if NumpyIndex(i, b.Count(a)).Some? {
      var k := NumpyIndex(i, b.Count(a)).value;
      LineCells(b, a, k);
      SegmentsPipeline(b.Line(a, k));
      SegmentsConventions(b.Line(a, k));
    }
  }

  /**
    The two conventions decide a line alike unless its clue is [] or [0]:
    [0] is what an empty line satisfies in the game, [] in the package.
   */
  lemma ConventionsAgree(line: seq<int>, clue: seq<nat>)
    ensures clue != [] && clue != [0] ==> (LineSolved(GameClass, line, clue) <==> LineSolved(Package, line, clue))
    ensures LineSolved(GameClass, line, [0]) <==> Count(line, Filled) == 0
    ensures LineSolved(Package, line, []) <==> Count(line, Filled) == 0
    ensures !LineSolved(GameClass, line, [])
  {
    SegmentsConventions(line);
    SegmentsMeaning(line);
  }

  /** Dropping one zero leaves the non-zero entries as they were. */
  lemma {:induction false} NonZeroDropZero(s: seq<nat>, i: nat)
    requires i < |s| && s[i] == 0
    ensures NonZero(s[..i] + s[i + 1..]) == NonZero(s)
  {
    var before, after := s[..i], s[i + 1..];
    assert s == (before + [0]) + after;
    assert [0][1..] == [];
    assert NonZero([0]) == [];
    NonZeroAppend(before + [0], after);
    NonZeroAppend(before, [0]);
    assert NonZero(before) + [] == NonZero(before);
    NonZeroAppend(before, after);
  }

  // ---------------------------------------------------------------------
  // The class

  class Game {
    /** The numpy array, height by width. */
    const cells: array2<int>
    /** The clues of the loaded puzzle. */
    const clues: Clues

    /** One clue per row and one per column of the grid. */
    predicate Valid() {
      |clues.rows| == cells.Length0 && |clues.columns| == cells.Length1
    }

    /** A game for the given clues, its grid all zeros. */
    constructor(clues: Clues)
      ensures this.clues == clues && Valid() && fresh(cells)
      ensures Snapshot(cells) == Uniform(|clues.rows|, |clues.columns|, Unknown)
    {
      this.clues := clues;
      cells := new int[|clues.rows|, |clues.columns|]((_, _) => Unknown);
      new;
      Ext(Snapshot(cells), Uniform(|clues.rows|, |clues.columns|, Unknown));
    }

    method SetCell(x: int, y: int, value: int) returns (o: Outcome)
      modifies cells
      ensures GameSetCellOf(old(Snapshot(cells)), x, y, value).Success? ==>
        o == Done && Snapshot(cells) == GameSetCellOf(old(Snapshot(cells)), x, y, value).value
      ensures GameSetCellOf(old(Snapshot(cells)), x, y, value).Failure? ==>
        o == Raised(IndexError) && Snapshot(cells) == old(Snapshot(cells))
    {
      ghost var b := Snapshot(cells);
      var r := NumpyIndex(y, cells.Length0);
      var c := NumpyIndex(x, cells.Length1);
      if r.None? || c.None? {
        return Raised(IndexError);
      }
      cells[r.value, c.value] := value;
      PutCells(b, Row, r.value, c.value, value);
      Ext(Snapshot(cells), b.Put(Row, r.value, c.value, value));
      o := Done;
    }

    function GetCell(x: int, y: int): (r: Result<int>)
      reads cells
      ensures r == CellOf(Snapshot(cells), x, y)
    {
      var r := NumpyIndex(y, cells.Length0);
      var c := NumpyIndex(x, cells.Length1);
      if r.Some? && c.Some? then Success(cells[r.value, c.value]) else Failure(IndexError)
    }

    function GetRow(y: int): (r: Result<seq<int>>)
      reads cells
      ensures r == LineAt(Snapshot(cells), Row, y)
    {
      match NumpyIndex(y, cells.Length0)
      case Some(k) =>
        var row := seq(cells.Length1, x requires 0 <= x < cells.Length1 reads cells => cells[k, x]);
        assert row == Snapshot(cells).Line(Row, k);
        Success(row)
      case None => Failure(IndexError)
    }

    function GetCol(x: int): (r: Result<seq<int>>)
      reads cells
      ensures r == LineAt(Snapshot(cells), Col, x)
    {
      match NumpyIndex(x, cells.Length1)
      case Some(k) =>
        var col := seq(cells.Length0, y requires 0 <= y < cells.Length0 reads cells => cells[y, k]);
        assert col == Snapshot(cells).Line(Col, k);
        Success(col)
      case None => Failure(IndexError)
    }

    /** The loop shared by `fill_row` (a = Row) and `fill_col` (a = Col). */
    method FillLine(a: Axis, i: int, value: int, overwrite: bool) returns (o: Outcome)
      modifies cells
      ensures GameFillLineOf(old(Snapshot(cells)), a, i, value, overwrite).Success? ==>
        o == Done && Snapshot(cells) == GameFillLineOf(old(Snapshot(cells)), a, i, value, overwrite).value
      ensures GameFillLineOf(old(Snapshot(cells)), a, i, value, overwrite).Failure? ==>
        o == Raised(IndexError) && Snapshot(cells) == old(Snapshot(cells))
    {
      ghost var b := Snapshot(cells);
      var n := if a == Row then cells.Length1 else cells.Length0;
      var count := if a == Row then cells.Length0 else cells.Length1;
      assert n == b.Len(a) && count == b.Count(a);
      if n == 0 {
        return Done;
      }
      var target := NumpyIndex(i, count);
      if target.None? {
        return Raised(IndexError);
      }
      var k := target.value;
      ghost var l := b.Line(a, k);
      ghost var t := if overwrite then Repeat(value, n) else FillUnknown(l, value);
      FillLineCells(cells, a, k, value, overwrite, b, t, l);
      o := Done;
    }

    /** The cells of line k become t: `value` where it overwrites or the cell is 0, the old cell elsewhere. */
    method FillRow(y: int, value: int, overwrite: bool) returns (o: Outcome)
      modifies cells
      ensures GameFillLineOf(old(Snapshot(cells)), Row, y, value, overwrite).Success? ==>
        o == Done && Snapshot(cells) == GameFillLineOf(old(Snapshot(cells)), Row, y, value, overwrite).value
      ensures GameFillLineOf(old(Snapshot(cells)), Row, y, value, overwrite).Failure? ==>
        o == Raised(IndexError) && Snapshot(cells) == old(Snapshot(cells))
    {
      o := FillLine(Row, y, value, overwrite);
    }

    method FillCol(x: int, value: int, overwrite: bool) returns (o: Outcome)
      modifies cells
      ensures GameFillLineOf(old(Snapshot(cells)), Col, x, value, overwrite).Success? ==>
        o == Done && Snapshot(cells) == GameFillLineOf(old(Snapshot(cells)), Col, x, value, overwrite).value
      ensures GameFillLineOf(old(Snapshot(cells)), Col, x, value, overwrite).Failure? ==>
        o == Raised(IndexError) && Snapshot(cells) == old(Snapshot(cells))
    {
      o := FillLine(Col, x, value, overwrite);
    }

    /**
      The loop shared by the three segment methods: one piece per run of v
      cells, a new empty piece after every other cell, then every zero
      removed, first to last, and [0] if nothing is left.
     */
    method Runs(a: Axis, i: int, v: int) returns (r: Result<seq<nat>>)
      ensures r == RunsAt(Snapshot(cells), a, i, v)
      ensures r.Success? ==> r.value != [] && (r.value == [0] || forall q :: 0 <= q < |r.value| ==> r.value[q] > 0)
    {
      ghost var b := Snapshot(cells);
      var n := if a == Row then cells.Length1 else cells.Length0;
      var count := if a == Row then cells.Length0 else cells.Length1;
      assert n == b.Len(a) && count == b.Count(a);
      if n == 0 {
        return Success([0]);
      }
      var target := NumpyIndex(i, count);
      if target.None? {
        return Failure(IndexError);
      }
      var segments := LinePieces(cells, a, target.value, v);
      segments := DropZeros(segments);
      if segments == [] {
        segments := [0];
      }
      r := Success(segments);
    }

    /** `get_row_segments(y)`: the run lengths of filled cells of row y, [0] for none. */
    method GetRowSegments(y: int) returns (r: Result<seq<nat>>)
      ensures r == RunsAt(Snapshot(cells), Row, y, Filled)
    {
      r := Runs(Row, y, Filled);
    }

    /** `get_col_segments(x)`: the run lengths of filled cells of column x, [0] for none. */
    method GetColSegments(x: int) returns (r: Result<seq<nat>>)
      ensures r == RunsAt(Snapshot(cells), Col, x, Filled)
    {
      r := Runs(Col, x, Filled);
    }

    /** `get_row_segments_empty(y)`: the run lengths of unknown cells of row y, [0] for none. */
    method GetRowSegmentsEmpty(y: int) returns (r: Result<seq<nat>>)
      ensures r == RunsAt(Snapshot(cells), Row, y, Unknown)
    {
      r := Runs(Row, y, Unknown);
    }

    /**
      `check_row(i)` / `check_col(i)`: as many runs as clue numbers, each
      equal to its number. The clue list is indexed the way Python indexes
      a list, so an index that names no line raises there even along a line
      of no cells.
     */
    method CheckLine(a: Axis, i: int) returns (r: Result<bool>)
      requires Valid()
      ensures r == CheckAt(Snapshot(cells), clues, a, i)
    {
      var segments := Runs(a, i, Filled);
      var count := if a == Row then cells.Length0 else cells.Length1;
      var target := NumpyIndex(i, count);
      if segments.Failure? || target.None? {
        return Failure(IndexError);
      }
      ghost var line := Snapshot(cells).Line(a, target.value);
      assert segments.value == SegmentsOrZero(line);
      var same := SameRuns(segments.value, clues.Of(a)[target.value]);
      r := Success(same);
    }

    method CheckRow(y: int) returns (r: Result<bool>)
      requires Valid()
      ensures r == CheckAt(Snapshot(cells), clues, Row, y)
    {
      r := CheckLine(Row, y);
    }

    method CheckCol(x: int) returns (r: Result<bool>)
      requires Valid()
      ensures r == CheckAt(Snapshot(cells), clues, Col, x)
    {
      r := CheckLine(Col, x);
    }

    /** `check_all`: every row, then every column, is checked; true when all pass. */
    method CheckAll() returns (r: bool)
      requires Valid()
      ensures r == Solved(GameClass, Snapshot(cells), clues)
    {
      var rows := Results(Row);
      var cols := Results(Col);
      r := AllPass(rows + cols);
      SolvedFromResults(Snapshot(cells), clues, rows, cols);
    }

    /** The checks of every line along the axis, in order. */
    method Results(a: Axis) returns (results: seq<bool>)
      requires Valid()
      ensures results == Flags(Snapshot(cells).Count(a), SolvedTest(Snapshot(cells), clues, a))
    {
      ghost var b := Snapshot(cells);
      var count := if a == Row then cells.Length0 else cells.Length1;
      results := [];
      for k := 0 to count
        invariant results == Flags(k, SolvedTest(b, clues, a))
      {
        var c := LineResult(a, k);
        results := results + [c];
      }
    }

    /** The call of the loop above for line k, which exists. */
    method LineResult(a: Axis, k: nat) returns (v: bool)
      requires Valid() && k < Snapshot(cells).Count(a)
      ensures v == SolvedTest(Snapshot(cells), clues, a)(k)
    {
      var c := CheckLine(a, k);
      CheckAtLine(Snapshot(cells), clues, a, k);
      v := c.value;
    }

    /** `is_solved`. */
    method IsSolved() returns (r: bool)
      requires Valid()
      ensures r == Solved(GameClass, Snapshot(cells), clues)
    {
      r := CheckAll();
    }

    /**
      `check_row_error(i)` / `check_col_error(i)`: a line with a filled cell
      is wrong when its runs add up to more than its clue or one run is
      longer than the longest clue number.
     */
    method CheckLineError(a: Axis, i: int) returns (r: Result<bool>)
      requires Valid()
      ensures r == CheckErrorAt(Snapshot(cells), clues, a, i)
    {
      var segments := Runs(a, i, Filled);
      var count := if a == Row then cells.Length0 else cells.Length1;
      var target := NumpyIndex(i, count);
      if segments.Failure? {
        return Failure(IndexError);
      }
      if segments.value == [0] {
        return Success(false);
      }
      ghost var line := Snapshot(cells).Line(a, target.value);
      assert segments.value == SegmentsOrZero(line);
      var s := segments.value;
      var clue := clues.Of(a)[target.value];
      if Sum(s) > Sum(clue) {
        return Success(true);
      }
      var longer := AnyLonger(s, Max(clue));
      r := Success(longer);
    }

    method CheckRowError(y: int) returns (r: Result<bool>)
      requires Valid()
      ensures r == CheckErrorAt(Snapshot(cells), clues, Row, y)
    {
      r := CheckLineError(Row, y);
    }

    method CheckColError(x: int) returns (r: Result<bool>)
      requires Valid()
      ensures r == CheckErrorAt(Snapshot(cells), clues, Col, x)
    {
      r := CheckLineError(Col, x);
    }

    /** `check_error`: some row or some column is wrong. */
    method CheckError() returns (r: bool)
      requires Valid()
      ensures r == BoardError(Snapshot(cells), clues)
    {
      var rows := ErrorResults(Row);
      var cols := ErrorResults(Col);
      r := true in rows + cols;
      ErrorFromResults(Snapshot(cells), clues, rows, cols);
    }

    /** The error checks of every line along the axis, in order. */
    method ErrorResults(a: Axis) returns (results: seq<bool>)
      requires Valid()
      ensures results == Flags(Snapshot(cells).Count(a), ErrorTest(Snapshot(cells), clues, a))
    {
      ghost var b := Snapshot(cells);
      var count := if a == Row then cells.Length0 else cells.Length1;
      results := [];
      for k := 0 to count
        invariant results == Flags(k, ErrorTest(b, clues, a))
      {
        var c := LineErrorResult(a, k);
        results := results + [c];
      }
    }

    /** The call of the loop above for line k, which exists. */
    method LineErrorResult(a: Axis, k: nat) returns (v: bool)
      requires Valid() && k < Snapshot(cells).Count(a)
      ensures v == ErrorTest(Snapshot(cells), clues, a)(k)
    {
      var c := CheckLineError(a, k);
      CheckErrorAtLine(Snapshot(cells), clues, a, k);
      v := c.value;
    }
  }

  /** The comparison loop of `check_row`: the lengths first, then number by number. */
  method SameRuns(segments: seq<nat>, clue: seq<nat>) returns (r: bool)
    ensures r <==> segments == clue
  {
    if |segments| != |clue| {
      return false;
    }
    for q := 0 to |clue|
      invariant segments[..q] == clue[..q]
    {
      if segments[q] != clue[q] {
        return false;
      }
      assert segments[..q + 1] == segments[..q] + [clue[q]];
      assert clue[..q + 1] == clue[..q] + [clue[q]];
    }
    assert segments == segments[..|clue|];
    r := true;
  }

  /** The last loop of `check_row_error`: some run is longer than `longest`. */
  method AnyLonger(s: seq<nat>, longest: nat) returns (r: bool)
    ensures r <==> exists k :: 0 <= k < |s| && s[k] > longest
  {
    for q := 0 to |s|
      invariant forall p :: 0 <= p < q ==> s[p] <= longest
    {
      if s[q] > longest {
        return true;
      }
    }
    r := false;
  }

  /** The last loop of `check_all`: true unless some check failed. */
  method AllPass(results: seq<bool>) returns (r: bool)
    ensures r <==> false !in results
  {
    r := true;
    for q := 0 to |results|
      invariant r <==> false !in results[..q]
    {
      assert results[..q + 1] == results[..q] + [results[q]];
      if !results[q] {
        r := false;
      }
    }
    assert results[..|results|] == results;
  }

  /** The board is solved exactly when no row check and no column check failed. */
  lemma SolvedFromResults(b: Board, clues: Clues, rows: seq<bool>, cols: seq<bool>)
    requires b.Valid() && clues.Fit(b)
    requires rows == Flags(b.height, SolvedTest(b, clues, Row)) && cols == Flags(b.width, SolvedTest(b, clues, Col))
    ensures Solved(GameClass, b, clues) <==> false !in rows + cols
  {
    InConcat(rows, cols, false);
    if false in rows {
      var y :| 0 <= y < |rows| && !rows[y];
      FlagsAt(b.height, SolvedTest(b, clues, Row), y);
      assert !LineSolved(GameClass, b.Line(Row, y), clues.rows[y]);
    } else if false in cols {
      var x :| 0 <= x < |cols| && !cols[x];
      FlagsAt(b.width, SolvedTest(b, clues, Col), x);
      assert !LineSolved(GameClass, b.Line(Col, x), clues.columns[x]);
    } else {
      forall y | 0 <= y < b.height
        ensures LineSolved(GameClass, b.Line(Row, y), clues.rows[y])
      {
        FlagsAt(b.height, SolvedTest(b, clues, Row), y);
        assert rows[y] in rows;
      }
      forall x | 0 <= x < b.width
        ensures LineSolved(GameClass, b.Line(Col, x), clues.columns[x])
      {
        FlagsAt(b.width, SolvedTest(b, clues, Col), x);
        assert cols[x] in cols;
      }
    }
  }

  /** The board is wrong exactly when some row or some column check reported an error. */
  lemma ErrorFromResults(b: Board, clues: Clues, rows: seq<bool>, cols: seq<bool>)
    requires b.Valid() && clues.Fit(b)
    requires rows == Flags(b.height, ErrorTest(b, clues, Row)) && cols == Flags(b.width, ErrorTest(b, clues, Col))
    ensures BoardError(b, clues) <==> true in rows + cols
  {
    InConcat(rows, cols, true);
    ReportedIsError(b, clues, rows, cols);
    ErrorIsReported(b, clues, rows, cols);
  }

  lemma InConcat(p: seq<bool>, q: seq<bool>, v: bool)
    ensures v in p + q <==> v in p || v in q
  {
    if v in p + q {
      var k :| 0 <= k < |p + q| && (p + q)[k] == v;
      if k >= |p| {
        assert q[k - |p|] == v;
      }
    }
    if v in q {
      var k :| 0 <= k < |q| && q[k] == v;
      assert (p + q)[|p| + k] == v;
    }
  }

  lemma ReportedIsError(b: Board, clues: Clues, rows: seq<bool>, cols: seq<bool>)
    requires b.Valid() && clues.Fit(b)
    requires rows == Flags(b.height, ErrorTest(b, clues, Row)) && cols == Flags(b.width, ErrorTest(b, clues, Col))
    ensures true in rows || true in cols ==> BoardError(b, clues)
  {
    if true in rows {
      var y :| 0 <= y < |rows| && rows[y];
      FlagsAt(b.height, ErrorTest(b, clues, Row), y);
      assert LineError(b.Line(Row, y), clues.rows[y]);
    } else if true in cols {
      var x :| 0 <= x < |cols| && cols[x];
      FlagsAt(b.width, ErrorTest(b, clues, Col), x);
      assert LineError(b.Line(Col, x), clues.columns[x]);
    }
  }

  lemma ErrorIsReported(b: Board, clues: Clues, rows: seq<bool>, cols: seq<bool>)
    requires b.Valid() && clues.Fit(b)
    requires rows == Flags(b.height, ErrorTest(b, clues, Row)) && cols == Flags(b.width, ErrorTest(b, clues, Col))
    ensures BoardError(b, clues) ==> true in rows || true in cols
  {
    if y :| 0 <= y < b.height && LineError(b.Line(Row, y), clues.rows[y]) {
      FlagsAt(b.height, ErrorTest(b, clues, Row), y);
      assert rows[y];
    } else if x :| 0 <= x < b.width && LineError(b.Line(Col, x), clues.columns[x]) {
      FlagsAt(b.width, ErrorTest(b, clues, Col), x);
      assert cols[x];
    }
  }

  /**
    `while 0 in segments: segments.remove(0)`: each round removes the
    first zero, until none is left.
   */
  method DropZeros(p: seq<nat>) returns (segments: seq<nat>)
    ensures segments == NonZero(p)
  {
    segments := p;
    while 0 in segments
      invariant NonZero(segments) == NonZero(p)
      decreases |segments|
    {
      var idx := 0;
      while segments[idx] != 0
        invariant idx < |segments| && 0 in segments[idx..]
        decreases |segments| - idx
      {
        idx := idx + 1;
      }
      NonZeroDropZero(segments, idx);
      segments := segments[..idx] + segments[idx + 1..];
    }
    assert forall q :: 0 <= q < |segments| ==> segments[q] > 0;
    NonZeroOfPositive(segments);
  }
}
