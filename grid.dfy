/**
  The grid class of the package, pyNonogram/nonogram_grid.py: a 2-D numpy
  array of cells with checked writes, whole-line fills and the run lengths
  of a line computed through a string.

  Indices follow numpy: an index i into an axis of n entries names entry i
  when 0 <= i < n and entry i + n when -n <= i < 0; any other index raises
  IndexError. The grid is addressed as (x, y), x the column and y the row.
 */
module Grids {
  import opened Lines
  import opened Boards
  import opened Results
  import Heuristics
  import opened Texts

  /** The entry a numpy index names in an axis of n entries, if any. */
  function NumpyIndex(i: int, n: nat): (r: Option<nat>)
    ensures r.Some? <==> -(n as int) <= i < n
    ensures r.Some? ==> r.value < n && r.value % n == i % n
  {
    if 0 <= i < n then Some(i) else if -(n as int) <= i < 0 then Some(i + n) else None
  }

  // ---------------------------------------------------------------------
  // The grid operations on board values

  /** `get_cell(x, y)` on board b. */
  function CellOf(b: Board, x: int, y: int): Result<int>
    requires b.Valid()
  {
    match (NumpyIndex(y, b.height), NumpyIndex(x, b.width))
    case (Some(r), Some(c)) => Success(b.cells[r][c])
    case _ => Failure(IndexError)
  }

  /** `set_cell(x, y, v)` on board b: the value is checked before the indices. */
  function SetCellOf(b: Board, x: int, y: int, v: int): Result<Board>
    requires b.Valid()
  {
    if !IsCell(v) then Failure(ValueError)
    else match (NumpyIndex(y, b.height), NumpyIndex(x, b.width))
      case (Some(r), Some(c)) => Success(b.Put(Row, r, c, v))
      case _ => Failure(IndexError)
  }

  /** `get_row(i)` (a = Row) or `get_col(i)` (a = Col) on board b. */
  function LineAt(b: Board, a: Axis, i: int): Result<seq<int>>
    requires b.Valid()
  {
    match NumpyIndex(i, b.Count(a))
    case Some(k) => Success(b.Line(a, k))
    case None => Failure(IndexError)
  }

  /** Every unknown cell of the line set to v, every other cell kept. */
  function FillUnknown(line: seq<int>, v: int): (r: seq<int>)
    ensures |r| == |line|
  {
    seq(|line|, j requires 0 <= j < |line| => if line[j] == Unknown then v else line[j])
  }

  /**
    `fill_row(i, v, overwrite)` / `fill_col(i, v, overwrite)` on board b.
    The loop over the line's cells raises at the first cell it touches: with
    overwriting, `set_cell` checks the value, then the index; without, the
    cell is read first (IndexError) and `set_cell` only runs on an unknown
    cell (ValueError). A line of no cells is never touched, so nothing is
    raised for it.
   */
  function FillLineOf(b: Board, a: Axis, i: int, v: int, overwrite: bool): Result<Board>
    requires b.Valid()
  {
    if b.Len(a) == 0 then Success(b)
    else if overwrite && !IsCell(v) then Failure(ValueError)
    else match NumpyIndex(i, b.Count(a))
      case None => Failure(IndexError)
      case Some(k) =>
        var line := b.Line(a, k);
        if overwrite then Success(b.PutLine(a, k, Repeat(v, b.Len(a))))
        else if !IsCell(v) && Unknown in line then Failure(ValueError)
        else Success(b.PutLine(a, k, FillUnknown(line, v)))
  }

  /** Every cell of the board is -1, 0 or 1. */
  predicate AllBoardCells(b: Board)
    requires b.Valid()
  {
    forall y :: 0 <= y < b.height ==> AllCells(b.cells[y])
  }

  // ---------------------------------------------------------------------
  // The run lengths of a line through a string

  /** `str(max(c, 0))` for a cell c. */
  function Digit(c: int): char
    requires IsCell(c)
  {
    var m := if c > 0 then c else 0;
    if m == 0 then '0' else '1'
  }

  /** The line written out as digits, `''.join(map(str, np.maximum(line, 0)))`. */
  function Render(line: seq<int>): (r: string)
    requires AllCells(line)
    ensures |r| == |line|
  {
    seq(|line|, j requires 0 <= j < |line| => Digit(line[j]))
  }

  /** `filter(lambda x: len(x) > 0, parts)`. */
  function NonEmpty(parts: seq<string>): (r: seq<string>)
    ensures forall k :: 0 <= k < |r| ==> r[k] != []
  {
    if parts == [] then []
    else if parts[0] == [] then NonEmpty(parts[1..])
    else [parts[0]] + NonEmpty(parts[1..])
  }

  /** `map(len, parts)`. */
  function Lengths(parts: seq<string>): (r: seq<nat>)
    ensures |r| == |parts| && forall k :: 0 <= k < |parts| ==> r[k] == |parts[k]|
  {
    seq(|parts|, k requires 0 <= k < |parts| => |parts[k]|)
  }

  /** `get_row_segments(i)` / `get_col_segments(i)` on board b. */
  function SegmentsAt(b: Board, a: Axis, i: int): (r: Result<seq<nat>>)
    requires b.Valid() && AllBoardCells(b)
  {
    match NumpyIndex(i, b.Count(a))
    case Some(k) =>
      LineCells(b, a, k);
      Success(Lengths(NonEmpty(Split(Render(b.Line(a, k)), '0'))))
    case None => Failure(IndexError)
  }

  // ---------------------------------------------------------------------
  // Properties

  lemma LineCells(b: Board, a: Axis, k: nat)
    requires b.Valid() && AllBoardCells(b) && k < b.Count(a)
    ensures AllCells(b.Line(a, k))
  {
    var line := b.Line(a, k);
    forall j | 0 <= j < |line|
      ensures IsCell(line[j])
    {
      if a == Row {
        assert line[j] == b.cells[k][j];
      } else {
        assert AllCells(b.cells[j]);
        assert line[j] == b.cells[j][k];
      }
    }
  }

  /** The digits of a line one cell longer. */
  lemma RenderSnoc(line: seq<int>, c: int)
    requires AllCells(line + [c])
    ensures AllCells(line) && IsCell(c) && Render(line + [c]) == Render(line) + [Digit(c)]
  {
    assert forall j :: 0 <= j < |line| ==> (line + [c])[j] == line[j];
    assert (line + [c])[|line|] == c;
  }

  lemma LengthsExtend(p: seq<string>, c: char)
    requires |p| >= 1
    ensures Lengths(p[..|p| - 1] + [p[|p| - 1] + [c]]) == Lengths(p)[..|p| - 1] + [Lengths(p)[|p| - 1] + 1]
  {
    var q := p[..|p| - 1] + [p[|p| - 1] + [c]];
    assert forall k :: 0 <= k < |p| - 1 ==> q[k] == p[k];
  }

  lemma LengthsAppendEmpty(p: seq<string>)
    ensures Lengths(p + [[]]) == Lengths(p) + [0]
  {
    assert forall k :: 0 <= k < |p| ==> (p + [[]])[k] == p[k];
  }

  /** The lengths after one more character: the piece it joins or the empty piece it starts. */
  lemma LengthsSplitSnoc(s: string, c: char, sep: char)
    ensures Lengths(Split(s + [c], sep)) == Step(Lengths(Split(s, sep)), if c == sep then 0 else 1, 1)
  {
    SplitSnoc(s, c, sep);
    if c != sep {
      LengthsExtend(Split(s, sep), c);
    } else {
      LengthsAppendEmpty(Split(s, sep));
    }
  }

  /** Splitting the digits at '0' gives the pieces of filled cells, piece for piece. */
  lemma {:induction false} SplitPieces(line: seq<int>)
    requires AllCells(line)
    ensures Lengths(Split(Render(line), '0')) == Pieces(line, Filled)
    decreases |line|
  {
    if line != [] {
      var init := line[..|line| - 1];
      var c := line[|line| - 1];
      assert line == init + [c];
      RenderSnoc(init, c);
      SplitPieces(init);
      LengthsSplitSnoc(Render(init), Digit(c), '0');
      PiecesSnoc(init, c, Filled);
      assert (if Digit(c) == '0' then 0 else 1) == Filled <==> c == Filled;
    }
  }

  /** Dropping the empty pieces drops the zero lengths. */
  lemma {:induction false} NonEmptyLengths(parts: seq<string>)
    ensures Lengths(NonEmpty(parts)) == NonZero(Lengths(parts))
    decreases |parts|
  {
    if parts != [] {
      NonEmptyLengths(parts[1..]);
      assert Lengths(parts)[1..] == Lengths(parts[1..]);
      if parts[0] != [] {
        assert Lengths([parts[0]] + NonEmpty(parts[1..])) == [|parts[0]|] + Lengths(NonEmpty(parts[1..]));
      }
    }
  }

  /** The string pipeline of `get_row_segments` computes the run lengths of filled cells. */
  lemma SegmentsPipeline(line: seq<int>)
    requires AllCells(line)
    ensures Lengths(NonEmpty(Split(Render(line), '0'))) == Segments(line)
  {
    SplitPieces(line);
    NonEmptyLengths(Split(Render(line), '0'));
  }

  /**
    A negative index names the same entry as the index n entries further
    on: the last row is row -1.
   */
  lemma NegativeIndex(b: Board, x: int, y: int)
    requires b.Valid() && 0 <= x < b.width && 0 <= y < b.height
    ensures CellOf(b, x - b.width, y) == CellOf(b, x, y) == CellOf(b, x, y - b.height)
  {
  }

  /**
    `set_cell` fails with ValueError exactly for a value other than -1, 0
    and 1, and otherwise with IndexError exactly where `get_cell` fails.
   */
  lemma SetCellErrors(b: Board, x: int, y: int, v: int)
    requires b.Valid()
    ensures SetCellOf(b, x, y, v) == Failure(ValueError) <==> !IsCell(v)
    ensures SetCellOf(b, x, y, v) == Failure(IndexError) <==> IsCell(v) && CellOf(b, x, y).Failure?
  {
  }

  /**
    After a successful `set_cell`, `get_cell` at the same place reads the
    value written, and every cell elsewhere reads as before.
   */
  lemma SetThenGet(b: Board, x: int, y: int, v: int, x': int, y': int)
    requires b.Valid() && SetCellOf(b, x, y, v).Success?
    ensures var c := SetCellOf(b, x, y, v).value;
      && CellOf(c, x, y) == Success(v)
      && (NumpyIndex(x', b.width) != NumpyIndex(x, b.width) || NumpyIndex(y', b.height) != NumpyIndex(y, b.height) ==>
          CellOf(c, x', y') == CellOf(b, x', y'))
  {
    var r := NumpyIndex(y, b.height).value;
    var k := NumpyIndex(x, b.width).value;
    PutCells(b, Row, r, k, v);
  }

  /** A successful `set_cell` keeps every cell -1, 0 or 1. */
  lemma SetCellKeepsCells(b: Board, x: int, y: int, v: int)
    requires b.Valid() && AllBoardCells(b) && SetCellOf(b, x, y, v).Success?
    ensures AllBoardCells(SetCellOf(b, x, y, v).value)
  {
    var r := NumpyIndex(y, b.height).value;
    var k := NumpyIndex(x, b.width).value;
    PutCells(b, Row, r, k, v);
    var c := SetCellOf(b, x, y, v).value;
    forall y0 | 0 <= y0 < c.height
      ensures AllCells(c.cells[y0])
    {
      assert AllCells(b.cells[y0]);
      forall x0 | 0 <= x0 < c.width
        ensures IsCell(c.cells[y0][x0])
      {
      }
    }
  }

  /**
    What a fill does to its line: with overwriting every cell becomes v;
    without, every unknown cell does and every other cell is kept. The
    other lines along the axis are unchanged.
   */
  lemma FillLineMeaning(b: Board, a: Axis, i: int, v: int, overwrite: bool, k: nat)
    requires b.Valid() && b.Len(a) > 0 && FillLineOf(b, a, i, v, overwrite).Success? && k < b.Count(a)
    ensures var c := FillLineOf(b, a, i, v, overwrite).value;
      var target := NumpyIndex(i, b.Count(a)).value;
      && c.height == b.height && c.width == b.width
      && (k == target && overwrite ==> c.Line(a, k) == Repeat(v, b.Len(a)))
      && (k == target && !overwrite ==> forall j :: 0 <= j < b.Len(a) ==>
            c.Line(a, k)[j] == if b.Line(a, k)[j] == Unknown then v else b.Line(a, k)[j])
      && (k != target ==> c.Line(a, k) == b.Line(a, k))
  {
    var target := NumpyIndex(i, b.Count(a)).value;
    var line := if overwrite then Repeat(v, b.Len(a)) else FillUnknown(b.Line(a, target), v);
    LineOfPutLine(b, a, target, line);
    if k != target {
      OtherLineOfPutLine(b, a, target, line, k);
    }
  }

  /** The error cases of a fill, in both directions. */
  lemma FillLineErrors(b: Board, a: Axis, i: int, v: int, overwrite: bool)
    requires b.Valid()
    ensures FillLineOf(b, a, i, v, overwrite) == Failure(IndexError) <==>
      b.Len(a) > 0 && (overwrite ==> IsCell(v)) && LineAt(b, a, i).Failure?
    ensures FillLineOf(b, a, i, v, overwrite) == Failure(ValueError) <==>
      b.Len(a) > 0 && !IsCell(v) && (overwrite || (LineAt(b, a, i).Success? && Unknown in LineAt(b, a, i).value))
  {
  }

  /** Filling a line a second time with the same value changes nothing. */
  lemma FillLineIdempotent(b: Board, a: Axis, i: int, v: int, overwrite: bool)
    requires b.Valid() && FillLineOf(b, a, i, v, overwrite).Success?
    ensures FillLineOf(FillLineOf(b, a, i, v, overwrite).value, a, i, v, overwrite) == FillLineOf(b, a, i, v, overwrite)
  {
    var c := FillLineOf(b, a, i, v, overwrite).value;
    if b.Len(a) > 0 {
      var k := NumpyIndex(i, b.Count(a)).value;
      var line := if overwrite then Repeat(v, b.Len(a)) else FillUnknown(b.Line(a, k), v);
      LineOfPutLine(b, a, k, line);
      PutLineTwice(b, a, k, line, line);
      if !overwrite {
        if IsCell(v) {
          assert FillUnknown(line, v) == line;
        } else {
          assert Unknown !in line;
          assert FillUnknown(line, v) == line;
        }
      }
    }
  }

  /**
    Filling a line with -1 without overwriting is the crossing of its
    unknown cells that the solver applies to a solved line.
   */
  lemma FillCrossesUnknown(line: seq<int>)
    ensures FillUnknown(line, Crossed) == Heuristics.CrossUnknown(line)
  {
  }

  // ---------------------------------------------------------------------
  // The class

  class NonogramGrid {
    /** The numpy array, height by width. */
    const cells: array2<int>

    /** Every cell holds -1, 0 or 1: `set_cell` refuses anything else. */
    predicate Valid()
      reads cells
    {
      AllBoardCells(Snapshot(cells))
    }

    /** A grid of the given shape with every cell 0. */
    constructor(height: nat, width: nat)
      ensures Snapshot(cells) == Uniform(height, width, Unknown)
      ensures Valid() && fresh(cells)
    {
      cells := new int[height, width]((_, _) => Unknown);
      new;
      Ext(Snapshot(cells), Uniform(height, width, Unknown));
    }

    method SetCell(x: int, y: int, value: int) returns (o: Outcome)
      modifies cells
      ensures SetCellOf(old(Snapshot(cells)), x, y, value).Success? ==>
        o == Done && Snapshot(cells) == SetCellOf(old(Snapshot(cells)), x, y, value).value
      ensures SetCellOf(old(Snapshot(cells)), x, y, value).Failure? ==>
        o == Raised(SetCellOf(old(Snapshot(cells)), x, y, value).error) && Snapshot(cells) == old(Snapshot(cells))
      ensures old(Valid()) ==> Valid()
    {
      ghost var b := Snapshot(cells);
      if !IsCell(value) {
        return Raised(ValueError);
      }
      var r := NumpyIndex(y, cells.Length0);
      var c := NumpyIndex(x, cells.Length1);
      if r.None? || c.None? {
        return Raised(IndexError);
      }
      cells[r.value, c.value] := value;
      PutCells(b, Row, r.value, c.value, value);
      Ext(Snapshot(cells), b.Put(Row, r.value, c.value, value));
      o := Done;
      if AllBoardCells(b) {
        SetCellKeepsCells(b, x, y, value);
      }
    }

    function GetCell(x: int, y: int): (r: Result<int>)
      reads cells
      ensures r == CellOf(Snapshot(cells), x, y)
    {
      var r := NumpyIndex(y, cells.Length0);
      var c := NumpyIndex(x, cells.Length1);
      if r.Some? && c.Some? then Success(cells[r.value, c.value]) else Failure(IndexError)
    }

    function GetRow(y: int): (r: Result<seq<int>>)
      reads cells
      ensures r == LineAt(Snapshot(cells), Row, y)
    {
      match NumpyIndex(y, cells.Length0)
      case Some(k) =>
        var row := seq(cells.Length1, x requires 0 <= x < cells.Length1 reads cells => cells[k, x]);
        assert row == Snapshot(cells).Line(Row, k);
        Success(row)
      case None => Failure(IndexError)
    }

    function GetCol(x: int): (r: Result<seq<int>>)
      reads cells
      ensures r == LineAt(Snapshot(cells), Col, x)
    {
      match NumpyIndex(x, cells.Length1)
      case Some(k) =>
        var col := seq(cells.Length0, y requires 0 <= y < cells.Length0 reads cells => cells[y, k]);
        assert col == Snapshot(cells).Line(Col, k);
        Success(col)
      case None => Failure(IndexError)
    }

    /** The loop shared by `fill_row` (a = Row) and `fill_col` (a = Col). */
    method FillLine(a: Axis, i: int, value: int, overwrite: bool) returns (o: Outcome)
      modifies cells
      ensures FillLineOf(old(Snapshot(cells)), a, i, value, overwrite).Success? ==>
        o == Done && Snapshot(cells) == FillLineOf(old(Snapshot(cells)), a, i, value, overwrite).value
      ensures FillLineOf(old(Snapshot(cells)), a, i, value, overwrite).Failure? ==>
        o == Raised(FillLineOf(old(Snapshot(cells)), a, i, value, overwrite).error) && Snapshot(cells) == old(Snapshot(cells))
      ensures old(Valid()) && IsCell(value) ==> Valid()
    {
      ghost var b := Snapshot(cells);
      var n := if a == Row then cells.Length1 else cells.Length0;
      var count := if a == Row then cells.Length0 else cells.Length1;
      assert n == b.Len(a) && count == b.Count(a);
      if n == 0 {
        return Done;
      }
      // every error is raised at the first cell the loop touches, before any write
      if overwrite && !IsCell(value) {
        return Raised(ValueError);
      }
      var target := NumpyIndex(i, count);
      if target.None? {
        return Raised(IndexError);
      }
      var k := target.value;
      ghost var l := b.Line(a, k);
      ghost var t := if overwrite then Repeat(value, n) else FillUnknown(l, value);
      o := FillLoop(a, k, value, overwrite, b, t, l);
      if o == Done && old(Valid()) && IsCell(value) {
        FillKeepsCells(b, a, k, t);
      }
    }

    /**
      The loop of a fill over line k, which writes the target t: `value`
      wherever it overwrites or the cell is unknown, the old cell elsewhere.
      The first unknown cell raises when the value is not one of -1, 0, 1;
      no cell was written before it.
     */
    method FillLoop(a: Axis, k: nat, value: int, overwrite: bool, ghost b: Board, ghost t: seq<int>, ghost l: seq<int>)
      returns (o: Outcome)
      requires b == Snapshot(cells) && k < b.Count(a) && l == b.Line(a, k) && |t| == |l|
      requires forall j :: 0 <= j < |t| ==> t[j] == if overwrite || l[j] == Unknown then value else l[j]
      requires overwrite ==> IsCell(value)
      modifies cells
      ensures IsCell(value) || Unknown !in l ==> o == Done && Snapshot(cells) == b.PutLine(a, k, t)
      ensures !IsCell(value) && Unknown in l ==> o == Raised(ValueError) && Snapshot(cells) == b
    {
      var n := if a == Row then cells.Length1 else cells.Length0;
      assert n == b.Len(a);
      PutSameLine(b, a, k);
      SpliceEnds(t, l);
      for j := 0 to n
        invariant Snapshot(cells) == b.PutLine(a, k, t[..j] + l[j..])
        invariant !IsCell(value) ==> forall q :: 0 <= q < j ==> l[q] != Unknown
      {
        SpliceAt(b, a, k, t, l, j);
        if overwrite || ReadCell(cells, a, k, j) == Unknown {
          if !IsCell(value) {
            assert l[j] == Unknown;
            KeepPrefix(t, l, j);
            return Raised(ValueError);
          }
          WriteNextCell(cells, a, k, j, value, b, t, l);
        } else {
          KeepStep(t, l, j);
        }
      }
      o := Done;
    }

    method FillRow(y: int, value: int, overwrite: bool) returns (o: Outcome)
      modifies cells
      ensures FillLineOf(old(Snapshot(cells)), Row, y, value, overwrite).Success? ==>
        o == Done && Snapshot(cells) == FillLineOf(old(Snapshot(cells)), Row, y, value, overwrite).value
      ensures FillLineOf(old(Snapshot(cells)), Row, y, value, overwrite).Failure? ==>
        o == Raised(FillLineOf(old(Snapshot(cells)), Row, y, value, overwrite).error) && Snapshot(cells) == old(Snapshot(cells))
      ensures old(Valid()) && IsCell(value) ==> Valid()
    {
      o := FillLine(Row, y, value, overwrite);
    }

    method FillCol(x: int, value: int, overwrite: bool) returns (o: Outcome)
      modifies cells
      ensures FillLineOf(old(Snapshot(cells)), Col, x, value, overwrite).Success? ==>
        o == Done && Snapshot(cells) == FillLineOf(old(Snapshot(cells)), Col, x, value, overwrite).value
      ensures FillLineOf(old(Snapshot(cells)), Col, x, value, overwrite).Failure? ==>
        o == Raised(FillLineOf(old(Snapshot(cells)), Col, x, value, overwrite).error) && Snapshot(cells) == old(Snapshot(cells))
      ensures old(Valid()) && IsCell(value) ==> Valid()
    {
      o := FillLine(Col, x, value, overwrite);
    }

    /** `get_row_segments`: the run lengths of filled cells of row y. */
    function GetRowSegments(y: int): (r: Result<seq<nat>>)
      requires Valid()
      reads cells
      ensures r == SegmentsAt(Snapshot(cells), Row, y)
      ensures r.Success? <==> GetRow(y).Success?
      ensures r.Success? ==> r.value == Segments(GetRow(y).value)
    {
      var b := Snapshot(cells);
      match GetRow(y)
      case Success(row) =>
        LineCells(b, Row, NumpyIndex(y, b.height).value);
        SegmentsPipeline(row);
        Success(Lengths(NonEmpty(Split(Render(row), '0'))))
      case Failure(e) => Failure(e)
    }

    /** `get_col_segments`: the run lengths of filled cells of column x. */
    function GetColSegments(x: int): (r: Result<seq<nat>>)
      requires Valid()
      reads cells
      ensures r == SegmentsAt(Snapshot(cells), Col, x)
      ensures r.Success? <==> GetCol(x).Success?
      ensures r.Success? ==> r.value == Segments(GetCol(x).value)
    {
      var b := Snapshot(cells);
      match GetCol(x)
      case Success(col) =>
        LineCells(b, Col, NumpyIndex(x, b.width).value);
        SegmentsPipeline(col);
        Success(Lengths(NonEmpty(Split(Render(col), '0'))))
      case Failure(e) => Failure(e)
    }
  }

  /** The cells of the target line before j are the old ones: nothing was written. */
  lemma KeepPrefix(t: seq<int>, l: seq<int>, j: nat)
    requires |t| == |l| && j <= |t| && forall q :: 0 <= q < j ==> t[q] == l[q]
    ensures t[..j] + l[j..] == l
  {
    assert forall q :: 0 <= q < |l| ==> (t[..j] + l[j..])[q] == l[q];
  }

  /** Replacing a line by one of cells keeps every cell -1, 0 or 1. */
  lemma FillKeepsCells(b: Board, a: Axis, k: nat, line: seq<int>)
    requires b.Valid() && AllBoardCells(b) && k < b.Count(a) && |line| == b.Len(a) && AllCells(line)
    ensures AllBoardCells(b.PutLine(a, k, line))
  {
    var c := b.PutLine(a, k, line);
    PutLineCells(b, a, k, line);
    forall y | 0 <= y < c.height
      ensures AllCells(c.cells[y])
    {
      assert AllCells(b.cells[y]);
      forall x | 0 <= x < c.width
        ensures IsCell(c.cells[y][x])
      {
      }
    }
  }
}
