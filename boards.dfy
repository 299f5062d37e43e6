/**
  The grid as a value: `height` rows of `width` cells, cell (x, y) being
  cells[y][x] as in the numpy arrays of the repository. A line is a row or a
  column; the solver treats both the same way, so every operation on lines
  takes an axis and an index along it.
 */
module Boards {
  import opened Lines

  datatype Axis = Row | Col

  datatype Board = Board(height: nat, width: nat, cells: seq<seq<int>>) {

    predicate Valid() {
      |cells| == height && forall y :: 0 <= y < height ==> |cells[y]| == width
    }

    /** How many lines run along the axis. */
    function Count(a: Axis): nat {
      if a == Row then height else width
    }

    /** How many cells one line along the axis holds. */
    function Len(a: Axis): nat {
      if a == Row then width else height
    }

    /** Cell j of line i: cell (j, i) of a row, cell (i, j) of a column. */
    function Get(a: Axis, i: nat, j: nat): int
      requires Valid() && i < Count(a) && j < Len(a)
    {
      if a == Row then cells[i][j] else cells[j][i]
    }

    function Line(a: Axis, i: nat): (r: seq<int>)
      requires Valid() && i < Count(a)
      ensures |r| == Len(a)
      ensures forall j :: 0 <= j < Len(a) ==> r[j] == Get(a, i, j)
    {
      seq(Len(a), j requires 0 <= j < Len(a) => Get(a, i, j))
    }

    /** The board with cell j of line i set to v. */
    function Put(a: Axis, i: nat, j: nat, v: int): (r: Board)
      requires Valid() && i < Count(a) && j < Len(a)
      ensures r.Valid() && r.height == height && r.width == width
    {
      if a == Row then Board(height, width, cells[i := cells[i][j := v]])
      else Board(height, width, cells[j := cells[j][i := v]])
    }

    /** The board with line i replaced. */
    function PutLine(a: Axis, i: nat, line: seq<int>): (r: Board)
      requires Valid() && i < Count(a) && |line| == Len(a)
      ensures r.Valid() && r.height == height && r.width == width
    {
      if a == Row then Board(height, width, cells[i := line])
      else Board(height, width, seq(height, y requires 0 <= y < height => cells[y][i := line[y]]))
    }
  }

  /** The board every cell of which is v. */
  function Uniform(h: nat, w: nat, v: int): (b: Board)
    ensures b.Valid() && b.height == h && b.width == w
  {
    Board(h, w, seq(h, _ => Repeat(v, w)))
  }

  /** The current contents of a 2-D array, row by row. */
  function Snapshot(g: array2<int>): (b: Board)
    reads g
    ensures b.Valid() && b.height == g.Length0 && b.width == g.Length1
    ensures forall y, x :: 0 <= y < g.Length0 && 0 <= x < g.Length1 ==> b.cells[y][x] == g[y, x]
  {
    Board(g.Length0, g.Length1, seq(g.Length0, y requires 0 <= y < g.Length0 reads g =>
      seq(g.Length1, x requires 0 <= x < g.Length1 reads g => g[y, x])))
  }

  /** The row index and column index of cell j of line i. */
  function CellY(a: Axis, i: nat, j: nat): nat {
    if a == Row then i else j
  }

  function CellX(a: Axis, i: nat, j: nat): nat {
    if a == Row then j else i
  }

  // ---------------------------------------------------------------------
  // Equality of boards and the effect of the updates on every cell

  /** Two boards of one shape are equal when they agree on every cell. */
  lemma Ext(b: Board, c: Board)
    requires b.Valid() && c.Valid() && b.height == c.height && b.width == c.width
    requires forall y, x :: 0 <= y < b.height && 0 <= x < b.width ==> b.cells[y][x] == c.cells[y][x]
    ensures b == c
  {
    forall y | 0 <= y < b.height
      ensures b.cells[y] == c.cells[y]
    {
      assert forall x :: 0 <= x < b.width ==> b.cells[y][x] == c.cells[y][x];
    }
  }

  lemma PutCells(b: Board, a: Axis, i: nat, j: nat, v: int)
    requires b.Valid() && i < b.Count(a) && j < b.Len(a)
    ensures forall y, x :: 0 <= y < b.height && 0 <= x < b.width ==>
      b.Put(a, i, j, v).cells[y][x] == if y == CellY(a, i, j) && x == CellX(a, i, j) then v else b.cells[y][x]
  {
  }

  lemma PutLineCells(b: Board, a: Axis, i: nat, line: seq<int>)
    requires b.Valid() && i < b.Count(a) && |line| == b.Len(a)
    ensures forall y, x :: 0 <= y < b.height && 0 <= x < b.width ==>
      b.PutLine(a, i, line).cells[y][x] == if a == Row then (if y == i then line[x] else b.cells[y][x])
                                            else (if x == i then line[y] else b.cells[y][x])
  {
    var r := b.PutLine(a, i, line);
    if a == Col {
      forall y, x | 0 <= y < b.height && 0 <= x < b.width
        ensures r.cells[y][x] == if x == i then line[y] else b.cells[y][x]
      {
        assert r.cells[y] == b.cells[y][i := line[y]];
      }
    } else {
      forall y, x | 0 <= y < b.height && 0 <= x < b.width
        ensures r.cells[y][x] == if y == i then line[x] else b.cells[y][x]
      {
      }
    }
  }

  /** Writing one cell of a line is replacing that line by the line with the cell changed. */
  lemma PutIsPutLine(b: Board, a: Axis, i: nat, j: nat, v: int)
    requires b.Valid() && i < b.Count(a) && j < b.Len(a)
    ensures b.Put(a, i, j, v) == b.PutLine(a, i, b.Line(a, i)[j := v])
  {
    PutCells(b, a, i, j, v);
    PutLineCells(b, a, i, b.Line(a, i)[j := v]);
    Ext(b.Put(a, i, j, v), b.PutLine(a, i, b.Line(a, i)[j := v]));
  }

  /** The line just written reads back as written. */
  lemma LineOfPutLine(b: Board, a: Axis, i: nat, line: seq<int>)
    requires b.Valid() && i < b.Count(a) && |line| == b.Len(a)
    ensures b.PutLine(a, i, line).Line(a, i) == line
  {
    PutLineCells(b, a, i, line);
  }

  /** Another line along the same axis is not disturbed. */
  lemma OtherLineOfPutLine(b: Board, a: Axis, i: nat, line: seq<int>, k: nat)
    requires b.Valid() && i < b.Count(a) && |line| == b.Len(a) && k < b.Count(a) && k != i
    ensures b.PutLine(a, i, line).Line(a, k) == b.Line(a, k)
  {
    PutLineCells(b, a, i, line);
  }

  /** Writing a line back unchanged leaves the board as it was. */
  lemma PutSameLine(b: Board, a: Axis, i: nat)
    requires b.Valid() && i < b.Count(a)
    ensures b.PutLine(a, i, b.Line(a, i)) == b
  {
    PutLineCells(b, a, i, b.Line(a, i));
    Ext(b.PutLine(a, i, b.Line(a, i)), b);
  }

  /** Two writes to the same line: the second one wins where it writes. */
  lemma PutLineTwice(b: Board, a: Axis, i: nat, l1: seq<int>, l2: seq<int>)
    requires b.Valid() && i < b.Count(a) && |l1| == b.Len(a) && |l2| == b.Len(a)
    ensures b.PutLine(a, i, l1).PutLine(a, i, l2) == b.PutLine(a, i, l2)
  {
    var c := b.PutLine(a, i, l1);
    PutLineCells(b, a, i, l1);
    PutLineCells(c, a, i, l2);
    PutLineCells(b, a, i, l2);
    Ext(c.PutLine(a, i, l2), b.PutLine(a, i, l2));
  }

  /** One more cell written into a line being rewritten. */
  lemma PutAfterPutLine(b: Board, a: Axis, i: nat, line: seq<int>, j: nat, v: int)
    requires b.Valid() && i < b.Count(a) && |line| == b.Len(a) && j < |line|
    ensures b.PutLine(a, i, line).Put(a, i, j, v) == b.PutLine(a, i, line[j := v])
  {
    var c := b.PutLine(a, i, line);
    PutIsPutLine(c, a, i, j, v);
    LineOfPutLine(b, a, i, line);
    PutLineTwice(b, a, i, line, line[j := v]);
  }

  /** Writing cell j of the target over a line whose first j cells already hold the target. */
  lemma PrefixStep(t: seq<int>, l: seq<int>, j: nat)
    requires |t| == |l| && j < |t|
    ensures (t[..j] + l[j..])[j := t[j]] == t[..j + 1] + l[j + 1..]
  {
  }

  /** The same from the end: the last |t| - j cells already hold the target. */
  lemma SuffixStep(t: seq<int>, l: seq<int>, j: nat)
    requires |t| == |l| && 0 < j <= |t|
    ensures (l[..j] + t[j..])[j - 1 := t[j - 1]] == l[..j - 1] + t[j - 1..]
  {
  }

  /** Keeping cell j, which already holds the target. */
  lemma KeepStep(t: seq<int>, l: seq<int>, j: nat)
    requires |t| == |l| && j < |t| && t[j] == l[j]
    ensures t[..j + 1] + l[j + 1..] == t[..j] + l[j..]
  {
    assert forall k :: 0 <= k < |t| ==> (t[..j + 1] + l[j + 1..])[k] == (t[..j] + l[j..])[k];
  }

  /** The same from the end. */
  lemma KeepBackStep(t: seq<int>, l: seq<int>, j: nat)
    requires |t| == |l| && 0 < j <= |t| && t[j - 1] == l[j - 1]
    ensures l[..j - 1] + t[j - 1..] == l[..j] + t[j..]
  {
    assert forall k :: 0 <= k < |t| ==> (l[..j - 1] + t[j - 1..])[k] == (l[..j] + t[j..])[k];
  }

  /** The ends of the splice: nothing of the target at 0, all of it at |t|. */
  lemma SpliceEnds(t: seq<int>, l: seq<int>)
    requires |t| == |l|
    ensures t[..0] + l[0..] == l && t[..|t|] + l[|t|..] == t
    ensures l[..|t|] + t[|t|..] == l && l[..0] + t[0..] == t
  {
  }

  /** The cell at j of a line whose cells from j on are still the old ones. */
  lemma SpliceAt(b: Board, a: Axis, i: nat, t: seq<int>, l: seq<int>, j: nat)
    requires b.Valid() && i < b.Count(a) && |t| == |l| == b.Len(a) && j < |t|
    ensures b.PutLine(a, i, t[..j] + l[j..]).Line(a, i)[j] == l[j]
  {
    LineOfPutLine(b, a, i, t[..j] + l[j..]);
  }

  /** The cell at j - 1 of a line whose cells before j are still the old ones. */
  lemma SpliceBackAt(b: Board, a: Axis, i: nat, t: seq<int>, l: seq<int>, j: nat)
    requires b.Valid() && i < b.Count(a) && |t| == |l| == b.Len(a) && 0 < j <= |t|
    ensures b.PutLine(a, i, l[..j] + t[j..]).Line(a, i)[j - 1] == l[j - 1]
  {
    LineOfPutLine(b, a, i, l[..j] + t[j..]);
  }

  /** A target that agrees with the old line from j on is reached at j. */
  lemma TailKept(t: seq<int>, l: seq<int>, j: nat)
    requires |t| == |l| && j <= |t|
    requires forall k :: j <= k < |t| ==> t[k] == l[k]
    ensures t[..j] + l[j..] == t
  {
    assert forall k :: 0 <= k < |t| ==> (t[..j] + l[j..])[k] == t[k];
  }

  /** A target that agrees with the old line before j is reached at j. */
  lemma HeadKept(t: seq<int>, l: seq<int>, j: nat)
    requires |t| == |l| && j <= |t|
    requires forall k :: 0 <= k < j ==> t[k] == l[k]
    ensures l[..j] + t[j..] == t
  {
    assert forall k :: 0 <= k < |t| ==> (l[..j] + t[j..])[k] == t[k];
  }

  // ---------------------------------------------------------------------
  // Reading and writing a grid held in a 2-D array

  /** How many lines of the array run along the axis. */
  function LineCount(g: array2<int>, a: Axis): nat {
    if a == Row then g.Length0 else g.Length1
  }

  /** How many cells one line of the array along the axis holds. */
  function LineLen(g: array2<int>, a: Axis): nat {
    if a == Row then g.Length1 else g.Length0
  }

  /** Cell j of line i of the grid the array holds now. */
  function ReadCell(g: array2<int>, a: Axis, i: nat, j: nat): (v: int)
    requires i < Snapshot(g).Count(a) && j < Snapshot(g).Len(a)
    reads g
    ensures v == Snapshot(g).Line(a, i)[j]
  {
    g[CellY(a, i, j), CellX(a, i, j)]
  }

  /**
    A write of cell j of line i, while line i is being rewritten: the grid
    is `b` with line i replaced by `line`, and afterwards by `line` with
    cell j set to v.
   */
  method WriteCell(g: array2<int>, a: Axis, i: nat, j: nat, v: int, ghost b: Board, ghost line: seq<int>)
    requires b.Valid() && b.height == g.Length0 && b.width == g.Length1
    requires i < b.Count(a) && j < b.Len(a) && |line| == b.Len(a)
    requires Snapshot(g) == b.PutLine(a, i, line)
    modifies g
    ensures Snapshot(g) == b.PutLine(a, i, line[j := v])
  {
    ghost var before := Snapshot(g);
    g[CellY(a, i, j), CellX(a, i, j)] := v;
    PutCells(before, a, i, j, v);
    Ext(Snapshot(g), before.Put(a, i, j, v));
    PutAfterPutLine(b, a, i, line, j, v);
  }

  /**
    One step of filling a line: cell j gets v when overwriting or when it is
    unknown, and keeps its value otherwise.
   */
  method FillNextCell(g: array2<int>, a: Axis, i: nat, j: nat, v: int, overwrite: bool,
                      ghost b: Board, ghost t: seq<int>, ghost l: seq<int>)
    requires b.Valid() && b.height == g.Length0 && b.width == g.Length1
    requires i < b.Count(a) && j < b.Len(a) && |t| == |l| == b.Len(a)
    requires t[j] == if overwrite || l[j] == Unknown then v else l[j]
    requires Snapshot(g) == b.PutLine(a, i, t[..j] + l[j..])
    modifies g
    ensures Snapshot(g) == b.PutLine(a, i, t[..j + 1] + l[j + 1..])
  {
    SpliceAt(b, a, i, t, l, j);
    if overwrite || ReadCell(g, a, i, j) == Unknown {
      WriteNextCell(g, a, i, j, v, b, t, l);
    } else {
      KeepStep(t, l, j);
    }
  }

  lemma PiecesNext(line: seq<int>, j: nat, v: int, before: seq<nat>, after: seq<nat>)
    requires j < |line| && before == Pieces(line[..j], v) && after == Step(before, line[j], v)
    ensures after == Pieces(line[..j + 1], v)
  {
    assert line[..j + 1] == line[..j] + [line[j]];
    PiecesSnoc(line[..j], line[j], v);
  }

  /**
    Line k of the array filled with v: every cell when overwriting, the
    unknown ones otherwise.
   */
  method FillLineCells(g: array2<int>, a: Axis, k: nat, v: int, overwrite: bool,
                       ghost b: Board, ghost t: seq<int>, ghost l: seq<int>)
    requires b == Snapshot(g) && k < b.Count(a) && l == b.Line(a, k) && |t| == |l|
    requires forall j :: 0 <= j < |t| ==> t[j] == if overwrite || l[j] == Unknown then v else l[j]
    modifies g
    ensures Snapshot(g) == b.PutLine(a, k, t)
  {
    var n := if a == Row then g.Length1 else g.Length0;
    assert n == b.Len(a);
    PutSameLine(b, a, k);
    SpliceEnds(t, l);
    for j := 0 to n
      invariant Snapshot(g) == b.PutLine(a, k, t[..j] + l[j..])
    {
      FillNextCell(g, a, k, j, v, overwrite, b, t, l);
    }
  }

  /** The lengths of the pieces of line k of the array between the cells that are not v. */
  method LinePieces(g: array2<int>, a: Axis, k: nat, v: int) returns (segments: seq<nat>)
    requires k < Snapshot(g).Count(a)
    ensures segments == Pieces(Snapshot(g).Line(a, k), v)
  {
    ghost var line := Snapshot(g).Line(a, k);
    var n := if a == Row then g.Length1 else g.Length0;
    assert n == |line|;
    segments := [0];
    for j := 0 to n
      invariant segments == Pieces(line[..j], v)
    {
      var c := ReadCell(g, a, k, j);
      ghost var before := segments;
      if c == v {
        segments := segments[..|segments| - 1] + [segments[|segments| - 1] + 1];
      } else {
        segments := segments + [0];
      }
      PiecesNext(line, j, v, before, segments);
    }
    assert line[..n] == line;
  }

  /** Writing cell j - 1 of a line rewritten from the back. */
  method WriteBackCell(g: array2<int>, a: Axis, i: nat, j: nat, v: int, ghost b: Board, ghost t: seq<int>, ghost l: seq<int>)
    requires b.Valid() && b.height == g.Length0 && b.width == g.Length1
    requires i < b.Count(a) && 0 < j <= b.Len(a) && |t| == |l| == b.Len(a) && t[j - 1] == v
    requires Snapshot(g) == b.PutLine(a, i, l[..j] + t[j..])
    modifies g
    ensures Snapshot(g) == b.PutLine(a, i, l[..j - 1] + t[j - 1..])
  {
    WriteCell(g, a, i, j - 1, v, b, l[..j] + t[j..]);
    SuffixStep(t, l, j);
  }

  /**
    `count` consecutive writes of v from cell `from` on, over a line whose
    cells before `from` already hold the target t.
   */
  method FillRun(g: array2<int>, a: Axis, i: nat, from: nat, count: nat, v: int, ghost b: Board, ghost t: seq<int>, ghost l: seq<int>)
    requires b.Valid() && b.height == g.Length0 && b.width == g.Length1
    requires i < b.Count(a) && from + count <= b.Len(a) && |t| == |l| == b.Len(a)
    requires forall k :: from <= k < from + count ==> t[k] == v
    requires Snapshot(g) == b.PutLine(a, i, t[..from] + l[from..])
    modifies g
    ensures Snapshot(g) == b.PutLine(a, i, t[..from + count] + l[from + count..])
  {
    for off := 0 to count
      invariant Snapshot(g) == b.PutLine(a, i, t[..from + off] + l[from + off..])
    {
      WriteNextCell(g, a, i, from + off, v, b, t, l);
    }
  }

  /** The last c cells of the line written with v, from the end inwards. */
  method FillBackRun(g: array2<int>, a: Axis, i: nat, c: nat, v: int, ghost b: Board, ghost t: seq<int>, ghost l: seq<int>)
    requires b.Valid() && b.height == g.Length0 && b.width == g.Length1
    requires i < b.Count(a) && c <= b.Len(a) && |t| == |l| == b.Len(a)
    requires forall k :: b.Len(a) - c <= k < b.Len(a) ==> t[k] == v
    requires Snapshot(g) == b.PutLine(a, i, l)
    modifies g
    ensures Snapshot(g) == b.PutLine(a, i, l[..b.Len(a) - c] + t[b.Len(a) - c..])
  {
    var n := if a == Row then g.Length1 else g.Length0;
    assert n == b.Len(a);
    SpliceEnds(t, l);
    for off := 0 to c
      invariant Snapshot(g) == b.PutLine(a, i, l[..n - off] + t[n - off..])
    {
      WriteBackCell(g, a, i, n - off, v, b, t, l);
    }
  }

  /** The write of the next cell of a line rewritten from the front into the target t. */
  method WriteNextCell(g: array2<int>, a: Axis, i: nat, j: nat, v: int, ghost b: Board, ghost t: seq<int>, ghost l: seq<int>)
    requires b.Valid() && b.height == g.Length0 && b.width == g.Length1
    requires i < b.Count(a) && j < b.Len(a) && |t| == |l| == b.Len(a) && t[j] == v
    requires Snapshot(g) == b.PutLine(a, i, t[..j] + l[j..])
    modifies g
    ensures Snapshot(g) == b.PutLine(a, i, t[..j + 1] + l[j + 1..])
  {
    WriteCell(g, a, i, j, v, b, t[..j] + l[j..]);
    PrefixStep(t, l, j);
  }
}
