/**
  The puzzle class of the package, pyNonogram/nonogram.py: the nine lines of
  a `.non` file decoded into the puzzle's fields, the grid it is played on,
  the solution saved from a finished grid and loaded back into it, and the
  checks of the grid against the clues.

  A `.non` file holds one `key:value` line per field, in this order: author,
  date, picture rating, difficulty, width, height, row clues, column clues,
  solution. Clues are written with a space between lines and a comma between
  the numbers of one line (`1 3 2,2`); the solution is the grid row by row,
  one digit per cell, '1' for filled and '0' for crossed.
 */
module Nonograms {
  import opened Lines
  import opened Boards
  import opened Checks
  import opened Results
  import opened Grids
  import opened Texts

  /** The fields a `.non` file decodes to. */
  datatype Puzzle = Puzzle(
    author: string, date: string, picture: int, difficulty: int,
    width: nat, height: nat, clues: Clues, solution: Option<seq<seq<nat>>>)

  /**
    What the `solution` field holds: the digit rows decoded from the file,
    or the flat text `save_solution` leaves there.
   */
  datatype Solution = Digits(rows: seq<seq<nat>>) | Text(text: string)

  // ---------------------------------------------------------------------
  // Decoding the file

  /** `line.split(':')[1].strip('\n')`: the text after the first ':', up to a second one. */
  function Field(line: string): (r: Result<string>)
    ensures r.Failure? <==> ':' !in line
  {
    var parts := Split(line, ':');
    if |parts| < 2 then
      SplitParts(line, ':');
      Failure(IndexError)
    else
      SplitParts(line, ':');
      Success(Strip(parts[1], '\n'))
  }

  /** `list(map(int, items))`. */
  function ParseNumbers(items: seq<string>): (r: Result<seq<nat>>)
    ensures r.Success? ==> |r.value| == |items|
    ensures r.Failure? ==> r.error == ValueError
    ensures r.Success? <==> forall k :: 0 <= k < |items| ==> ParseNat(items[k]).Success?
    ensures r.Success? ==> forall k :: 0 <= k < |items| ==> r.value[k] == ParseNat(items[k]).value
  {
    if items == [] then Success([])
    else
      assert forall k :: 1 <= k < |items| ==> items[k] == items[1..][k - 1];
      var n :- ParseNat(items[0]);
      var rest :- ParseNumbers(items[1..]);
      Success([n] + rest)
  }

  /** The clue of one line: `list(map(int, item.split(',')))`. */
  function ParseClue(item: string): Result<seq<nat>> {
    ParseNumbers(Split(item, ','))
  }

  function ParseClueList(items: seq<string>): (r: Result<seq<seq<nat>>>)
    ensures r.Success? ==> |r.value| == |items|
    ensures r.Success? <==> forall k :: 0 <= k < |items| ==> ParseClue(items[k]).Success?
    ensures r.Success? ==> forall k :: 0 <= k < |items| ==> r.value[k] == ParseClue(items[k]).value
  {
    if items == [] then Success([])
    else
      assert forall k :: 1 <= k < |items| ==> items[k] == items[1..][k - 1];
      var c :- ParseClue(items[0]);
      var rest :- ParseClueList(items[1..]);
      Success([c] + rest)
  }

  /** The row or column clues: the field split at ' ' into lines, each decoded. */
  function ParseClues(field: string): Result<seq<seq<nat>>> {
    ParseClueList(Split(field, ' '))
  }

  /** One chunk of the solution: `list(map(int, chunk))`, a number per character. */
  function ParseDigits(chunk: string): (r: Result<seq<nat>>)
    ensures r.Success? ==> |r.value| == |chunk|
    ensures r.Failure? ==> r.error == ValueError
    ensures r.Success? <==> forall k :: 0 <= k < |chunk| ==> ParseNat([chunk[k]]).Success?
    ensures r.Success? ==> forall k :: 0 <= k < |chunk| ==> r.value[k] == ParseNat([chunk[k]]).value
  {
    if chunk == [] then Success([])
    else
      var d :- ParseNat([chunk[0]]);
      var rest :- ParseDigits(chunk[1..]);
      assert forall k :: 1 <= k < |chunk| ==> chunk[k] == chunk[1..][k - 1];
      Success([d] + rest)
  }

  function ParseRows(chunks: seq<string>): (r: Result<seq<seq<nat>>>)
    ensures r.Success? ==> |r.value| == |chunks|
    ensures r.Failure? ==> r.error == ValueError
    ensures r.Success? <==> forall k :: 0 <= k < |chunks| ==> ParseDigits(chunks[k]).Success?
    ensures r.Success? ==> forall k :: 0 <= k < |chunks| ==> r.value[k] == ParseDigits(chunks[k]).value
  {
    if chunks == [] then Success([])
    else
      var d :- ParseDigits(chunks[0]);
      var rest :- ParseRows(chunks[1..]);
      assert forall k :: 1 <= k < |chunks| ==> chunks[k] == chunks[1..][k - 1];
      Success([d] + rest)
  }

  /**
    `zip(*[iter(field)] * width)`: the field cut into rows of `width`
    characters, a partial last row dropped. A width that is not positive
    gives no rows at all.
   */
  function SolutionChunks(field: string, width: int): (r: seq<string>)
    ensures forall k :: 0 <= k < |r| ==> |r[k]| == width
    ensures width > 0 ==> |Concat(r)| <= |field| && Concat(r) == field[..|Concat(r)|] && |field| - |Concat(r)| < width
  {
    if width <= 0 then [] else Chunks(field, width)
  }

  /**
    The solution field cut into rows of `width` digits, each digit
    decoded; no row at all is no solution.
   */
  function ParseSolution(field: string, width: int): (r: Result<Option<seq<seq<nat>>>>)
    ensures r.Failure? ==> r.error == ValueError
    ensures r.Success? && r.value.Some? ==> forall k :: 0 <= k < |r.value.value| ==> |r.value.value[k]| == width
  {
    var rows :- ParseRows(SolutionChunks(field, width));
    Success(if rows == [] then None else Some(rows))
  }

  /** `int(line.split(':')[1].strip('\n'))`. */
  function NumberField(line: string): Result<int> {
    var text :- Field(line);
    ParseInt(text)
  }

  /** A clue line: its value split at ' ' into lines, each decoded. */
  function ClueField(line: string): Result<seq<seq<nat>>> {
    var text :- Field(line);
    ParseClues(text)
  }

  /**
    The nine lines of a `.non` file decoded, field by field, the first
    failure raised. A negative width or height decodes, and is then the
    ValueError raised when the grid of that shape is made.
   */
  function ParseFile(data: seq<string>): (r: Result<Puzzle>)
    ensures |data| != 9 ==> r == Failure(FormatError)
    ensures r.Success? && r.value.solution.Some? ==>
      forall k :: 0 <= k < |r.value.solution.value| ==> |r.value.solution.value[k]| == r.value.width
  {
    if |data| != 9 then Failure(FormatError)
    else
      var author :- Field(data[0]);
      var date :- Field(data[1]);
      var picture :- NumberField(data[2]);
      var difficulty :- NumberField(data[3]);
      var width :- NumberField(data[4]);
      var height :- NumberField(data[5]);
      var rows :- ClueField(data[6]);
      var columns :- ClueField(data[7]);
      var solutionText :- Field(data[8]);
      var solution :- ParseSolution(solutionText, width);
      if width < 0 || height < 0 then Failure(ValueError)
      else Success(Puzzle(author, date, picture, difficulty, width, height, Clues(rows, columns), solution))
  }

  /** Every line of a nine-line file decodes as the field of its place. */
  predicate LinesDecode(data: seq<string>) {
    && |data| == 9
    && Field(data[0]).Success? && Field(data[1]).Success?
    && NumberField(data[2]).Success? && NumberField(data[3]).Success?
    && NumberField(data[4]).Success? && NumberField(data[5]).Success?
    && ClueField(data[6]).Success? && ClueField(data[7]).Success?
    && Field(data[8]).Success? && ParseSolution(Field(data[8]).value, NumberField(data[4]).value).Success?
  }

  /**
    A file decodes exactly when each of its nine lines does and the width
    and height are not negative, and then each field is its line decoded.
    A file whose lines decode but whose width or height is negative raises
    ValueError.
   */
  lemma ParseFileMeaning(data: seq<string>)
    ensures ParseFile(data).Success? <==>
      LinesDecode(data) && NumberField(data[4]).value >= 0 && NumberField(data[5]).value >= 0
    ensures LinesDecode(data) && (NumberField(data[4]).value < 0 || NumberField(data[5]).value < 0) ==>
      ParseFile(data) == Failure(ValueError)
    ensures ParseFile(data).Success? ==> var p := ParseFile(data).value;
      && Field(data[0]) == Success(p.author) && Field(data[1]) == Success(p.date)
      && NumberField(data[2]) == Success(p.picture) && NumberField(data[3]) == Success(p.difficulty)
      && NumberField(data[4]) == Success(p.width as int) && NumberField(data[5]) == Success(p.height as int)
      && ClueField(data[6]) == Success(p.clues.rows) && ClueField(data[7]) == Success(p.clues.columns)
      && ParseSolution(Field(data[8]).value, p.width) == Success(p.solution)
  {
  }

  /** The fields of a `Nonogram` that `load` assigns. */
  datatype Fields = Fields(
    author: string, date: string, picture: int, difficulty: int,
    width: int, height: int, clues: Clues, solution: Option<Solution>)

  /** The fields holding a decoded file. */
  function Loaded(p: Puzzle): Fields {
    Fields(p.author, p.date, p.picture, p.difficulty, p.width, p.height, p.clues,
      if p.solution.None? then None else Some(Digits(p.solution.value)))
  }

  // ---------------------------------------------------------------------
  // Writing clues and solutions as the file holds them

  /** A clue written with commas: `2,2`. */
  function ClueText(clue: seq<nat>): string
    requires clue != []
  {
    Joined(seq(|clue|, k requires 0 <= k < |clue| => Decimal(clue[k])), ',')
  }

  /** All clues of one axis written with spaces: `1 3 2,2`. */
  function CluesText(clues: seq<seq<nat>>): string
    requires clues != [] && forall k :: 0 <= k < |clues| ==> clues[k] != []
  {
    Joined(seq(|clues|, k requires 0 <= k < |clues| => ClueText(clues[k])), ' ')
  }

  /** `save_solution` on one line: '1' for a filled cell, '0' for a crossed one. */
  function LineText(line: seq<int>): (r: string)
    ensures |r| == |line|
  {
    seq(|line|, j requires 0 <= j < |line| => if line[j] == Filled then '1' else '0')
  }

  /** The first y rows of the board, each written as `save_solution` writes it. */
  function LineTexts(b: Board, y: nat): (r: seq<string>)
    requires b.Valid() && y <= b.height
    ensures |r| == y && forall k :: 0 <= k < y ==> r[k] == LineText(b.cells[k]) && |r[k]| == b.width
  {
    seq(y, k requires 0 <= k < y => LineText(b.cells[k]))
  }

  /** The first y rows of the board, written one after the other. */
  function RowsText(b: Board, y: nat): string
    requires b.Valid() && y <= b.height
  {
    Concat(LineTexts(b, y))
  }

  /** The solution string of a finished board. */
  function SolutionText(b: Board): string
    requires b.Valid()
  {
    RowsText(b, b.height)
  }

  /** The digits the file holds for a finished board. */
  function SolutionDigits(b: Board): seq<seq<nat>>
    requires b.Valid()
  {
    seq(b.height, y requires 0 <= y < b.height =>
      seq(b.width, x requires 0 <= x < b.width => if b.cells[y][x] == Filled then 1 else 0))
  }

  predicate BoardDecided(b: Board)
    requires b.Valid()
  {
    forall y, x :: 0 <= y < b.height && 0 <= x < b.width ==> IsDecided(b.cells[y][x])
  }

  /** Cell (x, y) is the first unknown cell in row-major order. */
  predicate FirstUnknown(b: Board, y: nat, x: nat)
    requires b.Valid()
  {
    && y < b.height && x < b.width && b.cells[y][x] == Unknown
    && (forall y', x' :: 0 <= y' < y && 0 <= x' < b.width ==> IsDecided(b.cells[y'][x']))
    && (forall x' :: 0 <= x' < x ==> IsDecided(b.cells[y][x']))
  }

  // ---------------------------------------------------------------------
  // Loading a solution into the grid

  /**
    What `load_solution` does at cell (x, y) of decoded rows: a digit 1
    fills it, a digit 0 crosses it, any other digit leaves it. A row or
    digit that is not there raises IndexError.
   */
  function DigitCell(rows: seq<seq<nat>>, y: nat, x: nat): Result<Option<int>> {
    if y >= |rows| || x >= |rows[y]| then Failure(IndexError)
    else if rows[y][x] == 1 then Success(Some(Filled))
    else if rows[y][x] == 0 then Success(Some(Crossed))
    else Success(None)
  }

  /**
    `solution[y][x]` as `load_solution` reads it. When the field holds the
    flat text `save_solution` leaves, `solution[y]` is one character: its
    only index is 0, and a character is never equal to the number 1 or 0.
   */
  function SolutionCell(sol: Solution, y: nat, x: nat): Result<Option<int>> {
    match sol
    case Digits(rows) => DigitCell(rows, y, x)
    case Text(s) =>
      if y >= |s| || x >= 1 then Failure(IndexError) else Success(None)
  }

  function Apply(c: Board, sol: Solution, y: nat, x: nat): (r: Board)
    requires c.Valid() && y < c.height && x < c.width
    ensures r.Valid() && r.height == c.height && r.width == c.width
  {
    match SolutionCell(sol, y, x)
    case Success(Some(v)) => c.Put(Row, y, x, v)
    case _ => c
  }

  /** The board after `load_solution` has gone through the first y rows. */
  function WrittenRows(b: Board, sol: Solution, y: nat): (r: Board)
    requires b.Valid() && y <= b.height
    ensures r.Valid() && r.height == b.height && r.width == b.width
    decreases y, 0, 0
  {
    if y == 0 then b else WrittenCells(b, sol, y - 1, b.width)
  }

  /** The board after `load_solution` has gone through the rows before y and the cells of row y before x. */
  function WrittenCells(b: Board, sol: Solution, y: nat, x: nat): (r: Board)
    requires b.Valid() && y < b.height && x <= b.width
    ensures r.Valid() && r.height == b.height && r.width == b.width
    decreases y, 1, x
  {
    if x == 0 then WrittenRows(b, sol, y) else Apply(WrittenCells(b, sol, y, x - 1), sol, y, x - 1)
  }

  /** Cell (x, y) is the first, in row-major order, whose solution entry is missing. */
  predicate FirstMissing(sol: Solution, w: nat, y: nat, x: nat) {
    && x < w && SolutionCell(sol, y, x).Failure?
    && (forall y', x' :: 0 <= y' < y && 0 <= x' < w ==> SolutionCell(sol, y', x').Success?)
    && (forall x' :: 0 <= x' < x ==> SolutionCell(sol, y, x').Success?)
  }

  /** The cell the digits put at (x, y), or the old cell where they put none. */
  function Decoded(rows: seq<seq<nat>>, y: nat, x: nat, old_: int): int
    requires y < |rows| && x < |rows[y]|
  {
    if rows[y][x] == 1 then Filled else if rows[y][x] == 0 then Crossed else old_
  }

  // ---------------------------------------------------------------------
  // Checking the grid against the clues

  /**
    `check_row(i)` (a = Row) / `check_col(i)` (a = Col): the run lengths of
    the line, then the clue, looked up as Python looks up a list, so an
    index that names no line raises.
   */
  function CheckLineAt(b: Board, clues: Clues, a: Axis, i: int): Result<bool>
    requires b.Valid() && AllBoardCells(b)
  {
    var segments :- SegmentsAt(b, a, i);
    match NumpyIndex(i, |clues.Of(a)|)
    case None => Failure(IndexError)
    case Some(k) => Success(segments == clues.Of(a)[k])
  }

  /** The loop of `check_all` over the lines from k on: the first failing line decides. */
  function CheckLinesFrom(b: Board, clues: Clues, a: Axis, k: nat): Result<bool>
    requires b.Valid() && AllBoardCells(b)
    decreases b.Count(a) - k
  {
    if k >= b.Count(a) then Success(true)
    else match CheckLineAt(b, clues, a, k)
      case Success(true) => CheckLinesFrom(b, clues, a, k + 1)
      case other => other
  }

  /** `check_all`: the rows first, then the columns. */
  function CheckAllOf(b: Board, clues: Clues): Result<bool>
    requires b.Valid() && AllBoardCells(b)
  {
    match CheckLinesFrom(b, clues, Row, 0)
    case Success(true) => CheckLinesFrom(b, clues, Col, 0)
    case other => other
  }

  // ---------------------------------------------------------------------
  // Properties of the file format

  /** Splitting at a character that is not in the string gives the string; one that is gives two pieces or more. */
  lemma SplitParts(s: string, sep: char)
    ensures sep !in s ==> Split(s, sep) == [s]
    ensures sep in s ==> |Split(s, sep)| >= 2
  {
    if sep !in s {
      SplitWithout(s, sep);
    } else {
      SplitCount(s, sep);
    }
  }

  lemma {:induction false} SplitCount(s: string, sep: char)
    requires sep in s
    ensures |Split(s, sep)| >= 2
    decreases |s|
  {
    var init := s[..|s| - 1];
    assert s == init + [s[|s| - 1]];
    if s[|s| - 1] != sep {
      assert sep in init;
      SplitCount(init, sep);
    }
  }

  /** A `key:value` line reads back its value. */
  lemma FieldOfLine(key: string, value: string)
    requires ':' !in key && ':' !in value
    requires value == [] || (value[0] != '\n' && value[|value| - 1] != '\n')
    ensures Field(key + [':'] + value + ['\n']) == Success(value)
  {
    var t := value + ['\n'];
    assert key + [':'] + value + ['\n'] == key + [':'] + t;
    assert ':' !in t;
    SplitWithout(key, ':');
    SplitAfterSeparator(key, ':', t);
    assert Split(key + [':'] + t, ':') == [key, t];
    StripTrailing(value);
  }

  lemma StripTrailing(value: string)
    requires value == [] || (value[0] != '\n' && value[|value| - 1] != '\n')
    ensures Strip(value + ['\n'], '\n') == value
  {
    var t := value + ['\n'];
    if value == [] {
      assert t[1..] == [];
    } else {
      assert t[..|t| - 1] == value;
      StripKeeps(value, '\n');
    }
  }

  /** A number written out reads back as one number. */
  lemma {:induction false} ParseClueText(clue: seq<nat>)
    requires clue != []
    ensures ParseClue(ClueText(clue)) == Success(clue)
  {
    var parts := seq(|clue|, k requires 0 <= k < |clue| => Decimal(clue[k]));
    forall k | 0 <= k < |parts|
      ensures ',' !in parts[k] && ParseNat(parts[k]) == Success(clue[k])
    {
      ParseDecimal(clue[k]);
      DigitsHaveNo(parts[k], ',');
    }
    SplitJoin(parts, ',');
    var r := ParseNumbers(parts);
    assert r.Success? && |r.value| == |clue|;
    assert r.value == clue;
  }

  /** Clues written the way the file holds them read back as the same clues. */
  lemma {:induction false} ParseCluesText(clues: seq<seq<nat>>)
    requires clues != [] && forall k :: 0 <= k < |clues| ==> clues[k] != []
    ensures ParseClues(CluesText(clues)) == Success(clues)
  {
    var parts := seq(|clues|, k requires 0 <= k < |clues| => ClueText(clues[k]));
    forall k | 0 <= k < |parts|
      ensures ' ' !in parts[k] && ParseClue(parts[k]) == Success(clues[k])
    {
      ParseClueText(clues[k]);
      ClueTextHasNoSpace(clues[k]);
    }
    SplitJoin(parts, ' ');
    assert CluesText(clues) == Joined(parts, ' ');
    var r := ParseClueList(parts);
    assert r.Success? && |r.value| == |clues|;
    assert r.value == clues;
  }

  lemma DigitsHaveNo(s: string, c: char)
    requires AllDigits(s) && !IsDigit(c)
    ensures c !in s
  {
  }

  lemma ClueTextHasNoSpace(clue: seq<nat>)
    requires clue != []
    ensures ' ' !in ClueText(clue)
  {
    var parts := seq(|clue|, k requires 0 <= k < |clue| => Decimal(clue[k]));
    forall k | 0 <= k < |parts|
      ensures ' ' !in parts[k]
    {
      DigitsHaveNo(parts[k], ' ');
    }
    JoinChars(parts, ',', ' ');
  }

  /** Each digit '1' and '0' of a saved line reads back as the number 1 or 0. */
  lemma ParseLineText(b: Board, y: nat)
    requires b.Valid() && y < b.height
    ensures ParseDigits(LineText(b.cells[y])) == Success(SolutionDigits(b)[y])
  {
    var t := LineText(b.cells[y]);
    forall k | 0 <= k < |t|
      ensures ParseNat([t[k]]) == Success(SolutionDigits(b)[y][k])
    {
      ParseDigitChar(t[k]);
    }
    var r := ParseDigits(t);
    assert r.Success? && |r.value| == b.width;
    assert r.value == SolutionDigits(b)[y];
  }

  lemma {:induction false} ParseRowsOf(b: Board, lines: seq<string>, from: nat)
    requires b.Valid() && from + |lines| == b.height
    requires forall k :: 0 <= k < |lines| ==> lines[k] == LineText(b.cells[from + k])
    ensures ParseRows(lines) == Success(SolutionDigits(b)[from..])
    decreases |lines|
  {
    if lines != [] {
      ParseLineText(b, from);
      ParseRowsOf(b, lines[1..], from + 1);
      assert SolutionDigits(b)[from..] == [SolutionDigits(b)[from]] + SolutionDigits(b)[from + 1..];
    }
  }

  /**
    The solution string of a finished board decodes, with the board's
    width, to one row of digits per row: 1 where the cell is filled, 0
    where it is crossed.
   */
  lemma ParseSolutionText(b: Board)
    requires b.Valid() && b.height > 0 && b.width > 0
    ensures ParseSolution(SolutionText(b), b.width) == Success(Some(SolutionDigits(b)))
  {
    SolutionTextChunks(b);
    ParseRowsOf(b, LineTexts(b, b.height), 0);
    assert SolutionDigits(b)[0..] == SolutionDigits(b);
    assert SolutionDigits(b) != [];
  }

  /** The solution string of a board, cut into rows of its width, is its rows' texts. */
  lemma SolutionTextChunks(b: Board)
    requires b.Valid() && b.width > 0
    ensures SolutionChunks(SolutionText(b), b.width) == LineTexts(b, b.height)
  {
    ChunksOfConcat(LineTexts(b, b.height), b.width);
  }

  /** Where the writes of `load_solution` have reached, each cell holds its decoded value. */
  lemma {:induction false} WrittenCellsValue(b: Board, rows: seq<seq<nat>>, y: nat, x: nat)
    requires b.Valid() && y < b.height && x <= b.width
    requires |rows| >= b.height && forall k :: 0 <= k < |rows| ==> |rows[k]| == b.width
    ensures forall y', x' :: 0 <= y' < b.height && 0 <= x' < b.width ==>
      WrittenCells(b, Digits(rows), y, x).cells[y'][x'] ==
        if y' < y || (y' == y && x' < x) then Decoded(rows, y', x', b.cells[y'][x']) else b.cells[y'][x']
    decreases y, 1, x
  {
    if x == 0 {
      WrittenRowsValue(b, rows, y);
    } else {
      var c := WrittenCells(b, Digits(rows), y, x - 1);
      WrittenCellsValue(b, rows, y, x - 1);
      if SolutionCell(Digits(rows), y, x - 1).value.Some? {
        PutCells(c, Row, y, x - 1, SolutionCell(Digits(rows), y, x - 1).value.value);
      }
    }
  }

  lemma {:induction false} WrittenRowsValue(b: Board, rows: seq<seq<nat>>, y: nat)
    requires b.Valid() && y <= b.height
    requires |rows| >= b.height && forall k :: 0 <= k < |rows| ==> |rows[k]| == b.width
    ensures forall y', x' :: 0 <= y' < b.height && 0 <= x' < b.width ==>
      WrittenRows(b, Digits(rows), y).cells[y'][x'] ==
        if y' < y then Decoded(rows, y', x', b.cells[y'][x']) else b.cells[y'][x']
    decreases y, 0, 0
  {
    if y > 0 {
      WrittenCellsValue(b, rows, y - 1, b.width);
    }
  }

  /**
    Saving a finished board and loading the saved digits back restores it,
    whatever the grid held before.
   */
  lemma SaveLoadRoundTrip(g: Board, b: Board)
    requires g.Valid() && b.Valid() && g.height == b.height && g.width == b.width && BoardDecided(b)
    ensures WrittenRows(g, Digits(SolutionDigits(b)), g.height) == b
  {
    var rows := SolutionDigits(b);
    WrittenRowsValue(g, rows, g.height);
    Ext(WrittenRows(g, Digits(rows), g.height), b);
  }

  /**
    The flat text `save_solution` leaves in the solution field cannot be
    loaded back: with two columns or more the second cell of the first row
    raises IndexError, and no cell is ever written.
   */
  lemma SavedTextNotLoadable(b: Board)
    requires b.Valid() && b.height > 0 && b.width >= 2
    ensures FirstMissing(Text(SolutionText(b)), b.width, 0, 1)
    ensures forall y, x :: 0 <= y < b.height && 0 <= x <= b.width ==> WrittenCells(b, Text(SolutionText(b)), y, x) == b
  {
    var s := SolutionText(b);
    forall y, x | 0 <= y < b.height && 0 <= x <= b.width
      ensures WrittenCells(b, Text(s), y, x) == b
    {
      TextWritesNothing(b, s, y, x);
    }
  }

  lemma {:induction false} TextWritesNothing(b: Board, s: string, y: nat, x: nat)
    requires b.Valid() && y < b.height && x <= b.width
    ensures WrittenCells(b, Text(s), y, x) == b
    decreases y, 1, x
  {
    if x > 0 {
      TextWritesNothing(b, s, y, x - 1);
    } else if y > 0 {
      TextWritesNothing(b, s, y - 1, b.width);
    }
  }

  // ---------------------------------------------------------------------
  // Properties of the checks

  lemma CheckLinesFromMeaning(b: Board, clues: Clues, a: Axis, k: nat)
    requires b.Valid() && AllBoardCells(b) && |clues.Of(a)| == b.Count(a) && k <= b.Count(a)
    ensures CheckLinesFrom(b, clues, a, k) ==
      Success(forall p :: k <= p < b.Count(a) ==> LineSolved(Package, b.Line(a, p), clues.Of(a)[p]))
  {
    var test := LineChecks(b, clues, a);
    CheckLinesFromSolved(b, clues, a, k);
    AllFromMeaning(test, k, b.Count(a));
    forall p | k <= p < b.Count(a)
      ensures test(p) == LineSolved(Package, b.Line(a, p), clues.Of(a)[p])
    {
    }
  }

  /** Whether line p of axis a exists and checks. */
  function LineChecks(b: Board, clues: Clues, a: Axis): nat -> bool
    requires b.Valid() && |clues.Of(a)| == b.Count(a)
  {
    (p: nat) => p < b.Count(a) && LineSolved(Package, b.Line(a, p), clues.Of(a)[p])
  }

  /** f holds at k, k + 1, ..., n - 1. */
  predicate AllFrom(f: nat -> bool, k: nat, n: nat)
    decreases n - k
  {
    k >= n || (f(k) && AllFrom(f, k + 1, n))
  }

  lemma {:induction false} AllFromMeaning(f: nat -> bool, k: nat, n: nat)
    ensures AllFrom(f, k, n) <==> forall p :: k <= p < n ==> f(p)
    decreases n - k
  {
    if k < n {
      AllFromMeaning(f, k + 1, n);
    }
  }

  lemma {:induction false} CheckLinesFromSolved(b: Board, clues: Clues, a: Axis, k: nat)
    requires b.Valid() && AllBoardCells(b) && |clues.Of(a)| == b.Count(a) && k <= b.Count(a)
    ensures CheckLinesFrom(b, clues, a, k) == Success(AllFrom(LineChecks(b, clues, a), k, b.Count(a)))
    decreases b.Count(a) - k
  {
    if k < b.Count(a) {
      CheckLineAtMeaning(b, clues, a, k);
      CheckLinesFromSolved(b, clues, a, k + 1);
      CheckLinesFromStep(b, clues, a, k, LineSolved(Package, b.Line(a, k), clues.Of(a)[k]));
    }
  }

  /** One step of the loop of `check_all` past a line that checks without raising. */
  lemma CheckLinesFromStep(b: Board, clues: Clues, a: Axis, k: nat, ok: bool)
    requires b.Valid() && AllBoardCells(b) && k < b.Count(a)
    requires CheckLineAt(b, clues, a, k) == Success(ok)
    ensures CheckLinesFrom(b, clues, a, k) == if ok then CheckLinesFrom(b, clues, a, k + 1) else Success(false)
  {
  }

  /** With one clue per line, checking line k is comparing its run lengths with its clue. */
  lemma CheckLineAtMeaning(b: Board, clues: Clues, a: Axis, k: nat)
    requires b.Valid() && AllBoardCells(b) && |clues.Of(a)| == b.Count(a) && k < b.Count(a)
    ensures CheckLineAt(b, clues, a, k) == Success(LineSolved(Package, b.Line(a, k), clues.Of(a)[k]))
  {
    LineCells(b, a, k);
    SegmentsPipeline(b.Line(a, k));
  }

  /** With one clue per line, `check_all` says whether the puzzle is solved, and never raises. */
  lemma CheckAllMeaning(b: Board, clues: Clues)
    requires b.Valid() && AllBoardCells(b) && clues.Fit(b)
    ensures CheckAllOf(b, clues) == Success(Solved(Package, b, clues))
  {
    CheckLinesFromMeaning(b, clues, Row, 0);
    CheckLinesFromMeaning(b, clues, Col, 0);
  }

  lemma {:induction false} CheckLinesFromRaises(b: Board, clues: Clues, a: Axis, k: nat)
    requires b.Valid() && AllBoardCells(b)
    ensures CheckLinesFrom(b, clues, a, k).Failure? ==> |clues.Of(a)| < b.Count(a)
    decreases b.Count(a) - k
  {
    if k < b.Count(a) {
      CheckLinesFromRaises(b, clues, a, k + 1);
    }
  }

  /** `check_all` raises only when a clue list is shorter than its axis. */
  lemma CheckAllRaises(b: Board, clues: Clues)
    requires b.Valid() && AllBoardCells(b)
    ensures CheckAllOf(b, clues).Failure? ==> |clues.rows| < b.height || |clues.columns| < b.width
  {
    CheckLinesFromRaises(b, clues, Row, 0);
    CheckLinesFromRaises(b, clues, Col, 0);
  }

  // ---------------------------------------------------------------------
  // The class

  class Nonogram {
    var author: string
    var date: string
    var picture: int
    var difficulty: int
    var width: int
    var height: int
    var clues: Clues
    var solution: Option<Solution>
    var solved: bool
    var loaded: bool
    var grid: NonogramGrid?

    /** Once loaded, the grid exists, has the puzzle's shape, and holds only -1, 0 and 1. */
    predicate Valid()
      reads this, grid, if grid != null then {grid.cells} else {}
    {
      loaded ==> grid != null && grid.cells.Length0 == height && grid.cells.Length1 == width && grid.Valid()
    }

    /** The grid the puzzle is played on, once loaded. */
    function Board(): Board
      requires loaded && Valid()
      reads this, grid, grid.cells
    {
      Snapshot(grid.cells)
    }

    /** The fields `load` assigns. */
    function Current(): Fields
      reads this
    {
      Fields(author, date, picture, difficulty, width, height, clues, solution)
    }

    constructor()
      ensures Valid() && !loaded && !solved && solution == None && grid == null
    {
      author, date := [], [];
      picture, difficulty, width, height := 0, 0, 0, 0;
      clues := Clues([], []);
      solution := None;
      solved := false;
      loaded := false;
      grid := null;
    }

    /**
      The fields of a decoded file, and the solution reset to none with
      `solved` cleared when the file has no solution.
     */
    method Store(p: Puzzle)
      modifies this
      ensures Current() == Loaded(p)
      ensures solved == (p.solution.Some? && old(solved))
      ensures loaded == old(loaded) && grid == old(grid)
    {
      author, date := p.author, p.date;
      picture, difficulty := p.picture, p.difficulty;
      width, height := p.width, p.height;
      clues := p.clues;
      solution := if p.solution.None? then None else Some(Digits(p.solution.value));
      if p.solution.None? {
        solved := false;
      }
    }

    /**
      `load` as the repository has it: the file decoded into the fields,
      the puzzle marked loaded and its grid made. `solved` is reset when
      the file has no solution and otherwise kept as it was, so on a fresh
      object it stays false. A file that does not decode raises, and the
      object is left as it was.
     */
    method LoadAsWritten(data: seq<string>) returns (o: Outcome)
      modifies this
      ensures o == if ParseFile(data).Success? then Done else Raised(ParseFile(data).error)
      ensures ParseFile(data).Failure? ==> unchanged(this)
      ensures ParseFile(data).Success? ==> var p := ParseFile(data).value;
        && Current() == Loaded(p) && solved == (p.solution.Some? && old(solved))
        && loaded && Valid() && fresh(grid) && fresh(grid.cells) && Board() == Uniform(p.height, p.width, Unknown)
    {
      var parsed := ParseFile(data);
      if parsed.Failure? {
        return Raised(parsed.error);
      }
      Store(parsed.value);
      loaded := true;
      o := LoadGrid();
    }

    /** `load`, with `solved` set exactly when the file has a solution. */
    method Load(data: seq<string>) returns (o: Outcome)
      modifies this
      ensures o == if ParseFile(data).Success? then Done else Raised(ParseFile(data).error)
      ensures ParseFile(data).Failure? ==> unchanged(this)
      ensures ParseFile(data).Success? ==> var p := ParseFile(data).value;
        && Current() == Loaded(p) && solved == p.solution.Some?
        && loaded && Valid() && fresh(grid) && fresh(grid.cells) && Board() == Uniform(p.height, p.width, Unknown)
    {
      var parsed := ParseFile(data);
      if parsed.Failure? {
        return Raised(parsed.error);
      }
      Store(parsed.value);
      solved := parsed.value.solution.Some?;
      loaded := true;
      o := LoadGrid();
    }

    /**
      `load_grid`: a fresh all-zero grid of the puzzle's shape. It raises
      when the puzzle is not loaded, and a negative width or height is the
      ValueError of making an array of that shape.
     */
    method LoadGrid() returns (o: Outcome)
      modifies this
      ensures !loaded ==> o == Raised(NotLoaded) && grid == old(grid)
      ensures loaded && (height < 0 || width < 0) ==> o == Raised(ValueError) && grid == old(grid)
      ensures loaded && height >= 0 && width >= 0 ==>
        o == Done && Valid() && fresh(grid) && fresh(grid.cells) && Board() == Uniform(height, width, Unknown)
      ensures Current() == old(Current()) && solved == old(solved) && loaded == old(loaded)
    {
      if !loaded {
        return Raised(NotLoaded);
      }
      if height < 0 || width < 0 {
        return Raised(ValueError);
      }
      grid := new NonogramGrid(height, width);
      o := Done;
    }

    /**
      `save_solution`: the grid written row by row into the solution field,
      '1' for filled and '0' for crossed. An unknown cell raises
      RuntimeError, leaving in the field what was written before it. A
      puzzle not yet solved is marked solved. On a puzzle not loaded the
      field is emptied and `range` of the missing height raises TypeError.
      Nothing but the solution and the solved flag changes.
     */
    method SaveSolution() returns (o: Outcome)
      requires Valid()
      modifies this
      ensures grid == old(grid) && loaded == old(loaded) && Valid()
      ensures author == old(author) && date == old(date) && picture == old(picture) && difficulty == old(difficulty)
      ensures clues == old(clues) && width == old(width) && height == old(height)
      ensures !loaded ==> o == Raised(TypeError) && solution == Some(Text([])) && solved == old(solved)
      ensures loaded ==> Board() == old(Board())
      ensures loaded && BoardDecided(Board()) ==> o == Done && solution == Some(Text(SolutionText(Board()))) && solved
      ensures loaded && !BoardDecided(Board()) ==> (o == Raised(RuntimeError) && solved == old(solved) &&
        exists y: nat, x: nat :: FirstUnknown(Board(), y, x) && solution == Some(Text(RowsText(Board(), y) + LineText(Board().cells[y][..x]))))
    {
      if !loaded {
        solution := Some(Text([]));
        return Raised(TypeError);
      }
      ghost var b := Board();
      var text: string := [];
      for y := 0 to height
        invariant grid == old(grid) && loaded && Valid() && Board() == b
        invariant author == old(author) && date == old(date) && picture == old(picture) && difficulty == old(difficulty)
        invariant clues == old(clues) && width == old(width) && height == old(height) && solved == old(solved)
        invariant forall y', x' :: 0 <= y' < y && 0 <= x' < width ==> IsDecided(b.cells[y'][x'])
        invariant text == RowsText(b, y)
      {
        var line: string := [];
        for x := 0 to width
          invariant forall x' :: 0 <= x' < x ==> IsDecided(b.cells[y][x'])
          invariant line == LineText(b.cells[y][..x])
        {
          var c := grid.cells[y, x];
          assert c == b.cells[y][x];
          assert b.cells[y][..x + 1] == b.cells[y][..x] + [c];
          if c == Unknown {
            solution := Some(Text(text + line));
            assert FirstUnknown(b, y, x);
            return Raised(RuntimeError);
          }
          assert AllCells(b.cells[y]);
          line := line + [if c == Filled then '1' else '0'];
        }
        assert b.cells[y][..width] == b.cells[y];
        RowsTextStep(b, y);
        text := text + line;
      }
      solution := Some(Text(text));
      if !solved {
        solved := true;
      }
      o := Done;
    }

    /**
      `load_solution`: the solution's digits written into the grid, row by
      row, 1 as a filled cell and 0 as a crossed one. It raises when the
      puzzle is not loaded or has no solution marked solved, and at the
      first cell whose digit is missing, keeping what was written before.
     */
    method LoadSolution() returns (o: Outcome)
      requires Valid()
      modifies if grid != null then {grid.cells} else {}
      ensures Valid()
      ensures !loaded ==> o == Raised(NotLoaded)
      ensures loaded && (solution.None? || !solved) ==> o == Raised(NoSolution) && Board() == old(Board())
      ensures loaded && solution.Some? && solved ==>
        && ((forall y, x :: 0 <= y < height && 0 <= x < width ==> SolutionCell(solution.value, y, x).Success?) ==>
              o == Done && Board() == WrittenRows(old(Board()), solution.value, height))
        && (!(forall y, x :: 0 <= y < height && 0 <= x < width ==> SolutionCell(solution.value, y, x).Success?) ==>
              o == Raised(IndexError) &&
              exists y: nat, x: nat :: y < height && FirstMissing(solution.value, width, y, x) &&
                Board() == WrittenCells(old(Board()), solution.value, y, x))
    {
      if !loaded {
        return Raised(NotLoaded);
      }
      if solution.None? || !solved {
        return Raised(NoSolution);
      }
      ghost var b := Board();
      var sol := solution.value;
      for y := 0 to height
        invariant Valid() && Board() == WrittenRows(b, sol, y)
        invariant forall y', x' :: 0 <= y' < y && 0 <= x' < width ==> SolutionCell(sol, y', x').Success?
      {
        for x := 0 to width
          invariant Valid() && Board() == WrittenCells(b, sol, y, x)
          invariant forall x' :: 0 <= x' < x ==> SolutionCell(sol, y, x').Success?
        {
          var missing := WriteSolutionCell(sol, y, x);
          if missing {
            assert FirstMissing(sol, width, y, x);
            return Raised(IndexError);
          }
        }
      }
      o := Done;
    }

    /** The body of the loops of `load_solution`: cell (x, y) gets its digit, if there is one. */
    method WriteSolutionCell(sol: Solution, y: nat, x: nat) returns (missing: bool)
      requires loaded && Valid() && y < height && x < width
      modifies grid.cells
      ensures Valid() && missing == SolutionCell(sol, y, x).Failure?
      ensures Board() == if missing then old(Board()) else Apply(old(Board()), sol, y, x)
    {
      var cell := ReadSolution(sol, y, x);
      missing := cell.Failure?;
      if cell.Success? && cell.value.Some? {
        var _ := grid.SetCell(x, y, cell.value.value);
      }
    }

    /** `check_row(y)`; a puzzle not loaded has no grid to ask for segments. */
    function CheckRow(y: int): (r: Result<bool>)
      requires Valid()
      reads this, grid, if grid != null then {grid.cells} else {}
      ensures !loaded ==> r == Failure(AttributeError)
      ensures loaded ==> r == CheckLineAt(Board(), clues, Row, y)
    {
      if !loaded then Failure(AttributeError) else
      var segments :- grid.GetRowSegments(y);
      match NumpyIndex(y, |clues.rows|)
      case None => Failure(IndexError)
      case Some(k) => Success(segments == clues.rows[k])
    }

    /** `check_col(x)`; a puzzle not loaded has no grid to ask for segments. */
    function CheckCol(x: int): (r: Result<bool>)
      requires Valid()
      reads this, grid, if grid != null then {grid.cells} else {}
      ensures !loaded ==> r == Failure(AttributeError)
      ensures loaded ==> r == CheckLineAt(Board(), clues, Col, x)
    {
      if !loaded then Failure(AttributeError) else
      var segments :- grid.GetColSegments(x);
      match NumpyIndex(x, |clues.columns|)
      case None => Failure(IndexError)
      case Some(k) => Success(segments == clues.columns[k])
    }

    /**
      `check_all`: the rows, then the columns, until one does not check. On a
      puzzle not loaded `range` of the missing height raises TypeError.
     */
    method CheckAll() returns (r: Result<bool>)
      requires Valid()
      ensures !loaded ==> r == Failure(TypeError)
      ensures loaded ==> r == CheckAllOf(Board(), clues)
    {
      if !loaded {
        return Failure(TypeError);
      }
      ghost var b := Board();
      for y := 0 to height
        invariant CheckLinesFrom(b, clues, Row, 0) == CheckLinesFrom(b, clues, Row, y)
      {
        var c := CheckRow(y);
        if c != Success(true) {
          return c;
        }
      }
      for x := 0 to width
        invariant CheckLinesFrom(b, clues, Col, 0) == CheckLinesFrom(b, clues, Col, x)
        invariant CheckLinesFrom(b, clues, Row, 0) == Success(true)
      {
        var c := CheckCol(x);
        if c != Success(true) {
          return c;
        }
      }
      r := Success(true);
    }

    /** `is_solved`. */
    method IsSolved() returns (r: Result<bool>)
      requires Valid()
      ensures !loaded ==> r == Failure(TypeError)
      ensures loaded ==> r == CheckAllOf(Board(), clues)
      ensures loaded && clues.Fit(Board()) ==> r == Success(Solved(Package, Board(), clues))
    {
      r := CheckAll();
      if loaded && clues.Fit(Board()) {
        CheckAllMeaning(Board(), clues);
      }
    }
  }

  /** `solution[y][x]`, decoded as `load_solution` reads it. */
  method ReadSolution(sol: Solution, y: nat, x: nat) returns (r: Result<Option<int>>)
    ensures r == SolutionCell(sol, y, x)
  {
    match sol
    case Digits(rows) =>
      r := ReadDigit(rows, y, x);
    case Text(s) =>
      if y >= |s| || x >= 1 {
        return Failure(IndexError);
      }
      r := Success(None);
  }

  /** `rows[y][x]` compared with 1 and then 0. */
  method ReadDigit(rows: seq<seq<nat>>, y: nat, x: nat) returns (r: Result<Option<int>>)
    ensures r.Failure? <==> y >= |rows| || x >= |rows[y]|
    ensures r.Failure? ==> r.error == IndexError
    ensures r.Success? ==> (r.value == Some(Filled) <==> rows[y][x] == 1) && (r.value == Some(Crossed) <==> rows[y][x] == 0)
    ensures r.Success? ==> (r.value.None? <==> rows[y][x] > 1)
    ensures r == DigitCell(rows, y, x)
  {
    if y >= |rows| || x >= |rows[y]| {
      return Failure(IndexError);
    }
    var digit := rows[y][x];
    if digit == 1 {
      r := Success(Some(Filled));
    } else if digit == 0 {
      r := Success(Some(Crossed));
    } else {
      r := Success(None);
    }
  }

  lemma RowsTextStep(b: Board, y: nat)
    requires b.Valid() && y < b.height
    ensures RowsText(b, y + 1) == RowsText(b, y) + LineText(b.cells[y])
  {
    var lines := LineTexts(b, y + 1);
    assert LineTexts(b, y) == lines[..y];
    ConcatSnoc(lines[..y], LineText(b.cells[y]));
    assert lines[..y] + [LineText(b.cells[y])] == lines;
  }

  lemma {:induction false} ConcatSnoc(pieces: seq<string>, last: string)
    ensures Concat(pieces + [last]) == Concat(pieces) + last
    decreases |pieces|
  {
    if pieces == [] {
      assert [last][1..] == [];
    } else {
      assert (pieces + [last])[1..] == pieces[1..] + [last];
      ConcatSnoc(pieces[1..], last);
    }
  }

  // ---------------------------------------------------------------------
  // Loading a file and then its solution

  /**
    The repository's order of calls, `load` then `load_solution`, on a file
    with a solution: as `load` is written, the solution is never marked
    solved, so `load_solution` always raises.
   */
  method LoadThenLoadSolutionAsWritten(data: seq<string>, ghost p: Puzzle) returns (o: Outcome)
    requires ParseFile(data) == Success(p) && p.solution.Some?
    ensures o == Raised(NoSolution)
  {
    var n := new Nonogram();
    var loaded := n.LoadAsWritten(data);
    assert n.loaded && !n.solved;
    o := n.LoadSolution();
  }

  /**
    The same calls with `load` marking a file with a solution as solved: a
    file whose solution has a row for every grid row loads it, and the grid
    then holds the decoded solution.
   */
  method LoadThenLoadSolution(data: seq<string>, ghost p: Puzzle) returns (o: Outcome, n: Nonogram)
    requires ParseFile(data) == Success(p) && p.solution.Some? && |p.solution.value| >= p.height
    ensures n.loaded && n.Valid() && o == Done && n.height == p.height && n.width == p.width
    ensures var rows := p.solution.value;
      forall y, x :: 0 <= y < p.height && 0 <= x < p.width ==>
        n.Board().cells[y][x] == Decoded(rows, y, x, Unknown)
  {
    n := new Nonogram();
    var loaded := n.Load(data);
    ghost var rows := p.solution.value;
    ghost var start := n.Board();
    assert start == Uniform(p.height, p.width, Unknown) && n.solution == Some(Digits(rows)) && n.solved;
    assert n.height == p.height && n.width == p.width;
    DigitsComplete(rows, p.height, p.width);
    o := n.LoadSolution();
    ghost var final := n.Board();
    assert final == WrittenRows(start, Digits(rows), p.height);
    LoadedBoard(start, rows);
  }

  /** Digits with a full row for every grid row give every cell an entry. */
  lemma DigitsComplete(rows: seq<seq<nat>>, h: nat, w: nat)
    requires |rows| >= h && forall k :: 0 <= k < |rows| ==> |rows[k]| == w
    ensures forall y, x :: 0 <= y < h && 0 <= x < w ==> SolutionCell(Digits(rows), y, x).Success?
  {
  }

  /** On an all-unknown board, loading the digits leaves each cell as its digit decodes. */
  lemma LoadedBoard(b: Board, rows: seq<seq<nat>>)
    requires b.Valid() && b == Uniform(b.height, b.width, Unknown)
    requires |rows| >= b.height && forall k :: 0 <= k < |rows| ==> |rows[k]| == b.width
    ensures forall y, x :: 0 <= y < b.height && 0 <= x < b.width ==>
      WrittenRows(b, Digits(rows), b.height).cells[y][x] == Decoded(rows, y, x, Unknown)
  {
    WrittenRowsValue(b, rows, b.height);
  }
}
