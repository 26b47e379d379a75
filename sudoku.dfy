/** The text loader and the validator of the command-line driver.  The
    loader reads already-split lines in two formats: rows of 8 or 9 digit
    characters closed by a line starting with '=', and single 81-character
    lines with '.' for an empty cell.  The validator checks every row,
    every column and the first eight blocks of a solved board. */
module Sudoku {
  import opened Wrappers
  import opened Grid
  import opened Board

  // ---------------------------------------------------------------------
  // The loader, as a function of the lines.
  // ---------------------------------------------------------------------

  /** The value the loader writes for character ch: its code minus '0'. */
  function Digit(ch: char): int
  {
    ch as int - 48
  }

  /** Whether ch is one of the characters '0'..'9', the ones whose value
      the board accepts. */
  predicate IsDigitChar(ch: char)
  {
    '0' <= ch <= '9'
  }

  /** Every character of line is a digit character. */
  predicate DigitChars(line: string)
  {
    forall k :: 0 <= k < |line| ==> IsDigitChar(line[k])
  }

  /** The board operation the loader performs: a write that fails, leaving
      nothing, off the board or outside 0..9. */
  function SetCell(g: seq<int>, row: int, col: int, v: int): (r: Result<seq<int>, IllegalArgument>)
    requires |g| == 81
    ensures r.Ok? <==> 0 <= row <= 8 && 0 <= col <= 8 && 0 <= v <= 9
    ensures r.Ok? ==> |r.value| == 81
  {
    if row < 0 || row > 8 || col < 0 || col > 8 || v < 0 || v > 9 then Err(IllegalArgument)
    else Ok(g[Index(row, col) := v])
  }

  /** Writes the characters of line from column c on into row `row`. */
  function FillRow(g: seq<int>, row: int, line: string, c: nat): (r: Result<seq<int>, IllegalArgument>)
    requires |g| == 81 && c <= |line|
    ensures r.Ok? ==> |r.value| == 81
    ensures r.Ok? <==> && (c < |line| ==> 0 <= row <= 8 && |line| <= 9)
                       && forall k :: c <= k < |line| ==> IsDigitChar(line[k])
    decreases |line| - c
  {
    if c == |line| then Ok(g)
    else
      assert IsDigitChar(line[c]) <==> 0 <= Digit(line[c]) <= 9;
      match SetCell(g, row, c, Digit(line[c]))
      case Err(e) => Err(e)
      case Ok(g1) => FillRow(g1, row, line, c + 1)
  }

  /** Every character of the 81-character line from position n on is '.'
      or a digit character. */
  predicate GridChars(line: string, n: nat)
    requires |line| == 81
  {
    forall k :: n <= k < 81 ==> line[k] == '.' || IsDigitChar(line[k])
  }

  /** Writes the characters of an 81-character line from position n on,
      skipping '.'. */
  function FillGrid(g: seq<int>, line: string, n: nat): (r: Result<seq<int>, IllegalArgument>)
    requires |g| == 81 && |line| == 81 && n <= 81
    ensures r.Ok? ==> |r.value| == 81
    ensures r.Ok? <==> GridChars(line, n)
    decreases 81 - n
  {
    if n == 81 then Ok(g)
    else if line[n] == '.' then FillGrid(g, line, n + 1)
    else match SetCell(g, n / 9, n % 9, Digit(line[n]))
      case Err(e) => Err(e)
      case Ok(g1) => FillGrid(g1, line, n + 1)
  }

  /** The loader's variables: the boards appended so far, the board being
      filled and the row the next row line goes to. */
  datatype LoadState = LoadState(loaded: seq<seq<int>>, current: seq<int>, row: int)

  /** The state before the first line. */
  function Start(): LoadState
  {
    LoadState([], Blank(), 0)
  }

  /** What one line does to the loader's state.  A row line fails exactly
      when there is no row left for it or one of its characters is not a
      digit character; an 81-character line fails exactly when one of its
      characters is neither '.' nor a digit character.  Boards already
      closed are never changed, and a line closes at most one more. */
  function Step(st: LoadState, line: string): (r: Result<LoadState, IllegalArgument>)
    requires |st.current| == 81
    ensures r.Ok? ==> |r.value.current| == 81
    ensures r.Err? <==>
              || (7 < |line| <= 9 && line[0] != '=' && (st.row < 0 || st.row > 8 || !DigitChars(line)))
              || (|line| == 81 && !GridChars(line, 0))
    ensures r.Ok? ==> st.loaded <= r.value.loaded && |r.value.loaded| <= |st.loaded| + 1
  {
    if 7 < |line| <= 9 then
      if line[0] != '=' then
        match FillRow(st.current, st.row, line, 0)
        case Err(e) => Err(e)
        case Ok(g) => Ok(LoadState(st.loaded, g, st.row + 1))
      else
        Ok(LoadState(st.loaded + [st.current], Blank(), 0))
    else if |line| == 81 then
      match FillGrid(st.current, line, 0)
      case Err(e) => Err(e)
      case Ok(g) => Ok(LoadState(st.loaded + [g], Blank(), 9))
    else
      Ok(st)
  }

  /** The state after all of lines, or the first failure.  Boards already
      closed stay as they are. */
  function Run(st: LoadState, lines: seq<string>): (r: Result<LoadState, IllegalArgument>)
    requires |st.current| == 81
    ensures r.Ok? ==> |r.value.current| == 81
    ensures r.Ok? ==> st.loaded <= r.value.loaded
    decreases |lines|
  {
    if lines == [] then Ok(st)
    else match Step(st, lines[0])
      case Err(e) => Err(e)
      case Ok(st1) => Run(st1, lines[1..])
  }

  /** The boards the loader returns for lines: every board closed by a
      separator or an 81-character line, then the board being filled if it
      holds any digit.  Every board holds only 0 and digits 1..9. */
  function Load(lines: seq<string>): (r: Result<seq<seq<int>>, IllegalArgument>)
    ensures r.Ok? ==> forall j :: 0 <= j < |r.value| ==> InDigitRange(r.value[j])
  {
    RunInRange(Start(), lines);
    match Run(Start(), lines)
    case Err(e) => Err(e)
    case Ok(st) => Ok(if IsBlank(st.current) then st.loaded else st.loaded + [st.current])
  }

  // ---------------------------------------------------------------------
  // Properties of the loader.
  // ---------------------------------------------------------------------

  /** Every board the loader writes keeps its cells in 0..9. */
  lemma {:induction false} FillRowInRange(g: seq<int>, row: int, line: string, c: nat)
    requires InDigitRange(g) && c <= |line|
    ensures FillRow(g, row, line, c).Ok? ==> InDigitRange(FillRow(g, row, line, c).value)
    decreases |line| - c
  {
    if c < |line| && SetCell(g, row, c, Digit(line[c])).Ok? {
      FillRowInRange(g[Index(row, c) := Digit(line[c])], row, line, c + 1);
    }
  }

  lemma {:induction false} FillGridInRange(g: seq<int>, line: string, n: nat)
    requires InDigitRange(g) && |line| == 81 && n <= 81
    ensures FillGrid(g, line, n).Ok? ==> InDigitRange(FillGrid(g, line, n).value)
    decreases 81 - n
  {
    if n < 81 {
      if line[n] == '.' {
        FillGridInRange(g, line, n + 1);
      } else if SetCell(g, n / 9, n % 9, Digit(line[n])).Ok? {
        FillGridInRange(g[Index(n / 9, n % 9) := Digit(line[n])], line, n + 1);
      }
    }
  }

  lemma {:induction false} RunInRange(st: LoadState, lines: seq<string>)
    requires InDigitRange(st.current) && forall j :: 0 <= j < |st.loaded| ==> InDigitRange(st.loaded[j])
    ensures Run(st, lines).Ok? ==>
      var st1 := Run(st, lines).value;
      InDigitRange(st1.current) && forall j :: 0 <= j < |st1.loaded| ==> InDigitRange(st1.loaded[j])
    decreases |lines|
  {
    if lines != [] {
      var line := lines[0];
      if 7 < |line| <= 9 && line[0] != '=' {
        FillRowInRange(st.current, st.row, line, 0);
      } else if !(7 < |line| <= 9) && |line| == 81 {
        FillGridInRange(st.current, line, 0);
      }
      if Step(st, line).Ok? {
        RunInRange(Step(st, line).value, lines[1..]);
      }
    }
  }

  /** Lines are processed one after the other: running a + b runs b from
      the state a leaves. */
  lemma {:induction false} RunAppend(st: LoadState, a: seq<string>, b: seq<string>)
    requires |st.current| == 81
    ensures Run(st, a + b) == match Run(st, a)
                              case Err(e) => Err(e)
                              case Ok(st1) => Run(st1, b)
    decreases |a|
  {
    if a == [] {
      assert a + b == b;
    } else {
      assert (a + b)[0] == a[0] && (a + b)[1..] == a[1..] + b;
      if Step(st, a[0]).Ok? {
        RunAppend(Step(st, a[0]).value, a[1..], b);
      }
    }
  }

  /** Running from line i is taking line i's step, then running from i + 1. */
  lemma RunOneLine(st: LoadState, lines: seq<string>, i: int)
    requires |st.current| == 81 && 0 <= i < |lines|
    ensures Run(st, lines[i..]) == match Step(st, lines[i])
                                   case Err(e) => Err(e)
                                   case Ok(st1) => Run(st1, lines[i + 1..])
  {
    assert lines[i..][0] == lines[i] && lines[i..][1..] == lines[i + 1..];
  }

  /** A line that is neither 8, 9 nor 81 characters long changes nothing. */
  lemma IgnoredLine(st: LoadState, line: string)
    requires |st.current| == 81 && !(7 < |line| <= 9) && |line| != 81
    ensures Step(st, line) == Ok(st)
  {
  }

  /** A separator closes the board being filled, even an empty one. */
  lemma SeparatorClosesBoard(st: LoadState, line: string)
    requires |st.current| == 81 && 7 < |line| <= 9 && line[0] == '='
    ensures Step(st, line) == Ok(LoadState(st.loaded + [st.current], Blank(), 0))
  {
  }

  /** The board g with every cell from position n on emptied. */
  function Upto(g: seq<int>, n: int): (h: seq<int>)
    requires |g| == 81
    ensures |h| == 81
  {
    seq(81, i requires 0 <= i < 81 => if i < n then g[i] else 0)
  }

  /** The 81-character line for board g: '.' for an empty cell, the digit
      character otherwise. */
  function Line81(g: seq<int>): (line: string)
    requires InDigitRange(g)
    ensures |line| == 81
  {
    seq(81, i requires 0 <= i < 81 => if g[i] == 0 then '.' else (g[i] + 48) as char)
  }

  lemma {:induction false} FillGridLine81(g: seq<int>, n: nat)
    requires InDigitRange(g) && n <= 81
    ensures FillGrid(Upto(g, n), Line81(g), n) == Ok(g)
    decreases 81 - n
  {
    var line := Line81(g);
    if n == 81 {
      assert Upto(g, 81) == g;
    } else {
      FillGridLine81(g, n + 1);
      if line[n] == '.' {
        assert Upto(g, n) == Upto(g, n + 1);
      } else {
        DivMod9(n, n / 9, n % 9);
        assert Digit(line[n]) == g[n];
        assert Upto(g, n)[Index(n / 9, n % 9) := g[n]] == Upto(g, n + 1);
      }
    }
  }

  /** Round trip of the 81-character format: the line written for a board
      loads back as exactly that board. */
  lemma Line81RoundTrip(g: seq<int>)
    requires InDigitRange(g)
    ensures Load([Line81(g)]) == Ok([g])
  {
    LoadLines81([g]);
    assert Lines81([g]) == [Line81(g)];
  }

  /** The 81-character lines of a list of boards, one line per board. */
  function Lines81(gs: seq<seq<int>>): (lines: seq<string>)
    requires forall j :: 0 <= j < |gs| ==> InDigitRange(gs[j])
    ensures |lines| == |gs|
  {
    if gs == [] then [] else [Line81(gs[0])] + Lines81(gs[1..])
  }

  /** Appending the first board, then the rest, appends them all. */
  lemma MoveFirst(loaded: seq<seq<int>>, gs: seq<seq<int>>)
    requires gs != []
    ensures loaded + [gs[0]] + gs[1..] == loaded + gs
  {
    assert gs == [gs[0]] + gs[1..];
  }

  /** An 81-character line appends its board and leaves the row at 9. */
  lemma StepLine81(st: LoadState, g: seq<int>)
    requires InDigitRange(g) && st.current == Blank()
    ensures Step(st, Line81(g)) == Ok(LoadState(st.loaded + [g], Blank(), 9))
  {
    assert Upto(g, 0) == Blank();
    FillGridLine81(g, 0);
  }

  lemma {:induction false} RunLines81(gs: seq<seq<int>>, loaded: seq<seq<int>>, row: int)
    requires forall j :: 0 <= j < |gs| ==> InDigitRange(gs[j])
    ensures Run(LoadState(loaded, Blank(), row), Lines81(gs))
            == Ok(LoadState(loaded + gs, Blank(), if gs == [] then row else 9))
    decreases |gs|
  {
    if gs == [] {
      assert loaded + gs == loaded;
    } else {
      var st := LoadState(loaded, Blank(), row);
      StepLine81(st, gs[0]);
      RunOneLine(st, Lines81(gs), 0);
      assert Lines81(gs)[0..] == Lines81(gs) && Lines81(gs)[1..] == Lines81(gs[1..]);
      assert Run(st, Lines81(gs)) == Run(LoadState(loaded + [gs[0]], Blank(), 9), Lines81(gs[1..]));
      RunLines81(gs[1..], loaded + [gs[0]], 9);
      MoveFirst(loaded, gs);
    }
  }

  /** Any number of boards written as 81-character lines load back as the
      same boards, in order. */
  lemma LoadLines81(gs: seq<seq<int>>)
    requires forall j :: 0 <= j < |gs| ==> InDigitRange(gs[j])
    ensures Load(Lines81(gs)) == Ok(gs)
  {
    RunLines81(gs, [], 0);
    assert [] + gs == gs;
  }

  /** The row line for row r of board g: one digit character per cell. */
  function RowLine(g: seq<int>, r: int): (line: string)
    requires InDigitRange(g) && 0 <= r < 9
    ensures |line| == 9
  {
    seq(9, c requires 0 <= c < 9 => (g[r * 9 + c] + 48) as char)
  }

  /** The nine row lines of board g. */
  function RowLines(g: seq<int>): (lines: seq<string>)
    requires InDigitRange(g)
    ensures |lines| == 9
  {
    seq(9, r requires 0 <= r < 9 => RowLine(g, r))
  }

  /** The separator line. */
  const Separator: string := "========="

  lemma {:induction false} FillRowLine(g: seq<int>, r: int, c: nat)
    requires InDigitRange(g) && 0 <= r < 9 && c <= 9
    ensures FillRow(Upto(g, r * 9 + c), r, RowLine(g, r), c) == Ok(Upto(g, r * 9 + 9))
    decreases 9 - c
  {
    if c < 9 {
      FillRowLine(g, r, c + 1);
      assert Digit(RowLine(g, r)[c]) == g[r * 9 + c];
      assert Upto(g, r * 9 + c)[Index(r, c) := g[r * 9 + c]] == Upto(g, r * 9 + c + 1);
    }
  }

  lemma {:induction false} RunRowLines(g: seq<int>, loaded: seq<seq<int>>, r: nat)
    requires InDigitRange(g) && r <= 9
    ensures Run(LoadState(loaded, Upto(g, r * 9), r), RowLines(g)[r..]) == Ok(LoadState(loaded, g, 9))
    decreases 9 - r
  {
    if r == 9 {
      assert Upto(g, 81) == g;
    } else {
      FillRowLine(g, r, 0);
      assert RowLines(g)[r..][0] == RowLine(g, r);
      assert RowLines(g)[r..][1..] == RowLines(g)[r + 1..];
      RunRowLines(g, loaded, r + 1);
    }
  }

  /** Nine row lines and a separator append the board and start a blank
      one at row 0. */
  lemma RunRowBoard(g: seq<int>, loaded: seq<seq<int>>)
    requires InDigitRange(g)
    ensures Run(LoadState(loaded, Blank(), 0), RowLines(g) + [Separator]) == Ok(LoadState(loaded + [g], Blank(), 0))
  {
    assert Upto(g, 0) == Blank();
    assert RowLines(g)[0..] == RowLines(g);
    RunRowLines(g, loaded, 0);
    RunAppend(LoadState(loaded, Blank(), 0), RowLines(g), [Separator]);
    assert |Separator| == 9 && Separator[0] == '=';
  }

  /** Round trip of the row format: nine row lines and a separator load
      back as the board, even an empty one. */
  lemma RowLinesRoundTrip(g: seq<int>)
    requires InDigitRange(g)
    ensures Load(RowLines(g) + [Separator]) == Ok([g])
  {
    RunRowBoard(g, []);
    assert [] + [g] == [g];
  }

  /** The row format of a list of boards: each board's nine row lines
      followed by a separator. */
  function RowBoards(gs: seq<seq<int>>): (lines: seq<string>)
    requires forall j :: 0 <= j < |gs| ==> InDigitRange(gs[j])
    ensures |lines| == 10 * |gs|
  {
    if gs == [] then [] else RowLines(gs[0]) + [Separator] + RowBoards(gs[1..])
  }

  lemma {:induction false} RunRowBoards(gs: seq<seq<int>>, loaded: seq<seq<int>>)
    requires forall j :: 0 <= j < |gs| ==> InDigitRange(gs[j])
    ensures Run(LoadState(loaded, Blank(), 0), RowBoards(gs)) == Ok(LoadState(loaded + gs, Blank(), 0))
    decreases |gs|
  {
    if gs == [] {
      assert loaded + gs == loaded;
    } else {
      RunRowBoard(gs[0], loaded);
      RunAppend(LoadState(loaded, Blank(), 0), RowLines(gs[0]) + [Separator], RowBoards(gs[1..]));
      RunRowBoards(gs[1..], loaded + [gs[0]]);
      MoveFirst(loaded, gs);
    }
  }

  /** Any number of boards written in the row format load back as the same
      boards, in order, empty ones included. */
  lemma LoadRowBoards(gs: seq<seq<int>>)
    requires forall j :: 0 <= j < |gs| ==> InDigitRange(gs[j])
    ensures Load(RowBoards(gs)) == Ok(gs)
  {
    RunRowBoards(gs, []);
    assert [] + gs == gs;
  }

  /** Without the separator, nine row lines load as the board when it holds
      a digit, and as nothing when it is empty. */
  lemma RowLinesTrailing(g: seq<int>)
    requires InDigitRange(g)
    ensures Load(RowLines(g)) == Ok(if IsBlank(g) then [] else [g])
  {
    assert Upto(g, 0) == Blank();
    assert RowLines(g)[0..] == RowLines(g);
    RunRowLines(g, [], 0);
    assert [] + [g] == [g];
  }

  /** A '.' anywhere in a row line is the value -2, which the board
      refuses: once the lines before it load, the whole input fails,
      whatever follows. */
  lemma DotInRowFails(before: seq<string>, line: string, after: seq<string>, k: int)
    requires Run(Start(), before).Ok?
    requires 7 < |line| <= 9 && line[0] != '=' && 0 <= k < |line| && line[k] == '.'
    ensures Load(before + [line] + after).Err?
  {
    RunAppend(Start(), before, [line] + after);
    assert before + [line] + after == before + ([line] + after);
    assert ([line] + after)[0] == line && ([line] + after)[1..] == after;
    assert !IsDigitChar(line[k]);
  }

  /** A tenth row line before any separator is refused. */
  lemma TenthRowFails(g: seq<int>, line: string)
    requires InDigitRange(g) && |line| == 9 && line[0] != '='
    ensures Load(RowLines(g) + [line]).Err?
  {
    assert Upto(g, 0) == Blank();
    assert RowLines(g)[0..] == RowLines(g);
    RunRowLines(g, [], 0);
    RunAppend(Start(), RowLines(g), [line]);
  }

  /** After an 81-character line the row counter stays at 9, so a row line
      that follows without a separator is refused. */
  lemma RowAfterLine81Fails(g: seq<int>, line: string)
    requires InDigitRange(g) && |line| == 9 && line[0] != '='
    ensures Load([Line81(g), line]).Err?
  {
    StepLine81(Start(), g);
    assert [] + [g] == [g];
    assert [Line81(g), line][1..] == [line];
    assert Step(LoadState([g], Blank(), 9), line).Err?;
    assert Run(Start(), [Line81(g), line]) == Run(LoadState([g], Blank(), 9), [line]);
  }

  // ---------------------------------------------------------------------
  // The loader, as the driver runs it.
  // ---------------------------------------------------------------------

  /** Reads the lines into boards; fails, as the board's write fails, on a
      character outside '0'..'9' in a row line or in a non-'.' position of
      an 81-character line, and on a row line with no row left. */
  method LoadPuzzles(lines: seq<string>) returns (res: Result<seq<Puzzle>, IllegalArgument>)
    ensures res.Ok? <==> Load(lines).Ok?
    ensures res.Ok? ==> && |res.value| == |Load(lines).value|
                        && forall j :: 0 <= j < |res.value| ==>
                             res.value[j].Valid() && res.value[j].cells[..] == Load(lines).value[j]
    ensures res.Ok? ==> forall j :: 0 <= j < |res.value| ==> fresh(res.value[j]) && fresh(res.value[j].cells)
    ensures res.Ok? ==> forall i, j :: 0 <= i < j < |res.value| ==> res.value[i].cells != res.value[j].cells
  {
    var puzzles: seq<Puzzle> := [];
    ghost var loaded: seq<seq<int>> := [];
    var r := 0;
    var puzzle := new Puzzle();
    var i := 0;
    while i < |lines|
      invariant 0 <= i <= |lines|
      invariant fresh(puzzle) && fresh(puzzle.cells)
      invariant forall j :: 0 <= j < |puzzles| ==> fresh(puzzles[j]) && fresh(puzzles[j].cells)
      invariant forall j, l :: 0 <= j < l < |puzzles| ==> puzzles[j].cells != puzzles[l].cells
      invariant puzzle.Valid() && |puzzles| == |loaded|
      invariant forall j :: 0 <= j < |puzzles| ==>
                  puzzles[j].Valid() && puzzles[j].cells != puzzle.cells && puzzles[j].cells[..] == loaded[j]
      invariant Run(Start(), lines) == Run(LoadState(loaded, puzzle.cells[..], r), lines[i..])
    {
      RunOneLine(LoadState(loaded, puzzle.cells[..], r), lines, i);
      var ok, close, next := ReadLine(puzzle, r, lines[i], loaded);
      if !ok {
        return Err(IllegalArgument);
      }
      r := next;
      if close {
        loaded := loaded + [puzzle.cells[..]];
        puzzles := puzzles + [puzzle];
        puzzle := new Puzzle();
      }
      i := i + 1;
    }
    var empty := puzzle.IsEmpty();
    if !empty {
      loaded := loaded + [puzzle.cells[..]];
      puzzles := puzzles + [puzzle];
    }
    return Ok(puzzles);
  }

  /** One line of the loader's loop: a row line fills row r, a separator
      closes the board, an 81-character line fills the whole board and
      closes it, any other line is skipped.  `close` says the board is to
      be appended and replaced by a new one; `next` is the row the next
      row line goes to. */
  method ReadLine(puzzle: Puzzle, r: int, line: string, ghost loaded: seq<seq<int>>)
      returns (ok: bool, close: bool, next: int)
    requires puzzle.Valid()
    modifies puzzle.cells
    ensures puzzle.Valid()
    ensures ok <==> Step(LoadState(loaded, old(puzzle.cells[..]), r), line).Ok?
    ensures ok ==> Step(LoadState(loaded, old(puzzle.cells[..]), r), line).value ==
                     if close then LoadState(loaded + [puzzle.cells[..]], Blank(), next)
                     else LoadState(loaded, puzzle.cells[..], next)
  {
    ok, close, next := true, false, r;
    if 7 < |line| <= 9 {
      if |line| > 0 && line[0] != '=' {
        ok := FillRowOf(puzzle, r, line);
        next := r + 1;
      } else {
        close, next := true, 0;
      }
    } else if |line| == 81 {
      ok := FillGridOf(puzzle, line);
      close, next := true, 9;
    }
  }

  /** Writes a row line into row r of the board, column by column; fails
      at the first character the board refuses. */
  method FillRowOf(puzzle: Puzzle, r: int, line: string) returns (ok: bool)
    requires puzzle.Valid()
    modifies puzzle.cells
    ensures puzzle.Valid()
    ensures ok <==> FillRow(old(puzzle.cells[..]), r, line, 0).Ok?
    ensures ok ==> puzzle.cells[..] == FillRow(old(puzzle.cells[..]), r, line, 0).value
  {
    ghost var g0 := puzzle.cells[..];
    var c := 0;
    while c < |line|
      invariant 0 <= c <= |line|
      invariant puzzle.Valid()
      invariant FillRow(g0, r, line, 0) == FillRow(puzzle.cells[..], r, line, c)
    {
      var written := puzzle.SetValue(r, c, Digit(line[c]));
      if written.Fail? {
        return false;
      }
      c := c + 1;
    }
    return true;
  }

  /** Writes an 81-character line into the board, row by row, skipping
      '.'; fails at the first character the board refuses. */
  method FillGridOf(puzzle: Puzzle, line: string) returns (ok: bool)
    requires puzzle.Valid() && |line| == 81
    modifies puzzle.cells
    ensures puzzle.Valid()
    ensures ok <==> FillGrid(old(puzzle.cells[..]), line, 0).Ok?
    ensures ok ==> puzzle.cells[..] == FillGrid(old(puzzle.cells[..]), line, 0).value
  {
    ghost var g0 := puzzle.cells[..];
    var r := 0;
    while r < 9
      invariant 0 <= r <= 9
      invariant puzzle.Valid()
      invariant FillGrid(g0, line, 0) == FillGrid(puzzle.cells[..], line, Index(r, 0))
    {
      var rowOk := FillGridRow(puzzle, line, r);
      if !rowOk {
        return false;
      }
      r := r + 1;
    }
    return true;
  }

  /** The inner loop of FillGridOf: writes the nine characters of row r of
      an 81-character line, skipping '.'; fails at the first character the
      board refuses. */
  method FillGridRow(puzzle: Puzzle, line: string, r: int) returns (ok: bool)
    requires puzzle.Valid() && |line| == 81 && 0 <= r < 9
    modifies puzzle.cells
    ensures puzzle.Valid()
    ensures ok ==> FillGrid(old(puzzle.cells[..]), line, Index(r, 0)) == FillGrid(puzzle.cells[..], line, Index(r + 1, 0))
    ensures !ok ==> FillGrid(old(puzzle.cells[..]), line, Index(r, 0)).Err?
  {
    ghost var g0 := puzzle.cells[..];
    var c := 0;
    while c < 9
      invariant 0 <= c <= 9
      invariant puzzle.Valid()
      invariant FillGrid(g0, line, Index(r, 0)) == FillGrid(puzzle.cells[..], line, Index(r, c))
    {
      var value := line[r * 9 + c];
      DivMod9(Index(r, c), r, c);
      if value != '.' {
        var written := puzzle.SetValue(r, c, Digit(value));
        if written.Fail? {
          return false;
        }
      }
      c := c + 1;
    }
    return true;
  }

  // ---------------------------------------------------------------------
  // The validator.
  // ---------------------------------------------------------------------

  /** The kind of unit a violation was found in; a block carries its number. */
  datatype Unit = RowUnit | ColumnUnit | BlockUnit(block: int)

  /** `IllegalStateException` raised by the validator: the value found at
      (row, col) is outside 1..9, or was already seen in the unit. */
  datatype Violation =
    | OutOfRange(unit: Unit, value: int, row: int, col: int)
    | AlreadyUsed(unit: Unit, value: int, row: int, col: int)

  /** The values of a sequence, as a set. */
  function Elems(s: seq<int>): set<int>
  {
    set x | x in s
  }

  /** Rows 0..n-1 hold distinct digits. */
  ghost predicate RowsBefore(g: seq<int>, n: int)
    requires |g| == 81 && n <= 9
  {
    forall r :: 0 <= r < n ==> DistinctDigits(RowOf(g, r))
  }

  /** Columns 0..n-1 hold distinct digits. */
  ghost predicate ColsBefore(g: seq<int>, n: int)
    requires |g| == 81 && n <= 9
  {
    forall c :: 0 <= c < n ==> DistinctDigits(ColOf(g, c))
  }

  /** Position i is the first where the unit s stops holding distinct digits,
      and e reports it: its value, and whether it is out of range or a
      repeat of an earlier value of s. */
  ghost predicate FirstBreak(s: seq<int>, i: int, e: Violation)
  {
    && 0 <= i < |s|
    && DistinctDigits(s[..i])
    && !DistinctDigits(s[..i + 1])
    && e.value == s[i]
    && (e.OutOfRange? <==> !(1 <= s[i] <= 9))
    && (e.AlreadyUsed? ==> s[i] in s[..i])
  }

  /** The offset of (row, col) within block b, when it lies in that block. */
  function BlockOffset(b: int, row: int, col: int): int
  {
    (row - b / 3 * 3) * 3 + (col - b % 3 * 3)
  }

  /** What a violation says about board g: the value found at its cell, the
      units of its kind visited before it all distinct, and its cell the
      first break in its own unit. */
  ghost predicate Explains(g: seq<int>, e: Violation)
    requires |g| == 81
  {
    && 0 <= e.row < 9 && 0 <= e.col < 9
    && e.value == g[Index(e.row, e.col)]
    && match e.unit
       case RowUnit => RowsBefore(g, e.row) && FirstBreak(RowOf(g, e.row), e.col, e)
       case ColumnUnit => ColsBefore(g, e.col) && FirstBreak(ColOf(g, e.col), e.row, e)
       case BlockUnit(b) =>
         && 0 <= b < 8
         && b / 3 * 3 <= e.row < b / 3 * 3 + 3 && b % 3 * 3 <= e.col < b % 3 * 3 + 3
         && BlocksDistinct(g, b)
         && FirstBreak(BlockOf(g, b), BlockOffset(b, e.row, e.col), e)
  }

  /** The phases before the one that found e (rows, then columns, then
      blocks) all passed. */
  ghost predicate EarlierPhasesPass(g: seq<int>, u: Unit)
    requires |g| == 81
  {
    match u
    case RowUnit => true
    case ColumnUnit => RowsDistinct(g)
    case BlockUnit(_) => RowsDistinct(g) && ColsDistinct(g)
  }

  /** One step of the scan of a unit: with the first c values distinct and
      recorded in seen, the next value keeps them distinct exactly when it is
      a digit not seen yet; a break in the prefix is a break in the unit. */
  lemma UnitStep(s: seq<int>, c: int, seen: set<int>)
    requires 0 <= c < |s| && DistinctDigits(s[..c]) && seen == Elems(s[..c])
    ensures DistinctDigits(s[..c + 1]) <==> 1 <= s[c] <= 9 && s[c] !in seen
    ensures s[c] in seen <==> s[c] in s[..c]
    ensures seen + {s[c]} == Elems(s[..c + 1])
    ensures !DistinctDigits(s[..c + 1]) ==> !DistinctDigits(s)
  {
    assert s[..c + 1] == s[..c] + [s[c]];
    if s[c] in seen {
      var j :| 0 <= j < c && s[j] == s[c];
      assert s[..c + 1][j] == s[..c + 1][c];
    }
  }

  /** The row phase: every row, left to right, top to bottom. */
  method CheckRows(p: Puzzle) returns (res: Outcome<Violation>)
    requires p.Valid()
    ensures res.Pass? <==> RowsDistinct(p.cells[..])
    ensures res.Fail? ==> res.error.unit == RowUnit && Explains(p.cells[..], res.error)
  {
    ghost var g := p.cells[..];
    var r := 0;
    while r < 9
      invariant 0 <= r <= 9 && RowsBefore(g, r)
    {
      ghost var s := RowOf(g, r);
      var seen: set<int> := {};
      var c := 0;
      while c < 9
        invariant 0 <= c <= 9 && DistinctDigits(s[..c]) && seen == Elems(s[..c])
      {
        var value := p.GetValue(r, c).value;
        assert value == s[c];
        UnitStep(s, c, seen);
        if value < 1 || value > 9 {
          res := Fail(OutOfRange(RowUnit, value, r, c));
          assert FirstBreak(s, c, res.error);
          return;
        } else if value in seen {
          res := Fail(AlreadyUsed(RowUnit, value, r, c));
          assert FirstBreak(s, c, res.error);
          return;
        }
        seen := seen + {value};
        c := c + 1;
      }
      assert s[..9] == s;
      r := r + 1;
    }
    return Pass;
  }

  /** The column phase: every column, top to bottom, left to right. */
  method CheckColumns(p: Puzzle) returns (res: Outcome<Violation>)
    requires p.Valid()
    ensures res.Pass? <==> ColsDistinct(p.cells[..])
    ensures res.Fail? ==> res.error.unit == ColumnUnit && Explains(p.cells[..], res.error)
  {
    ghost var g := p.cells[..];
    var c := 0;
    while c < 9
      invariant 0 <= c <= 9 && ColsBefore(g, c)
    {
      ghost var s := ColOf(g, c);
      var seen: set<int> := {};
      var r := 0;
      while r < 9
        invariant 0 <= r <= 9 && DistinctDigits(s[..r]) && seen == Elems(s[..r])
      {
        var value := p.GetValue(r, c).value;
        assert value == s[r];
        UnitStep(s, r, seen);
        if value < 1 || value > 9 {
          res := Fail(OutOfRange(ColumnUnit, value, r, c));
          assert FirstBreak(s, r, res.error);
          return;
        } else if value in seen {
          res := Fail(AlreadyUsed(ColumnUnit, value, r, c));
          assert FirstBreak(s, r, res.error);
          return;
        }
        seen := seen + {value};
        r := r + 1;
      }
      assert s[..9] == s;
      c := c + 1;
    }
    return Pass;
  }

  /** The block phase: blocks 0..7 in turn; block 8 is never visited. */
  method CheckBlocks(p: Puzzle) returns (res: Outcome<Violation>)
    requires p.Valid()
    ensures res.Pass? <==> BlocksDistinct(p.cells[..], 8)
    ensures res.Fail? ==> res.error.unit.BlockUnit? && Explains(p.cells[..], res.error)
  {
    ghost var g := p.cells[..];
    var b := 0;
    while b < 8
      invariant 0 <= b <= 8 && BlocksDistinct(g, b)
    {
      res := CheckBlock(p, b);
      if res.Fail? {
        BlockBreak(g, b, res.error);
        return;
      }
      b := b + 1;
    }
    return Pass;
  }

  /** One block of the block phase: its rows top to bottom, each left to
      right, failing at the first value outside 1..9 or already seen. */
  method CheckBlock(p: Puzzle, b: int) returns (res: Outcome<Violation>)
    requires p.Valid() && 0 <= b < 9
    ensures res.Pass? <==> DistinctDigits(BlockOf(p.cells[..], b))
    ensures res.Fail? ==> && res.error.unit == BlockUnit(b)
                          && b / 3 * 3 <= res.error.row < b / 3 * 3 + 3
                          && b % 3 * 3 <= res.error.col < b % 3 * 3 + 3
                          && FirstBreak(BlockOf(p.cells[..], b), BlockOffset(b, res.error.row, res.error.col), res.error)
  {
    ghost var s := BlockOf(p.cells[..], b);
    ghost var k := 0;
    var r0, c0 := b / 3 * 3, b % 3 * 3;
    var seen: set<int> := {};
    var r := r0;
    while r < r0 + 3
      invariant r0 <= r <= r0 + 3 && k == (r - r0) * 3
      invariant DistinctDigits(s[..k]) && seen == Elems(s[..k])
    {
      var c := c0;
      while c < c0 + 3
        invariant c0 <= c <= c0 + 3 && k == (r - r0) * 3 + (c - c0)
        invariant DistinctDigits(s[..k]) && seen == Elems(s[..k])
      {
        var value := p.GetValue(r, c).value;
        assert k == BlockOffset(b, r, c);
        BlockOffsetCell(p.cells[..], b, r, c);
        assert value == s[k];
        UnitStep(s, k, seen);
        if value < 1 || value > 9 {
          res := Fail(OutOfRange(BlockUnit(b), value, r, c));
          assert FirstBreak(s, k, res.error);
          return;
        } else if value in seen {
          res := Fail(AlreadyUsed(BlockUnit(b), value, r, c));
          assert FirstBreak(s, k, res.error);
          return;
        }
        seen := seen + {value};
        c := c + 1;
        k := k + 1;
      }
      r := r + 1;
    }
    assert s[..9] == s;
    return Pass;
  }

  /** A break found in block b, after blocks 0..b-1 passed, explains the
      failure. */
  lemma BlockBreak(g: seq<int>, b: int, e: Violation)
    requires |g| == 81 && 0 <= b < 8 && e.unit == BlockUnit(b) && BlocksDistinct(g, b)
    requires b / 3 * 3 <= e.row < b / 3 * 3 + 3 && b % 3 * 3 <= e.col < b % 3 * 3 + 3
    requires FirstBreak(BlockOf(g, b), BlockOffset(b, e.row, e.col), e)
    ensures Explains(g, e)
  {
    BlockOffsetCell(g, b, e.row, e.col);
    assert e.value == g[Index(e.row, e.col)];
  }

  /** The cell at (row, col) of block b is entry BlockOffset(b, row, col)
      of the block's sequence. */
  lemma BlockOffsetCell(g: seq<int>, b: int, row: int, col: int)
    requires |g| == 81 && 0 <= b < 9
    requires b / 3 * 3 <= row < b / 3 * 3 + 3 && b % 3 * 3 <= col < b % 3 * 3 + 3
    ensures 0 <= BlockOffset(b, row, col) < 9
    ensures BlockOf(g, b)[BlockOffset(b, row, col)] == g[Index(row, col)]
  {
    var k := BlockOffset(b, row, col);
    DivMod3(k, row - b / 3 * 3, col - b % 3 * 3);
    assert BlockCell(b, k) == Index(row, col);
  }

  /** Validates a solved board: rows, then columns, then blocks 0..7, failing
      at the first value outside 1..9 or already seen in its unit.  Passing
      is exactly being a valid Sudoku; a failure names the first break. */
  method CheckPuzzle(p: Puzzle) returns (res: Outcome<Violation>)
    requires p.Valid()
    ensures res.Pass? <==> Solved(p.cells[..])
    ensures res.Fail? ==> Explains(p.cells[..], res.error) && EarlierPhasesPass(p.cells[..], res.error.unit)
  {
    EightBlocksSuffice(p.cells[..]);
    res := CheckRows(p);
    if res.Fail? {
      return;
    }
    res := CheckColumns(p);
    if res.Fail? {
      return;
    }
    res := CheckBlocks(p);
  }
}
