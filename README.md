# Sudoku: board, backtracking solver, loader and validator

A Dafny model of the core of a small Java Sudoku solver.

- **Board (`Puzzle`).** Models the 9x9 board: 81 integer cells addressed as
  `row * 9 + col`. Reads and writes are bounds-checked. Every cell holds
  0 (empty) or a digit 1..9.
- **Solver (`Solver`).** Models the backtracking engine. For every row,
  column and 3x3 block it keeps the set of digits in use; digit `d` is
  stored as `d - 1`, the bit the Java `BitSet` uses. It also keeps a log of
  the moves it has placed. The search runs depth first:
  1. find the next empty cell in row-major order;
  2. try the digits free there in ascending order, recursing after each;
  3. take back a digit whose recursion fails;
  4. empty the cell again when no digit succeeds.
- **Loader and validator (`Sudoku`).** `loadPuzzles` turns text lines into
  boards. It reads two formats:
  - rows of 8 or 9 digit characters, closed by a line starting with `=`;
  - single 81-character lines with `.` for an empty cell.

  `checkPuzzle` checks a solved board in three phases. It checks every row,
  then every column, then blocks 0..7.

The modules follow the Java classes:

- `Wrappers`: `Result` and `Outcome` types that carry the exceptions as
  values.
- `Grid`: the vocabulary shared by the other modules.
- `Board`: class `Puzzle`, over an `array<int>`.
- `Engine`: class `Solver` over three `array<set<int>>` mask families and
  a `seq<Move>` log, plus the `Move` record.
- `Sudoku`: the loader and the validator.

The loader is specified by a pure function of the lines (`Load`, built from
`Step` and `Run`). The imperative `LoadPuzzles` is proved equal to it. The
properties of the line formats are proved about `Load`.

The main results:

- **Mask invariant.** The solver's masks always hold exactly the digits in
  use on the board. The constructor establishes this, and every call of the
  search keeps it.
- **Exact restoration.** When the search fails, the board, the masks and the
  log are exactly as they were before the call.
- **Givens untouched.** A cell that held a digit is never changed.
- **Soundness.** A successful search completes the board. When the givens
  had no repeated digit, the result is a valid Sudoku: every row, column and
  block is a permutation of 1..9.
- **Move log.** On success the log gains exactly one move per cell that was
  empty, in row-major order, each carrying the cell's final digit. An
  already-full board succeeds with no move.
- **Validator.** The validator passes exactly the valid Sudokus, although it
  never looks at block 8. Rows 6..8 and blocks 6 and 7 force block 8
  (`Grid.EightBlocksSuffice`).
- **Loader round trips.** Any list of boards written in either format
  loads back unchanged and in order:
  - as 81-character lines (`Sudoku.LoadLines81`);
  - as nine row lines plus a separator per board (`Sudoku.LoadRowBoards`).
- **Loader errors.** A line fails exactly in these cases (`Sudoku.Step`):
  - a row line when no row is left for it, or when one of its characters is
    outside '0'..'9';
  - an 81-character line when one of its characters is neither '.' nor a
    digit character.

## Model

| member | source | states |
|---|---|---|
| Board.Puzzle.constructor | src/mpigott/sudoku/Puzzle.java:11-16 | a new board is a fresh 81-cell array with every cell 0 |
| Board.Puzzle.GetValue | src/mpigott/sudoku/Puzzle.java:18-23 | succeeds exactly when row and col lie in 0..8; the value read is then in 0..9; otherwise IllegalArgument |
| Board.Puzzle.SetValue | src/mpigott/sudoku/Puzzle.java:25-30 | passes exactly when row, col in 0..8 and value in 0..9; then only cell (row, col) changes and reads back as value; on failure the board is unchanged; the 0..9 cell invariant is kept |
| Board.Puzzle.IsEmpty | src/mpigott/sudoku/Puzzle.java:32-40 | true exactly when no cell holds a value above 0 |
| Board.IndexInjective | src/mpigott/sudoku/Puzzle.java:29 | `row * 9 + col` maps distinct on-board positions to distinct indices in 0..80 |
| Board.ReadAfterWrite | src/mpigott/sudoku/Puzzle.java:18-30 | after a write, the written cell reads the new value and every other cell its old one |
| Grid.Blank | src/mpigott/sudoku/Puzzle.java:12-15 | the board of 81 zeros is empty and within 0..9 |
| Engine.Solver.constructor | src/mpigott/sudoku/Solver.java:40-66 | afterwards each row, column and block mask holds exactly `d - 1` for every digit d in that unit; the log is empty; the board is not changed |
| Engine.ScanStart | src/mpigott/sudoku/Solver.java:43-50 | before the scan every mask is empty |
| Engine.ScanStep | src/mpigott/sudoku/Solver.java:57-63 | scanning cell (r, c) adds its digit to exactly the masks of row r, column c and block `BlockNumber(r, c)` |
| Engine.ScanComplete | src/mpigott/sudoku/Solver.java:56-65 | after all 81 cells the scanned masks are the masks of the board |
| Engine.Solver.BlockNumber | src/mpigott/sudoku/Solver.java:80-82 | an on-board cell's block number lies in 0..8 |
| Engine.CellUnits | src/mpigott/sudoku/Solver.java:80-82 | `BlockNumber(r, c)` is the box of the cell as defined independently from band and stack; the cell lies in exactly one row, column and box |
| Engine.BlockNumberShared | src/mpigott/sudoku/Solver.java:80-82 | two cells get the same block number exactly when they lie in the same band of rows and the same stack of columns |
| Engine.Solver.NextCandidate | src/mpigott/sudoku/Solver.java:152-168 | fails exactly when (row, col) is off the board; otherwise returns the smallest digit above prev absent from the row, column and block masks, or 0 when there is none |
| Engine.Solver.Solve | src/mpigott/sudoku/Solver.java:76-78 | keeps the mask invariant; success means a complete board, and a solved Sudoku when the start had no repeated digit; failure restores board, masks and log exactly; givens never change; on success the log gains the moves `MovesFrom(old board, new board, 0)`; a full board gives true with no change |
| Engine.Solver.SolveFrom | src/mpigott/sudoku/Solver.java:84-150 | the same contract from (row, col), for a board filled before that cell; when every cell from there on is filled the result is true and nothing changes (the `return false` at line 109 is unreachable) |
| Engine.Solver.FindEmpty | src/mpigott/sudoku/Solver.java:85-102 | returns the first empty cell at or after (row, col) in row-major order, or row 9 when every cell from there on is filled |
| Engine.Solver.TryDigits | src/mpigott/sudoku/Solver.java:113-149 | at the first empty cell, either completes the board with the log extended by the moves from that cell, or fails with board, masks and log exactly as before |
| Engine.Solver.Attempt | src/mpigott/sudoku/Solver.java:116-140 | one pass of the candidate loop; on failure the masks and log are back to their state before the pass and only the cell still holds d; on success the board is complete and the log is extended by the moves from the cell on |
| Engine.Solver.Place | src/mpigott/sudoku/Solver.java:119-125 | logs the move, records the digit in the cell's three masks and writes it; the mask invariant then holds for the new board; a consistent board stays consistent |
| Engine.Solver.Mark | src/mpigott/sudoku/Solver.java:121-123 | adds `v - 1` to exactly the masks of row r, column c and block `BlockNumber(r, c)` |
| Engine.Solver.Retract | src/mpigott/sudoku/Solver.java:130-136 | after a placement, drops the last move and clears `v - 1` from the three masks, giving back exactly the masks and log from before the placement |
| Engine.PlaceKeepsMasks | src/mpigott/sudoku/Solver.java:119-125 | writing digit v into an empty cell changes the board's masks exactly by adding `v - 1` to that cell's row, column and block |
| Engine.Unrecord | src/mpigott/sudoku/Solver.java:134-136 | clearing a digit that was absent before it was recorded gives back the original mask |
| Engine.MovesFromCells | src/mpigott/sudoku/Solver.java:119 | every logged move is on the board, at a cell that was empty, and carries that cell's final digit |
| Engine.MovesFromOrdered | src/mpigott/sudoku/Solver.java:89-102 | the logged moves are in strictly increasing row-major order |
| Engine.MovesFromCovers | src/mpigott/sudoku/Solver.java:128-139 | every cell that was empty gets a move |
| Engine.MovesFromSkip | src/mpigott/sudoku/Solver.java:89-102 | cells that held a digit contribute no move |
| Engine.MovesFromAgree | src/mpigott/sudoku/Solver.java:128 | the moves from a position on depend only on the cells from there on |
| Engine.MovesAfterPlace | src/mpigott/sudoku/Solver.java:119-128 | the move at the first empty cell, followed by the recursion's moves, are all the moves from the starting position |
| Grid.PlaceKeepsConsistent | src/mpigott/sudoku/Solver.java:116-125 | writing a digit not in use in the cell's row, column and box keeps every unit free of repeated digits |
| Grid.ZeroCellsAfterPlace | src/mpigott/sudoku/Solver.java:125-128 | a placement leaves one empty cell fewer, the measure by which the recursion terminates |
| Grid.ConsistentCompleteIsSolved | src/mpigott/sudoku/Solver.java:105-111 | a complete board with no repeated digit in any unit is a valid Sudoku |
| Grid.SolvedIsConsistentComplete | src/mpigott/sudoku/Sudoku.java:150-196 | a valid Sudoku is complete and repeats no digit in any unit |
| Grid.SolvedIffConsistentComplete | src/mpigott/sudoku/Sudoku.java:150-196 | valid Sudoku exactly when complete and free of repeats |
| Grid.SameUnitDistinct | src/mpigott/sudoku/Sudoku.java:150-196 | two different cells of one unit of a valid Sudoku differ |
| Grid.DistinctDigitsIsPermutation | src/mpigott/sudoku/Sudoku.java:154-163 | nine values pass one unit's check exactly when they are a permutation of 1..9 |
| Grid.DigitTotalBound | src/mpigott/sudoku/Sudoku.java:157 | a sequence holds at most its length in digits 1..9, and exactly its length when every entry is a digit |
| Grid.LastBlockImplied | src/mpigott/sudoku/Sudoku.java:182 | if rows 6..8 and blocks 6 and 7 hold distinct digits, so does block 8 |
| Grid.EightBlocksSuffice | src/mpigott/sudoku/Sudoku.java:182-195 | all rows, all columns and blocks 0..7 distinct exactly when the board is a valid Sudoku |
| Sudoku.LoadPuzzles | src/mpigott/sudoku/Sudoku.java:98-138 | succeeds exactly when `Load(lines)` does, and then returns that many boards, each valid and holding exactly the corresponding board of `Load(lines)`; every returned board is a newly allocated object with its own cell array, distinct from every other |
| Sudoku.ReadLine | src/mpigott/sudoku/Sudoku.java:106-130 | one pass of the line loop does exactly what `Step` says: fail, or move to the state `Step` gives |
| Sudoku.FillRowOf | src/mpigott/sudoku/Sudoku.java:109-112 | writes the characters of a row line into row r, failing exactly when `FillRow` fails, and leaving the board `FillRow` computes |
| Sudoku.FillGridOf | src/mpigott/sudoku/Sudoku.java:119-127 | writes an 81-character line into the board, skipping '.', failing exactly when `FillGrid` fails, and leaving the board `FillGrid` computes |
| Sudoku.FillRow | src/mpigott/sudoku/Sudoku.java:109-111 | writing a row line from column c on succeeds exactly when every remaining character is in '0'..'9' and, if any remain, the row is in 0..8 and the line has at most 9 characters |
| Sudoku.FillGrid | src/mpigott/sudoku/Sudoku.java:120-127 | writing an 81-character line from position n on succeeds exactly when every remaining character is '.' or in '0'..'9' |
| Sudoku.Step | src/mpigott/sudoku/Sudoku.java:106-130 | one line fails exactly when it is a row line (8 or 9 characters, not starting with '=') whose row is outside 0..8 or which holds a character outside '0'..'9', or an 81-character line holding a character that is neither '.' nor in '0'..'9'; on success the boards already closed are kept as a prefix and at most one is added |
| Sudoku.Run | src/mpigott/sudoku/Sudoku.java:105-131 | on success the boards closed before the lines are kept, unchanged, as a prefix of the boards closed after them |
| Sudoku.Load | src/mpigott/sudoku/Sudoku.java:98-138 | every loaded board has 81 cells, each 0 or a digit 1..9 |
| Sudoku.FillGridRow | src/mpigott/sudoku/Sudoku.java:121-126 | one row of the 81-character branch: either fails, in which case `FillGrid` from the row's start fails, or leaves a board from which `FillGrid` continues at the next row with the same result |
| Sudoku.SetCell | src/mpigott/sudoku/Puzzle.java:25-30 | the loader's write succeeds exactly for an on-board cell and a value in 0..9 |
| Sudoku.RunOneLine | src/mpigott/sudoku/Sudoku.java:105 | the lines are processed one at a time, in order |
| Sudoku.RunAppend | src/mpigott/sudoku/Sudoku.java:105 | running two blocks of lines runs the second from the state the first leaves |
| Sudoku.IgnoredLine | src/mpigott/sudoku/Sudoku.java:106 | a line whose length is not 8, 9 or 81 changes nothing |
| Sudoku.SeparatorClosesBoard | src/mpigott/sudoku/Sudoku.java:113-117 | a line starting with '=' appends the current board, even an empty one, starts a blank one and resets the row to 0 |
| Sudoku.StepLine81 | src/mpigott/sudoku/Sudoku.java:118-130 | on a blank board, the line written for g appends exactly g and leaves the row counter at 9 |
| Sudoku.Line81RoundTrip | src/mpigott/sudoku/Sudoku.java:118-130 | the 81-character line written for a board loads back as exactly that board |
| Sudoku.LoadLines81 | src/mpigott/sudoku/Sudoku.java:98-138 | any list of boards written as 81-character lines loads back as the same list, in order |
| Sudoku.RowLinesRoundTrip | src/mpigott/sudoku/Sudoku.java:106-117 | nine row lines and a separator load back as exactly the board, even an empty one |
| Sudoku.RunRowBoard | src/mpigott/sudoku/Sudoku.java:106-117 | nine row lines and a separator, read from a blank board at row 0, append exactly that board and return to a blank board at row 0 |
| Sudoku.LoadRowBoards | src/mpigott/sudoku/Sudoku.java:98-138 | any list of boards written in the row format, each closed by a separator, loads back as the same list, in order, empty boards included |
| Sudoku.RowLinesTrailing | src/mpigott/sudoku/Sudoku.java:133-135 | without a separator, nine row lines load as the board when it holds a digit and as nothing when it is empty |
| Sudoku.DotInRowFails | src/mpigott/sudoku/Sudoku.java:109-111 | a '.' at any position of a row line gives the value -2, which the board refuses; after any lines that load, such a line makes the whole input fail, whatever follows it |
| Sudoku.TenthRowFails | src/mpigott/sudoku/Sudoku.java:109-112 | a tenth row line before a separator targets row 9, so loading fails |
| Sudoku.RowAfterLine81Fails | src/mpigott/sudoku/Sudoku.java:119-130 | the 81-character branch leaves the row counter at 9, so a row line that follows it without a separator fails |
| Sudoku.CheckPuzzle | src/mpigott/sudoku/Sudoku.java:150-196 | passes exactly when the board is a valid Sudoku; a failure reports the value at its cell, out of range exactly when it is not in 1..9, and a repeat of an earlier value of its unit otherwise; its unit is the first to break in visiting order, and the earlier phases all passed |
| Sudoku.CheckRows | src/mpigott/sudoku/Sudoku.java:153-165 | passes exactly when every row holds distinct digits; otherwise reports the first break, in the first row that breaks |
| Sudoku.CheckColumns | src/mpigott/sudoku/Sudoku.java:167-179 | passes exactly when every column holds distinct digits; otherwise reports the first break, in the first column that breaks |
| Sudoku.CheckBlocks | src/mpigott/sudoku/Sudoku.java:181-195 | passes exactly when blocks 0..7 hold distinct digits; otherwise reports the first break, in the first block that breaks |
| Sudoku.CheckBlock | src/mpigott/sudoku/Sudoku.java:183-194 | scanning one block row by row passes exactly when it holds distinct digits; otherwise reports the cell of the first break in that order |
| Sudoku.UnitStep | src/mpigott/sudoku/Sudoku.java:156-162 | with the values seen so far distinct, the next value keeps them distinct exactly when it is a digit not yet seen |
| Sudoku.BlockBreak | src/mpigott/sudoku/Sudoku.java:185-190 | the cell reported in block b holds the reported value |

## Left out

- The I/O around the loader is not modelled:
  - `main`, `loadPuzzlesFromFile` and `loadPuzzlesFromUrl` (Sudoku.java:25-37, 65-96) read files and URLs and close readers;
  - `LoadPuzzles` takes the lines already read, as a `seq<string>`.
- `solvePuzzles` and `printPuzzle` (Sudoku.java:39-63, 140-148) are console output and counting glue around `Solve` and `CheckPuzzle`, and are not modelled.
- Exceptions become values:
  - `IllegalArgumentException` becomes `Err(IllegalArgument)` or `Fail(IllegalArgument)`;
  - `IllegalStateException` becomes `Fail(Violation)`;
  - the message text is not modelled, but the value, row, column, unit and block number are.
- Java's `BitSet`, `ArrayList` and `HashSet` are modelled as follows:
  - a `BitSet` becomes `set<int>`;
  - the move list becomes `seq<Move>`;
  - the validator's set becomes a local `set<int>`, cleared by starting a new one for each unit.
- Engine.Solver.NextCandidate: requires `prev >= 0`. A negative `prev` would make `BitSet.get` throw `IndexOutOfBoundsException`, and the only caller passes 0 or an earlier candidate.
  - Integers here are unbounded, so Java's 32-bit wrap-around is not modelled.
  - For `prev = Integer.MAX_VALUE`, Java's `prev + 1` wraps to `Integer.MIN_VALUE`, and `getNextCandidate` returns `Integer.MIN_VALUE`. The model returns 0.
  - The only caller passes 0..9, where the two agree.
- Sudoku.Step: line lengths and characters are Dafny `char`s, which are Unicode scalar values. Java's `length()` and `charAt` count UTF-16 code units.
  - A line containing a character outside the Basic Multilingual Plane therefore has a different length in the model.
  - Example: "=abcde" followed by one emoji has length 8 in Java, where it is a separator. In the model it has length 7 and is skipped.
  - The model agrees with Java on every line made of characters from the Basic Multilingual Plane.
- Engine.Solver.BlockNumber: takes non-negative arguments. Java's division truncates and Dafny's is Euclidean, and the two agree only there. The method is private and only called with on-board cells.
- `getSolvedPuzzle` and `getMovesToSolve` (Solver.java:68-74) are plain getters, modelled as `Engine.Solver.SolvedPuzzle` and `Engine.Solver.MovesToSolve`. They carry no contract of their own.
- `Move` accessors: Java's `getRow`/`getCol`/`getValue` are the datatype's fields `row`/`col`/`value`.
- Some loop bodies that the Java code writes inline are separate methods here. Each is proved against the same specification as the inline code:
  - in the solver: `FindEmpty`, `TryDigits`, `Attempt`, `Place`, `Mark` and `Retract`;
  - in the loader: `ReadLine`, `FillRowOf`, `FillGridOf` and `FillGridRow`;
  - in the validator: `CheckRows`, `CheckColumns`, `CheckBlocks` and `CheckBlock`.
- Completeness of the search is not proved: a `false` result is not shown to mean that no completion exists. Only soundness and exact restoration are proved.
- Running time and search order beyond the move log are not modelled.
