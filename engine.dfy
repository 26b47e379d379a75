/** The backtracking solver.  It keeps, for every row, column and 3x3
    block, the set of digits already in use there (a digit d is recorded as
    d - 1, the bit the original bit-set uses), a log of the digits it has
    placed, and searches depth first: find the next empty cell in row-major
    order, try the digits that are free there in ascending order, recurse,
    and undo a digit whose recursion fails. */
module Engine {
  import opened Wrappers
  import opened Grid
  import opened Board

  /** One digit placed by the search. */
  datatype Move = Move(row: int, col: int, value: int)

  /** Flat position of the cell a move writes. */
  function Pos(m: Move): int
  {
    Index(m.row, m.col)
  }

  /** The moves that turn `before` into `after`, from position `from` on:
      one per cell empty in `before`, in row-major order, each carrying the
      value the cell holds in `after`. */
  ghost function MovesFrom(before: seq<int>, after: seq<int>, from: nat): seq<Move>
    requires |before| == 81 && |after| == 81 && from <= 81
    decreases 81 - from
  {
    if from == 81 then []
    else if before[from] == 0 then [Move(from / 9, from % 9, after[from])] + MovesFrom(before, after, from + 1)
    else MovesFrom(before, after, from + 1)
  }

  /** For each row, the digits (as d - 1) in use in it on board g. */
  ghost function RowMasks(g: seq<int>): seq<set<int>>
    requires |g| == 81
  {
    seq(9, u => Used(g, RowCells(u)))
  }

  /** For each column, the digits (as d - 1) in use in it on board g. */
  ghost function ColMasks(g: seq<int>): seq<set<int>>
    requires |g| == 81
  {
    seq(9, u => Used(g, ColCells(u)))
  }

  /** For each block, the digits (as d - 1) in use in it on board g. */
  ghost function BoxMasks(g: seq<int>): seq<set<int>>
    requires |g| == 81
  {
    seq(9, u => Used(g, BoxCells(u)))
  }

  /** For each row, the digits (as d - 1) found in it before flat position n. */
  ghost function RowMasksBefore(g: seq<int>, n: int): seq<set<int>>
    requires |g| == 81
  {
    seq(9, u => Used(g, Before(RowCells(u), n)))
  }

  /** For each column, the digits (as d - 1) found in it before flat position n. */
  ghost function ColMasksBefore(g: seq<int>, n: int): seq<set<int>>
    requires |g| == 81
  {
    seq(9, u => Used(g, Before(ColCells(u), n)))
  }

  /** For each block, the digits (as d - 1) found in it before flat position n. */
  ghost function BoxMasksBefore(g: seq<int>, n: int): seq<set<int>>
    requires |g| == 81
  {
    seq(9, u => Used(g, Before(BoxCells(u), n)))
  }

  /** Masks after recording value v in unit u: v - 1 is added when v is a digit. */
  ghost function Record(masks: seq<set<int>>, u: int, v: int): seq<set<int>>
    requires 0 <= u < |masks|
  {
    if v > 0 then masks[u := masks[u] + {v - 1}] else masks
  }

  class Solver {
    const puzzle: Puzzle
    const rowUsed: array<set<int>>
    const colUsed: array<set<int>>
    const blkUsed: array<set<int>>
    var moves: seq<Move>

    /** Nine masks per family, in three different arrays. */
    ghost predicate Shaped()
    {
      && rowUsed.Length == 9 && colUsed.Length == 9 && blkUsed.Length == 9
      && rowUsed != colUsed && rowUsed != blkUsed && colUsed != blkUsed
    }

    /** The solver invariant: the board is valid and every mask holds exactly
        the digits in use in its unit. */
    ghost predicate Valid()
      reads puzzle.cells, rowUsed, colUsed, blkUsed
    {
      puzzle.Valid() && MasksFit(puzzle.cells[..])
    }

    /** Every mask holds exactly the digits in use in its unit on board g. */
    ghost predicate MasksFit(g: seq<int>)
      requires |g| == 81
      reads rowUsed, colUsed, blkUsed
    {
      && Shaped()
      && rowUsed[..] == RowMasks(g)
      && colUsed[..] == ColMasks(g)
      && blkUsed[..] == BoxMasks(g)
    }

    /** Builds the masks from the digits already on the board; the log starts empty. */
    constructor (puzzle: Puzzle)
      requires puzzle.Valid()
      ensures Valid() && this.puzzle == puzzle && moves == []
      ensures fresh(rowUsed) && fresh(colUsed) && fresh(blkUsed)
      ensures puzzle.cells[..] == old(puzzle.cells[..])
    {
      this.puzzle := puzzle;
      rowUsed := new set<int>[9](_ => {});
      colUsed := new set<int>[9](_ => {});
      blkUsed := new set<int>[9](_ => {});
      moves := [];
      new;
      ghost var g := puzzle.cells[..];
      ScanStart(g);
      assert rowUsed[..] == RowMasksBefore(g, 0);
      assert colUsed[..] == ColMasksBefore(g, 0);
      assert blkUsed[..] == BoxMasksBefore(g, 0);
      var value := 0;
      var r := 0;
      while r < 9
        modifies rowUsed, colUsed, blkUsed
        invariant 0 <= r <= 9
        invariant puzzle.cells[..] == g
        invariant rowUsed[..] == RowMasksBefore(g, Index(r, 0))
        invariant colUsed[..] == ColMasksBefore(g, Index(r, 0))
        invariant blkUsed[..] == BoxMasksBefore(g, Index(r, 0))
      {
        var c := 0;
        while c < 9
          modifies rowUsed, colUsed, blkUsed
          invariant 0 <= c <= 9
          invariant puzzle.cells[..] == g
          invariant rowUsed[..] == RowMasksBefore(g, Index(r, c))
          invariant colUsed[..] == ColMasksBefore(g, Index(r, c))
          invariant blkUsed[..] == BoxMasksBefore(g, Index(r, c))
        {
          value := puzzle.GetValue(r, c).value;
          ScanStep(g, r, c);
          if value > 0 {
            Mark(r, c, value);
          }
          c := c + 1;
        }
        r := r + 1;
      }
      ScanComplete(g);
    }

    /** The board the solver works on. */
    function SolvedPuzzle(): Puzzle
    {
      puzzle
    }

    /** The digits placed so far, in placement order. */
    function MovesToSolve(): seq<Move>
      reads this
    {
      moves
    }

    /** The block of cell (row, col), numbered row-major 0..8. */
    static function BlockNumber(row: nat, col: nat): (b: nat)
      ensures row < 9 && col < 9 ==> b < 9
    {
      (row / 3) * 3 + col / 3
    }

    /** Digit d is absent from the row, column and block masks of (row, col). */
    ghost predicate Allowed(row: int, col: int, d: int)
      requires Shaped() && 0 <= row < 9 && 0 <= col < 9
      reads rowUsed, colUsed, blkUsed
    {
      d - 1 !in rowUsed[row] && d - 1 !in colUsed[col] && d - 1 !in blkUsed[BlockNumber(row, col)]
    }

    /** d is the smallest digit above prev allowed at (row, col), or 0 when
        there is none. */
    ghost predicate IsNextCandidate(row: int, col: int, prev: int, d: int)
      requires Shaped() && 0 <= row < 9 && 0 <= col < 9
      reads rowUsed, colUsed, blkUsed
    {
      && (d == 0 || (prev < d <= 9 && Allowed(row, col, d)))
      && forall e :: prev < e <= 9 && (d == 0 || e < d) ==> !Allowed(row, col, e)
    }

    /** The next digit above prev that is free at (row, col), or 0; fails
        when (row, col) is off the board. */
    method NextCandidate(row: int, col: int, prev: int) returns (r: Result<int, IllegalArgument>)
      requires Shaped() && 0 <= prev
      ensures r.Ok? <==> 0 <= row <= 8 && 0 <= col <= 8
      ensures r.Ok? ==> IsNextCandidate(row, col, prev, r.value)
    {
      if row < 0 || row > 8 || col < 0 || col > 8 {
        return Err(IllegalArgument);
      }
      var blk := BlockNumber(row, col);
      var candidate := prev + 1;
      while candidate < 10
        invariant prev + 1 <= candidate
        invariant forall e :: prev < e < candidate && e <= 9 ==> !Allowed(row, col, e)
      {
        if candidate - 1 !in rowUsed[row] && candidate - 1 !in colUsed[col] && candidate - 1 !in blkUsed[blk] {
          return Ok(candidate);
        }
        candidate := candidate + 1;
      }
      return Ok(0);
    }

    /** Searches for a completion of the board.  On success every cell is
        filled and the log gained one move per cell that was empty; on
        failure board, masks and log are exactly as before.  Cells that held
        a digit are never changed. */
    method Solve() returns (solved: bool)
      requires Valid()
      modifies puzzle.cells, rowUsed, colUsed, blkUsed, this`moves
      ensures Valid()
      ensures solved ==> IsComplete(puzzle.cells[..])
      ensures !solved ==> && puzzle.cells[..] == old(puzzle.cells[..])
                          && rowUsed[..] == old(rowUsed[..]) && colUsed[..] == old(colUsed[..])
                          && blkUsed[..] == old(blkUsed[..]) && moves == old(moves)
      ensures KeepsGivens(old(puzzle.cells[..]), puzzle.cells[..])
      ensures solved ==> moves == old(moves) + MovesFrom(old(puzzle.cells[..]), puzzle.cells[..], 0)
      ensures old(Consistent(puzzle.cells[..])) ==> Consistent(puzzle.cells[..])
      ensures solved && old(Consistent(puzzle.cells[..])) ==> Solved(puzzle.cells[..])
      ensures old(IsComplete(puzzle.cells[..])) ==> solved && puzzle.cells[..] == old(puzzle.cells[..]) && moves == old(moves)
    {
      solved := SolveFrom(0, 0);
      if solved && Consistent(puzzle.cells[..]) {
        ConsistentCompleteIsSolved(puzzle.cells[..]);
      }
    }

    /** The search from cell (row, col) on; every cell before it is filled. */
    method SolveFrom(row: int, col: int) returns (solved: bool)
      requires Valid()
      requires 0 <= row <= 8 && 0 <= col <= 8
      requires FilledBetween(puzzle.cells[..], 0, Index(row, col))
      modifies puzzle.cells, rowUsed, colUsed, blkUsed, this`moves
      decreases |ZeroCells(puzzle.cells[..])|, 2
      ensures Valid()
      ensures solved ==> IsComplete(puzzle.cells[..])
      ensures !solved ==> && puzzle.cells[..] == old(puzzle.cells[..])
                          && rowUsed[..] == old(rowUsed[..]) && colUsed[..] == old(colUsed[..])
                          && blkUsed[..] == old(blkUsed[..]) && moves == old(moves)
      ensures KeepsGivens(old(puzzle.cells[..]), puzzle.cells[..])
      ensures solved ==> moves == old(moves) + MovesFrom(old(puzzle.cells[..]), puzzle.cells[..], Index(row, col))
      ensures old(Consistent(puzzle.cells[..])) ==> Consistent(puzzle.cells[..])
      ensures old(FilledBetween(puzzle.cells[..], Index(row, col), 81)) ==>
                solved && puzzle.cells[..] == old(puzzle.cells[..]) && moves == old(moves)
    {
      ghost var g0 := puzzle.cells[..];
      var r, c := FindEmpty(row, col);

      // The scan passed every cell: the board is complete.
      if r == 9 {
        solved := puzzle.GetValue(8, 8).value != 0;
        MovesFromSkip(g0, g0, Index(row, col), 81);
        return;
      }

      solved := TryDigits(r, c);
      MovesFromSkip(g0, puzzle.cells[..], Index(row, col), Index(r, c));
    }

    /** Tries the free digits at the empty cell (r, c) in ascending order,
        searching on from (r, c) after each; a digit whose search fails is
        taken back, and when none succeeds the cell is emptied again. */
    method TryDigits(r: int, c: int) returns (solved: bool)
      requires Valid()
      requires 0 <= r < 9 && 0 <= c < 9 && puzzle.cells[Index(r, c)] == 0
      requires FilledBetween(puzzle.cells[..], 0, Index(r, c))
      modifies puzzle.cells, rowUsed, colUsed, blkUsed, this`moves
      decreases |ZeroCells(puzzle.cells[..])|, 1
      ensures Valid()
      ensures solved ==> IsComplete(puzzle.cells[..])
      ensures !solved ==> && puzzle.cells[..] == old(puzzle.cells[..])
                          && rowUsed[..] == old(rowUsed[..]) && colUsed[..] == old(colUsed[..])
                          && blkUsed[..] == old(blkUsed[..]) && moves == old(moves)
      ensures KeepsGivens(old(puzzle.cells[..]), puzzle.cells[..])
      ensures solved ==> moves == old(moves) + MovesFrom(old(puzzle.cells[..]), puzzle.cells[..], Index(r, c))
      ensures old(Consistent(puzzle.cells[..])) ==> Consistent(puzzle.cells[..])
    {
      ghost var g0 := puzzle.cells[..];
      ghost var k := Index(r, c);
      ghost var rows0, cols0, blks0, moves0 := rowUsed[..], colUsed[..], blkUsed[..], moves;
      ghost var placed := 0;
      CellUnits(r, c);
      assert g0[k := 0] == g0;
      var candidate := 0;
      solved := false;
      while true
        invariant 0 <= candidate <= 9 && placed == candidate
        invariant !solved
        invariant puzzle.Valid() && puzzle.cells[..] == g0[k := placed] && puzzle.cells[..][k := 0] == g0
        invariant rowUsed[..] == rows0 && colUsed[..] == cols0 && blkUsed[..] == blks0
        invariant moves == moves0
        decreases 9 - candidate
      {
        var next := NextCandidate(r, c, candidate);
        candidate := next.value;
        if candidate == 0 {
          break;
        }
        solved := Attempt(r, c, candidate);
        placed := candidate;
        if solved {
          break;
        }
      }

      // No digit fits: clear the cell again.
      if !solved {
        var cleared := puzzle.SetValue(r, c, 0);
        assert puzzle.cells[..] == g0;
      }
    }

    /** One pass of the candidate loop at the empty cell (r, c): place digit
        d, search on from (r, c), and take d back from the masks and the log
        when that search fails (the cell keeps d until the next candidate or
        the final reset overwrites it).  The board before the pass is
        `puzzle.cells[..][Index(r, c) := 0]`: the cell may still hold the
        previous candidate. */
    method Attempt(r: int, c: int, d: int) returns (solved: bool)
      requires puzzle.Valid() && 0 <= r < 9 && 0 <= c < 9
      requires MasksFit(puzzle.cells[..][Index(r, c) := 0])
      requires FilledBetween(puzzle.cells[..], 0, Index(r, c))
      requires 1 <= d <= 9 && Allowed(r, c, d)
      modifies puzzle.cells, rowUsed, colUsed, blkUsed, this`moves
      decreases |ZeroCells(puzzle.cells[..][Index(r, c) := 0])|, 0
      ensures puzzle.Valid()
      ensures solved ==> Valid() && IsComplete(puzzle.cells[..])
      ensures !solved ==> && puzzle.cells[..] == old(puzzle.cells[..])[Index(r, c) := d]
                          && rowUsed[..] == old(rowUsed[..]) && colUsed[..] == old(colUsed[..])
                          && blkUsed[..] == old(blkUsed[..]) && moves == old(moves)
      ensures solved ==> KeepsGivens(old(puzzle.cells[..][Index(r, c) := 0]), puzzle.cells[..])
      ensures solved ==> moves == old(moves) + MovesFrom(old(puzzle.cells[..][Index(r, c) := 0]), puzzle.cells[..], Index(r, c))
      ensures solved && old(Consistent(puzzle.cells[..][Index(r, c) := 0])) ==> Consistent(puzzle.cells[..])
    {
      ghost var k := Index(r, c);
      ghost var g0 := puzzle.cells[..][k := 0];
      ghost var rows0, cols0, blks0, moves0 := rowUsed[..], colUsed[..], blkUsed[..], moves;
      CellUnits(r, c);
      Place(r, c, d);
      ghost var g1 := puzzle.cells[..];
      assert g1 == g0[k := d];
      ZeroCellsAfterPlace(g0, k, d);
      solved := SolveFrom(r, c);
      if !solved {
        Retract(r, c, d, rows0, cols0, blks0, moves0);
      } else {
        ghost var gF := puzzle.cells[..];
        MovesAfterPlace(g0, g1, gF, k, k, d);
        AppendAssoc(moves0, Move(r, c, d), MovesFrom(g1, gF, k));
      }
    }

    /** The first empty cell at or after (row, col) in row-major order, or
        row 9 when every cell from there on holds a digit.  Changes nothing. */
    method FindEmpty(row: int, col: int) returns (r: int, c: int)
      requires puzzle.Valid() && 0 <= row <= 8 && 0 <= col <= 8
      ensures 0 <= r <= 9 && 0 <= c < 9 && (r == 9 ==> c == 0)
      ensures Index(row, col) <= Index(r, c)
      ensures FilledBetween(puzzle.cells[..], Index(row, col), Index(r, c))
      ensures r < 9 ==> puzzle.cells[Index(r, c)] == 0
    {
      r, c := row, col;
      while r < 9
        invariant row <= r <= 9
        invariant r == row ==> c == col
        invariant r > row ==> c == 0
        invariant forall i :: Index(row, col) <= i < Index(r, c) ==> puzzle.cells[i] != 0
      {
        while c < 9
          invariant 0 <= c <= 9
          invariant forall i :: Index(row, col) <= i < Index(r, c) ==> puzzle.cells[i] != 0
        {
          if puzzle.GetValue(r, c).value == 0 {
            return;
          }
          c := c + 1;
        }
        c := 0;
        r := r + 1;
      }
    }

    /** Logs move (r, c, v), records v in the masks of the cell's row, column
        and block, and writes v into the empty cell; the masks still match
        the board and a consistent board stays consistent. */
    method Place(r: int, c: int, v: int)
      requires puzzle.Valid() && 0 <= r < 9 && 0 <= c < 9 && 1 <= v <= 9
      requires MasksFit(puzzle.cells[..][Index(r, c) := 0]) && Allowed(r, c, v)
      modifies puzzle.cells, rowUsed, colUsed, blkUsed, this`moves
      ensures Valid()
      ensures puzzle.cells[..] == old(puzzle.cells[..])[Index(r, c) := v]
      ensures rowUsed[..] == Record(old(rowUsed[..]), r, v)
      ensures colUsed[..] == Record(old(colUsed[..]), c, v)
      ensures blkUsed[..] == Record(old(blkUsed[..]), BlockNumber(r, c), v)
      ensures moves == old(moves) + [Move(r, c, v)]
      ensures old(Consistent(puzzle.cells[..][Index(r, c) := 0])) ==> Consistent(puzzle.cells[..])
    {
      ghost var g := puzzle.cells[..][Index(r, c) := 0];
      assert g[Index(r, c) := v] == puzzle.cells[..][Index(r, c) := v];
      moves := moves + [Move(r, c, v)];
      Mark(r, c, v);
      var written := puzzle.SetValue(r, c, v);
      CellUnits(r, c);
      PlaceKeepsMasks(g, r, c, v);
      if Consistent(g) {
        PlaceKeepsConsistent(g, Index(r, c), v);
      }
    }

    /** Records digit v in the masks of the row, column and block of (r, c). */
    method Mark(r: int, c: int, v: int)
      requires Shaped() && 0 <= r < 9 && 0 <= c < 9 && 1 <= v
      modifies rowUsed, colUsed, blkUsed
      ensures rowUsed[..] == Record(old(rowUsed[..]), r, v)
      ensures colUsed[..] == Record(old(colUsed[..]), c, v)
      ensures blkUsed[..] == Record(old(blkUsed[..]), BlockNumber(r, c), v)
    {
      var b := BlockNumber(r, c);
      rowUsed[r] := rowUsed[r] + {v - 1};
      colUsed[c] := colUsed[c] + {v - 1};
      blkUsed[b] := blkUsed[b] + {v - 1};
    }

    /** Takes back move (r, c, v) after Place: drops the last logged move
        and removes v from the masks of the cell's row, column and block,
        which restores the masks and the log to what they were before Place.
        The board is not touched. */
    method Retract(r: int, c: int, v: int, ghost rows: seq<set<int>>, ghost cols: seq<set<int>>,
                   ghost blks: seq<set<int>>, ghost log: seq<Move>)
      requires Shaped() && 0 <= r < 9 && 0 <= c < 9 && 1 <= v
      requires |rows| == 9 && |cols| == 9 && |blks| == 9
      requires v - 1 !in rows[r] && v - 1 !in cols[c] && v - 1 !in blks[BlockNumber(r, c)]
      requires rowUsed[..] == Record(rows, r, v) && colUsed[..] == Record(cols, c, v)
      requires blkUsed[..] == Record(blks, BlockNumber(r, c), v)
      requires moves == log + [Move(r, c, v)]
      modifies rowUsed, colUsed, blkUsed, this`moves
      ensures rowUsed[..] == rows && colUsed[..] == cols && blkUsed[..] == blks
      ensures moves == log
    {
      var b := BlockNumber(r, c);
      moves := moves[..|moves| - 1];
      rowUsed[r] := rowUsed[r] - {v - 1};
      colUsed[c] := colUsed[c] - {v - 1};
      blkUsed[b] := blkUsed[b] - {v - 1};
      Unrecord(rows, r, v);
      Unrecord(cols, c, v);
      Unrecord(blks, b, v);
    }
  }

  /** The flat position of (r, c) lies in row r, column c and block
      BlockNumber(r, c), and in no other unit. */
  lemma CellUnits(r: int, c: int)
    requires 0 <= r < 9 && 0 <= c < 9
    ensures Index(r, c) / 9 == r && Index(r, c) % 9 == c
    ensures BoxOf(Index(r, c)) == Solver.BlockNumber(r, c)
    ensures forall u :: Index(r, c) in RowCells(u) <==> u == r
    ensures forall u :: Index(r, c) in ColCells(u) <==> u == c
    ensures forall u :: Index(r, c) in BoxCells(u) <==> u == Solver.BlockNumber(r, c)
  {
    DivMod9(Index(r, c), r, c);
    Div27(Index(r, c), r / 3, r % 3 * 9 + c);
  }

  /** Two cells get the same block number exactly when they lie in the same
      band of three rows and the same stack of three columns. */
  lemma BlockNumberShared(r1: int, c1: int, r2: int, c2: int)
    requires 0 <= r1 < 9 && 0 <= c1 < 9 && 0 <= r2 < 9 && 0 <= c2 < 9
    ensures Solver.BlockNumber(r1, c1) == Solver.BlockNumber(r2, c2) <==> r1 / 3 == r2 / 3 && c1 / 3 == c2 / 3
  {
    DivMod3(Solver.BlockNumber(r1, c1), r1 / 3, c1 / 3);
    DivMod3(Solver.BlockNumber(r2, c2), r2 / 3, c2 / 3);
  }

  /** Placing digit v at empty cell (r, c) adds v - 1 to the masks of its
      row, column and block, and leaves every other mask as it was. */
  lemma PlaceKeepsMasks(g: seq<int>, r: int, c: int, v: int)
    requires |g| == 81 && 0 <= r < 9 && 0 <= c < 9 && g[Index(r, c)] == 0 && 1 <= v <= 9
    ensures RowMasks(g[Index(r, c) := v]) == Record(RowMasks(g), r, v)
    ensures ColMasks(g[Index(r, c) := v]) == Record(ColMasks(g), c, v)
    ensures BoxMasks(g[Index(r, c) := v]) == Record(BoxMasks(g), Solver.BlockNumber(r, c), v)
  {
    CellUnits(r, c);
    RowPlace(g, Index(r, c), r, v);
    ColPlace(g, Index(r, c), c, v);
    BoxPlace(g, Index(r, c), Solver.BlockNumber(r, c), v);
  }

  lemma RowPlace(g: seq<int>, k: int, r: int, v: int)
    requires |g| == 81 && 0 <= k < 81 && g[k] == 0 && 1 <= v <= 9 && 0 <= r < 9
    requires forall u :: k in RowCells(u) <==> u == r
    ensures RowMasks(g[k := v]) == Record(RowMasks(g), r, v)
  {
    var after, rec := RowMasks(g[k := v]), Record(RowMasks(g), r, v);
    forall u | 0 <= u < 9
      ensures after[u] == rec[u]
    {
      UsedAfterPlace(g, k, v, RowCells(u));
    }
  }

  lemma ColPlace(g: seq<int>, k: int, c: int, v: int)
    requires |g| == 81 && 0 <= k < 81 && g[k] == 0 && 1 <= v <= 9 && 0 <= c < 9
    requires forall u :: k in ColCells(u) <==> u == c
    ensures ColMasks(g[k := v]) == Record(ColMasks(g), c, v)
  {
    var after, rec := ColMasks(g[k := v]), Record(ColMasks(g), c, v);
    forall u | 0 <= u < 9
      ensures after[u] == rec[u]
    {
      UsedAfterPlace(g, k, v, ColCells(u));
    }
  }

  lemma BoxPlace(g: seq<int>, k: int, b: int, v: int)
    requires |g| == 81 && 0 <= k < 81 && g[k] == 0 && 1 <= v <= 9 && 0 <= b < 9
    requires forall u :: k in BoxCells(u) <==> u == b
    ensures BoxMasks(g[k := v]) == Record(BoxMasks(g), b, v)
  {
    var after, rec := BoxMasks(g[k := v]), Record(BoxMasks(g), b, v);
    forall u | 0 <= u < 9
      ensures after[u] == rec[u]
    {
      UsedAfterPlace(g, k, v, BoxCells(u));
    }
  }

  /** Before the scan no unit has any digit recorded. */
  lemma ScanStart(g: seq<int>)
    requires |g| == 81
    ensures RowMasksBefore(g, 0) == seq(9, _ => {})
    ensures ColMasksBefore(g, 0) == seq(9, _ => {})
    ensures BoxMasksBefore(g, 0) == seq(9, _ => {})
  {
    forall u | 0 <= u < 9
      ensures Used(g, Before(RowCells(u), 0)) == {}
      ensures Used(g, Before(ColCells(u), 0)) == {}
      ensures Used(g, Before(BoxCells(u), 0)) == {}
    {
      UsedBeforeEnds(g, RowCells(u));
      UsedBeforeEnds(g, ColCells(u));
      UsedBeforeEnds(g, BoxCells(u));
    }
  }

  /** After the scan the recorded digits are exactly those on the board. */
  lemma ScanComplete(g: seq<int>)
    requires |g| == 81
    ensures RowMasksBefore(g, 81) == RowMasks(g)
    ensures ColMasksBefore(g, 81) == ColMasks(g)
    ensures BoxMasksBefore(g, 81) == BoxMasks(g)
  {
    var rows, cols, blks := RowMasksBefore(g, 81), ColMasksBefore(g, 81), BoxMasksBefore(g, 81);
    forall u | 0 <= u < 9
      ensures rows[u] == RowMasks(g)[u]
      ensures cols[u] == ColMasks(g)[u]
      ensures blks[u] == BoxMasks(g)[u]
    {
      UsedBeforeEnds(g, RowCells(u));
      UsedBeforeEnds(g, ColCells(u));
      UsedBeforeEnds(g, BoxCells(u));
    }
  }

  /** Scanning cell (r, c) adds its digit to the digits found so far in its
      row, column and block, and to no other unit. */
  lemma ScanStep(g: seq<int>, r: int, c: int)
    requires |g| == 81 && 0 <= r < 9 && 0 <= c < 9
    ensures Index(r, c + 1) == Index(r, c) + 1 && Index(r + 1, 0) == Index(r, 9)
    ensures RowMasksBefore(g, Index(r, c) + 1) == Record(RowMasksBefore(g, Index(r, c)), r, g[Index(r, c)])
    ensures ColMasksBefore(g, Index(r, c) + 1) == Record(ColMasksBefore(g, Index(r, c)), c, g[Index(r, c)])
    ensures BoxMasksBefore(g, Index(r, c) + 1) == Record(BoxMasksBefore(g, Index(r, c)), Solver.BlockNumber(r, c), g[Index(r, c)])
  {
    CellUnits(r, c);
    RowScanStep(g, Index(r, c), r);
    ColScanStep(g, Index(r, c), c);
    BoxScanStep(g, Index(r, c), Solver.BlockNumber(r, c));
  }

  lemma RowScanStep(g: seq<int>, n: int, r: int)
    requires |g| == 81 && 0 <= n < 81 && 0 <= r < 9
    requires forall u :: n in RowCells(u) <==> u == r
    ensures RowMasksBefore(g, n + 1) == Record(RowMasksBefore(g, n), r, g[n])
  {
    var next, rec := RowMasksBefore(g, n + 1), Record(RowMasksBefore(g, n), r, g[n]);
    forall u | 0 <= u < 9
      ensures next[u] == rec[u]
    {
      UsedBeforeNext(g, RowCells(u), n);
    }
  }

  lemma ColScanStep(g: seq<int>, n: int, c: int)
    requires |g| == 81 && 0 <= n < 81 && 0 <= c < 9
    requires forall u :: n in ColCells(u) <==> u == c
    ensures ColMasksBefore(g, n + 1) == Record(ColMasksBefore(g, n), c, g[n])
  {
    var next, rec := ColMasksBefore(g, n + 1), Record(ColMasksBefore(g, n), c, g[n]);
    forall u | 0 <= u < 9
      ensures next[u] == rec[u]
    {
      UsedBeforeNext(g, ColCells(u), n);
    }
  }

  lemma BoxScanStep(g: seq<int>, n: int, b: int)
    requires |g| == 81 && 0 <= n < 81 && 0 <= b < 9
    requires forall u :: n in BoxCells(u) <==> u == b
    ensures BoxMasksBefore(g, n + 1) == Record(BoxMasksBefore(g, n), b, g[n])
  {
    var next, rec := BoxMasksBefore(g, n + 1), Record(BoxMasksBefore(g, n), b, g[n]);
    forall u | 0 <= u < 9
      ensures next[u] == rec[u]
    {
      UsedBeforeNext(g, BoxCells(u), n);
    }
  }

  /** Adding a digit absent from a mask and removing it again gives the
      mask back. */
  lemma Unrecord(masks: seq<set<int>>, u: int, v: int)
    requires 0 <= u < |masks| && 1 <= v && v - 1 !in masks[u]
    ensures Record(masks, u, v)[u := Record(masks, u, v)[u] - {v - 1}] == masks
  {
    assert masks[u] + {v - 1} - {v - 1} == masks[u];
  }

  /** Move m is on the board, at or after position `from`, on a cell empty
      in `before`, and carries the digit that cell holds in `after`. */
  ghost predicate MoveFills(before: seq<int>, after: seq<int>, from: int, m: Move)
    requires |before| == 81 && |after| == 81
  {
    && 0 <= m.row < 9 && 0 <= m.col < 9 && from <= Pos(m)
    && before[Pos(m)] == 0 && m.value == after[Pos(m)]
  }

  /** Every cell empty in `before`, from position `from` on, has a move. */
  ghost predicate CoversEmpty(before: seq<int>, from: int, ms: seq<Move>)
    requires |before| == 81
  {
    forall i :: from <= i < 81 && 0 <= i && before[i] == 0 ==> exists j :: 0 <= j < |ms| && Pos(ms[j]) == i
  }

  /** Every move the log holds for a transition sits on the board, at or
      after position `from`, on a cell that was empty, and carries the
      digit that cell ends up with. */
  lemma {:induction false} MovesFromCells(before: seq<int>, after: seq<int>, from: nat)
    requires |before| == 81 && |after| == 81 && from <= 81
    ensures forall j :: 0 <= j < |MovesFrom(before, after, from)| ==> MoveFills(before, after, from, MovesFrom(before, after, from)[j])
    decreases 81 - from
  {
    if from < 81 {
      MovesFromCells(before, after, from + 1);
      var rest := MovesFrom(before, after, from + 1);
      if before[from] == 0 {
        DivMod9(from, from / 9, from % 9);
        var ms := [Move(from / 9, from % 9, after[from])] + rest;
        assert MovesFrom(before, after, from) == ms;
        assert Pos(ms[0]) == from;
        assert forall l :: 1 <= l < |ms| ==> ms[l] == rest[l - 1];
      }
    }
  }

  /** The moves are at strictly increasing positions. */
  ghost predicate InRowMajorOrder(ms: seq<Move>)
  {
    forall j, l :: 0 <= j < l < |ms| ==> Pos(ms[j]) < Pos(ms[l])
  }

  /** The moves are in strictly increasing row-major order. */
  lemma {:induction false} MovesFromOrdered(before: seq<int>, after: seq<int>, from: nat)
    requires |before| == 81 && |after| == 81 && from <= 81
    ensures InRowMajorOrder(MovesFrom(before, after, from))
    decreases 81 - from
  {
    if from < 81 {
      MovesFromOrdered(before, after, from + 1);
      if before[from] == 0 {
        MovesFromCells(before, after, from + 1);
        DivMod9(from, from / 9, from % 9);
        var rest := MovesFrom(before, after, from + 1);
        var ms := [Move(from / 9, from % 9, after[from])] + rest;
        assert MovesFrom(before, after, from) == ms;
        forall j, l | 0 <= j < l < |ms|
          ensures Pos(ms[j]) < Pos(ms[l])
        {
          assert ms[l] == rest[l - 1];
          if j > 0 {
            assert ms[j] == rest[j - 1];
          }
        }
      } else {
        assert MovesFrom(before, after, from) == MovesFrom(before, after, from + 1);
      }
    }
  }

  /** Every cell empty in `before`, from position `from` on, gets a move. */
  lemma {:induction false} MovesFromCovers(before: seq<int>, after: seq<int>, from: nat)
    requires |before| == 81 && |after| == 81 && from <= 81
    ensures CoversEmpty(before, from, MovesFrom(before, after, from))
    decreases 81 - from
  {
    if from < 81 {
      MovesFromCovers(before, after, from + 1);
      var rest := MovesFrom(before, after, from + 1);
      if before[from] == 0 {
        var m := Move(from / 9, from % 9, after[from]);
        DivMod9(from, from / 9, from % 9);
        var ms := [m] + rest;
        assert MovesFrom(before, after, from) == ms;
        forall i | from <= i < 81 && before[i] == 0
          ensures exists j :: 0 <= j < |ms| && Pos(ms[j]) == i
        {
          if i == from {
            assert Pos(ms[0]) == i;
          } else {
            var j :| 0 <= j < |rest| && Pos(rest[j]) == i;
            assert Pos(ms[j + 1]) == i;
          }
        }
      } else {
        assert MovesFrom(before, after, from) == rest;
      }
    }
  }

  /** Logging one move and then a further run of moves appends both. */
  lemma AppendAssoc(log: seq<Move>, m: Move, rest: seq<Move>)
    ensures (log + [m]) + rest == log + ([m] + rest)
  {
  }

  /** Cells that hold a digit contribute no move. */
  lemma {:induction false} MovesFromSkip(before: seq<int>, after: seq<int>, from: nat, to: nat)
    requires |before| == 81 && |after| == 81 && from <= to <= 81
    requires forall i :: from <= i < to ==> before[i] != 0
    ensures MovesFrom(before, after, from) == MovesFrom(before, after, to)
    decreases 81 - from
  {
    if from < to {
      MovesFromSkip(before, after, from + 1, to);
    }
  }

  /** The moves from position `from` on depend only on the cells from there on. */
  lemma {:induction false} MovesFromAgree(b1: seq<int>, b2: seq<int>, after: seq<int>, from: nat)
    requires |b1| == 81 && |b2| == 81 && |after| == 81 && from <= 81
    requires forall i :: from <= i < 81 ==> b1[i] == b2[i]
    ensures MovesFrom(b1, after, from) == MovesFrom(b2, after, from)
    decreases 81 - from
  {
    if from < 81 {
      MovesFromAgree(b1, b2, after, from + 1);
    }
  }

  /** The step of the search's log: the move written at the first empty
      cell k, followed by the recursion's moves, are the moves from start. */
  lemma MovesAfterPlace(g0: seq<int>, g1: seq<int>, gF: seq<int>, start: nat, k: nat, v: int)
    requires |g0| == 81 && |g1| == 81 && |gF| == 81 && start <= k < 81
    requires forall i :: start <= i < k ==> g0[i] != 0
    requires g0[k] == 0 && v != 0 && g1 == g0[k := v] && gF[k] == v
    ensures [Move(k / 9, k % 9, v)] + MovesFrom(g1, gF, k) == MovesFrom(g0, gF, start)
  {
    MovesFromSkip(g0, gF, start, k);
    MovesFromAgree(g1, g0, gF, k + 1);
  }
}
