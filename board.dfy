/** The puzzle board: 81 cells addressed as row * 9 + col, each holding 0
    (empty) or a digit 1..9, with bounds-checked reads and writes. */
module Board {
  import opened Wrappers
  import opened Grid

  class Puzzle {
    const cells: array<int>

    /** The board invariant: 81 cells, each within 0..9. */
    ghost predicate Valid()
      reads cells
    {
      cells.Length == 81 && InDigitRange(cells[..])
    }

    /** A new board with every cell empty. */
    constructor ()
      ensures Valid() && fresh(cells)
      ensures cells[..] == Blank()
    {
      var a := new int[81];
      var c := 0;
      while c < 81
        invariant 0 <= c <= 81
        invariant forall i :: 0 <= i < c ==> a[i] == 0
      {
        a[c] := 0;
        c := c + 1;
      }
      cells := a;
    }

    /** The digit at (row, col), or IllegalArgument when the position is off
        the board.  Reading changes nothing. */
    function GetValue(row: int, col: int): (r: Result<int, IllegalArgument>)
      requires Valid()
      reads cells
      ensures r.Ok? <==> 0 <= row <= 8 && 0 <= col <= 8
      ensures r.Ok? ==> 0 <= r.value <= 9
    {
      if row < 0 || row > 8 || col < 0 || col > 8 then
        Err(IllegalArgument)
      else
        Ok(cells[Index(row, col)])
    }

    /** Writes value at (row, col); fails, leaving the board as it was, when
        the position is off the board or the value is outside 0..9. */
    method SetValue(row: int, col: int, value: int) returns (r: Outcome<IllegalArgument>)
      requires Valid()
      modifies cells
      ensures Valid()
      ensures r.Pass? <==> 0 <= row <= 8 && 0 <= col <= 8 && 0 <= value <= 9
      ensures r.Pass? ==> cells[..] == old(cells[..])[Index(row, col) := value]
      ensures r.Fail? ==> cells[..] == old(cells[..])
      ensures r.Pass? ==> GetValue(row, col) == Ok(value)
      ensures forall i, j :: i != row || j != col ==> GetValue(i, j) == old(GetValue(i, j))
    {
      if row < 0 || row > 8 || col < 0 || col > 8 || value < 0 || value > 9 {
        return Fail(IllegalArgument);
      }
      cells[Index(row, col)] := value;
      IndexInjective(row, col);
      r := Pass;
    }

    /** True exactly when no cell holds a digit. */
    method IsEmpty() returns (empty: bool)
      requires Valid()
      ensures empty <==> IsBlank(cells[..])
    {
      var i := 0;
      while i < 81
        invariant 0 <= i <= 81
        invariant forall j :: 0 <= j < i ==> cells[j] <= 0
      {
        if cells[i] > 0 {
          return false;
        }
        i := i + 1;
      }
      return true;
    }
  }

  /** Distinct on-board positions have distinct flat indices, so a write
      reaches exactly one cell. */
  lemma IndexInjective(row: int, col: int)
    requires 0 <= row <= 8 && 0 <= col <= 8
    ensures 0 <= Index(row, col) < 81
    ensures forall i, j :: 0 <= i <= 8 && 0 <= j <= 8 && Index(i, j) == Index(row, col) ==> i == row && j == col
  {
  }

  /** A freshly written cell reads back the value written, and every other
      cell reads back what it held before. */
  lemma ReadAfterWrite(g: seq<int>, row: int, col: int, value: int, i: int, j: int)
    requires |g| == 81 && 0 <= row <= 8 && 0 <= col <= 8 && 0 <= i <= 8 && 0 <= j <= 8
    ensures g[Index(row, col) := value][Index(i, j)] == if i == row && j == col then value else g[Index(i, j)]
  {
    IndexInjective(row, col);
  }
}
