/** The vocabulary shared by the board, the solver and the validator.  A
    board is seen as a flat sequence of 81 integers, cell (row, col) at
    position row * 9 + col, 0 meaning an empty cell and 1..9 a digit. */
module Grid {

  /** Flat position of cell (row, col). */
  function Index(row: int, col: int): int
  {
    row * 9 + col
  }

  /** Every cell holds 0 or a digit 1..9, the range the board enforces. */
  predicate InDigitRange(g: seq<int>)
  {
    |g| == 81 && forall i :: 0 <= i < 81 ==> 0 <= g[i] <= 9
  }

  /** No cell holds a value greater than 0. */
  predicate IsBlank(g: seq<int>)
    requires |g| == 81
  {
    forall i :: 0 <= i < 81 ==> g[i] <= 0
  }

  /** No cell is empty. */
  predicate IsComplete(g: seq<int>)
    requires |g| == 81
  {
    forall i :: 0 <= i < 81 ==> g[i] != 0
  }

  /** Positions lo..hi-1 all hold a digit. */
  predicate FilledBetween(g: seq<int>, lo: int, hi: int)
    requires 0 <= lo && hi <= |g|
  {
    forall i :: lo <= i < hi ==> g[i] != 0
  }

  /** Every cell that holds a digit in `before` holds the same digit in
      `after`. */
  predicate KeepsGivens(before: seq<int>, after: seq<int>)
    requires |before| == |after|
  {
    forall i :: 0 <= i < |before| && before[i] != 0 ==> after[i] == before[i]
  }

  /** The empty board. */
  function Blank(): (g: seq<int>)
    ensures |g| == 81 && IsBlank(g) && InDigitRange(g)
  {
    seq(81, _ => 0)
  }

  // ---------------------------------------------------------------------
  // Units: rows, columns and 3x3 boxes, as sets of flat positions.
  // ---------------------------------------------------------------------

  /** The 3x3 box holding flat position i, boxes numbered row-major 0..8.
      This is defined from the box's band (i / 27) and stack ((i % 9) / 3),
      independently of the solver's own block numbering. */
  function BoxOf(i: int): int
  {
    (i / 27) * 3 + (i % 9) / 3
  }

  function RowCells(r: int): set<int>
  {
    set i | 0 <= i < 81 && i / 9 == r
  }

  function ColCells(c: int): set<int>
  {
    set i | 0 <= i < 81 && i % 9 == c
  }

  function BoxCells(b: int): set<int>
  {
    set i | 0 <= i < 81 && BoxOf(i) == b
  }

  /** Positions i and j share a row, a column or a box. */
  predicate SameUnit(i: int, j: int)
  {
    i / 9 == j / 9 || i % 9 == j % 9 || BoxOf(i) == BoxOf(j)
  }

  /** The positions of `cells` that come before position n. */
  function Before(cells: set<int>, n: int): set<int>
  {
    set i | i in cells && i < n
  }

  /** The digits present in `cells`, each stored as digit - 1: exactly
      the bits a "digit in use" mask of that unit has set. */
  ghost function Used(g: seq<int>, cells: set<int>): set<int>
    requires |g| == 81
  {
    set i | i in cells && 0 <= i < 81 && g[i] > 0 :: g[i] - 1
  }

  /** No digit occurs twice in one row, column or box. */
  ghost predicate Consistent(g: seq<int>)
    requires |g| == 81
  {
    forall i, j {:trigger SameUnit(i, j)} :: 0 <= i < 81 && 0 <= j < 81 && i != j && SameUnit(i, j) && g[i] != 0 ==> g[i] != g[j]
  }

  /** The empty positions. */
  ghost function ZeroCells(g: seq<int>): set<int>
    requires |g| == 81
  {
    set i | 0 <= i < 81 && g[i] == 0
  }

  // ---------------------------------------------------------------------
  // Units as sequences, in the order the validator visits them.
  // ---------------------------------------------------------------------

  function RowOf(g: seq<int>, r: int): seq<int>
    requires |g| == 81 && 0 <= r < 9
  {
    g[r * 9 .. r * 9 + 9]
  }

  function ColOf(g: seq<int>, c: int): seq<int>
    requires |g| == 81 && 0 <= c < 9
  {
    seq(9, k requires 0 <= k < 9 => g[k * 9 + c])
  }

  /** The k-th cell of block b: its rows top to bottom, each left to right. */
  function BlockCell(b: int, k: int): (i: int)
    requires 0 <= b < 9 && 0 <= k < 9
    ensures 0 <= i < 81
  {
    (b / 3 * 3 + k / 3) * 9 + b % 3 * 3 + k % 3
  }

  function BlockOf(g: seq<int>, b: int): seq<int>
    requires |g| == 81 && 0 <= b < 9
  {
    seq(9, k requires 0 <= k < 9 => g[BlockCell(b, k)])
  }

  /** Every entry is a digit 1..9 and no digit repeats. */
  predicate DistinctDigits(s: seq<int>)
  {
    && (forall i :: 0 <= i < |s| ==> 1 <= s[i] <= 9)
    && (forall i, j :: 0 <= i < j < |s| ==> s[i] != s[j])
  }

  ghost predicate RowsDistinct(g: seq<int>)
    requires |g| == 81
  {
    forall r :: 0 <= r < 9 ==> DistinctDigits(RowOf(g, r))
  }

  ghost predicate ColsDistinct(g: seq<int>)
    requires |g| == 81
  {
    forall c :: 0 <= c < 9 ==> DistinctDigits(ColOf(g, c))
  }

  /** Blocks 0..n-1 hold distinct digits. */
  ghost predicate BlocksDistinct(g: seq<int>, n: int)
    requires |g| == 81 && n <= 9
  {
    forall b :: 0 <= b < n ==> DistinctDigits(BlockOf(g, b))
  }

  /** A complete, valid Sudoku: every row, column and block holds 1..9 once each. */
  ghost predicate Solved(g: seq<int>)
    requires |g| == 81
  {
    RowsDistinct(g) && ColsDistinct(g) && BlocksDistinct(g, 9)
  }

  /** The multiset {1, ..., 9}. */
  const Digits: multiset<int> := multiset{1, 2, 3, 4, 5, 6, 7, 8, 9}

  /** How many entries of m are digits 1..9. */
  function DigitTotal(m: multiset<int>): int
  {
    m[1] + m[2] + m[3] + m[4] + m[5] + m[6] + m[7] + m[8] + m[9]
  }

  // ---------------------------------------------------------------------
  // Counting digits: "no repeats" against "each digit once".
  // ---------------------------------------------------------------------

  /** At most one entry per element of s is a digit, and all of them are
      digits exactly when the total reaches |s|. */
  lemma {:induction false} DigitTotalBound(s: seq<int>)
    ensures DigitTotal(multiset(s)) <= |s|
    ensures DigitTotal(multiset(s)) == |s| <==> forall i :: 0 <= i < |s| ==> 1 <= s[i] <= 9
  {
    if s != [] {
      var p, x := s[..|s| - 1], s[|s| - 1];
      assert s == p + [x];
      DigitTotalBound(p);
      assert multiset(s) == multiset(p) + multiset{x};
      DigitTotalAddOne(multiset(p), x);
      assert (forall i :: 0 <= i < |s| ==> 1 <= s[i] <= 9)
        <==> (forall i :: 0 <= i < |p| ==> 1 <= p[i] <= 9) && 1 <= x <= 9 by {
        assert forall i :: 0 <= i < |p| ==> p[i] == s[i];
      }
    }
  }

  /** Adding one entry raises the total by one exactly when it is a digit. */
  lemma DigitTotalAddOne(m: multiset<int>, x: int)
    ensures DigitTotal(m + multiset{x}) == DigitTotal(m) + if 1 <= x <= 9 then 1 else 0
  {
  }

  /** Without repeats, no value occurs twice. */
  lemma {:induction false} NoRepeatAtMostOnce(s: seq<int>, x: int)
    requires forall i, j :: 0 <= i < j < |s| ==> s[i] != s[j]
    ensures multiset(s)[x] <= 1
  {
    if s != [] {
      var p, y := s[..|s| - 1], s[|s| - 1];
      assert s == p + [y];
      NoRepeatAtMostOnce(p, x);
      if x == y {
        assert x !in p;
      }
    }
  }

  /** A value found at two positions is counted at least twice. */
  lemma RepeatCountedTwice(s: seq<int>, i: int, j: int)
    requires 0 <= i < j < |s| && s[i] == s[j]
    ensures multiset(s)[s[i]] >= 2
  {
    assert s == s[..j] + [s[j]] + s[j + 1..];
    assert s[..j][i] == s[i];
  }

  /** Nine distinct digits hold each digit exactly once. */
  lemma DistinctDigitsEachOnce(s: seq<int>)
    requires |s| == 9 && DistinctDigits(s)
    ensures forall d :: 1 <= d <= 9 ==> multiset(s)[d] == 1
  {
    DigitTotalBound(s);
    forall x {
      NoRepeatAtMostOnce(s, x);
    }
  }

  /** Nine entries holding each digit exactly once are distinct digits. */
  lemma EachOnceDistinctDigits(s: seq<int>)
    requires |s| == 9
    requires forall d :: 1 <= d <= 9 ==> multiset(s)[d] == 1
    ensures DistinctDigits(s)
  {
    DigitTotalBound(s);
    forall i, j | 0 <= i < j < |s|
      ensures s[i] != s[j]
    {
      if s[i] == s[j] {
        RepeatCountedTwice(s, i, j);
      }
    }
  }

  /** "Distinct digits" is the same as "a permutation of 1..9". */
  lemma DistinctDigitsIsPermutation(s: seq<int>)
    requires |s| == 9
    ensures DistinctDigits(s) <==> multiset(s) == Digits
  {
    if DistinctDigits(s) {
      DistinctDigitsArePermutation(s);
    }
    if multiset(s) == Digits {
      EachOnceDistinctDigits(s);
    }
  }

  lemma DistinctDigitsArePermutation(s: seq<int>)
    requires |s| == 9 && DistinctDigits(s)
    ensures multiset(s) == Digits
  {
    DistinctDigitsEachOnce(s);
    forall x
      ensures multiset(s)[x] == Digits[x]
    {
      if 1 <= x <= 9 {
        assert Digits[x] == 1;
      } else {
        assert x !in s;
        assert Digits[x] == 0;
      }
    }
  }

  // ---------------------------------------------------------------------
  // The bottom-right block.
  // ---------------------------------------------------------------------

  /** Three consecutive cells starting at position a. */
  function Triple(g: seq<int>, a: int): seq<int>
    requires |g| == 81 && 0 <= a <= 78
  {
    g[a .. a + 3]
  }

  lemma RowAsTriples(g: seq<int>, r: int)
    requires |g| == 81 && 6 <= r < 9
    ensures RowOf(g, r) == Triple(g, r * 9) + Triple(g, r * 9 + 3) + Triple(g, r * 9 + 6)
  {
  }

  lemma BottomBlockAsTriples(g: seq<int>, j: int)
    requires |g| == 81 && 0 <= j < 3
    ensures BlockOf(g, 6 + j) == Triple(g, 54 + 3 * j) + Triple(g, 63 + 3 * j) + Triple(g, 72 + 3 * j)
  {
    var lhs, rhs := BlockOf(g, 6 + j), Triple(g, 54 + 3 * j) + Triple(g, 63 + 3 * j) + Triple(g, 72 + 3 * j);
    forall k | 0 <= k < 9
      ensures lhs[k] == rhs[k]
    {
      assert BlockCell(6 + j, k) == 54 + 3 * j + (k / 3) * 9 + k % 3;
    }
  }

  /** The counting step: a 3x3 arrangement of pieces whose three rows and
      first two columns each hold every digit once has a third column that
      holds every digit once. */
  lemma ThirdColumnCount(x0: seq<int>, x1: seq<int>, x2: seq<int>,
                         x3: seq<int>, x4: seq<int>, x5: seq<int>,
                         x6: seq<int>, x7: seq<int>, x8: seq<int>, d: int)
    requires multiset(x0 + x1 + x2)[d] == 1
    requires multiset(x3 + x4 + x5)[d] == 1
    requires multiset(x6 + x7 + x8)[d] == 1
    requires multiset(x0 + x3 + x6)[d] == 1
    requires multiset(x1 + x4 + x7)[d] == 1
    ensures multiset(x2 + x5 + x8)[d] == 1
  {
  }

  /** Rows 6, 7 and 8 are covered by blocks 6, 7 and 8; so once those rows
      and blocks 6 and 7 hold each digit once, block 8 must do so too. */
  lemma LastBlockImplied(g: seq<int>)
    requires |g| == 81
    requires DistinctDigits(RowOf(g, 6)) && DistinctDigits(RowOf(g, 7)) && DistinctDigits(RowOf(g, 8))
    requires DistinctDigits(BlockOf(g, 6)) && DistinctDigits(BlockOf(g, 7))
    ensures DistinctDigits(BlockOf(g, 8))
  {
    RowAsTriples(g, 6);
    RowAsTriples(g, 7);
    RowAsTriples(g, 8);
    BottomBlockAsTriples(g, 0);
    BottomBlockAsTriples(g, 1);
    BottomBlockAsTriples(g, 2);
    DistinctDigitsEachOnce(RowOf(g, 6));
    DistinctDigitsEachOnce(RowOf(g, 7));
    DistinctDigitsEachOnce(RowOf(g, 8));
    DistinctDigitsEachOnce(BlockOf(g, 6));
    DistinctDigitsEachOnce(BlockOf(g, 7));
    forall d | 1 <= d <= 9
      ensures multiset(BlockOf(g, 8))[d] == 1
    {
      ThirdColumnCount(Triple(g, 54), Triple(g, 57), Triple(g, 60),
                       Triple(g, 63), Triple(g, 66), Triple(g, 69),
                       Triple(g, 72), Triple(g, 75), Triple(g, 78), d);
    }
    EachOnceDistinctDigits(BlockOf(g, 8));
  }

  /** Checking every row, every column and blocks 0..7 decides validity. */
  lemma EightBlocksSuffice(g: seq<int>)
    requires |g| == 81
    ensures RowsDistinct(g) && ColsDistinct(g) && BlocksDistinct(g, 8) <==> Solved(g)
  {
    if RowsDistinct(g) && ColsDistinct(g) && BlocksDistinct(g, 8) {
      LastBlockImplied(g);
    }
  }

  // ---------------------------------------------------------------------
  // "No digit twice in a unit" against "every unit distinct".
  // ---------------------------------------------------------------------

  /** Quotient and remainder by 3 of 3 * q + r. */
  lemma DivMod3(x: int, q: int, r: int)
    requires x == 3 * q + r && 0 <= r < 3
    ensures x / 3 == q && x % 3 == r
  {
  }

  /** Quotient and remainder by 9 of 9 * q + r. */
  lemma DivMod9(x: int, q: int, r: int)
    requires x == 9 * q + r && 0 <= r < 9
    ensures x / 9 == q && x % 9 == r
  {
  }

  /** Quotient by 27 of 27 * q + r. */
  lemma Div27(x: int, q: int, r: int)
    requires x == 27 * q + r && 0 <= r < 27
    ensures x / 27 == q
  {
  }

  /** Where the k-th cell of block b sits, and that it lies in box b. */
  lemma BlockCellPlace(b: int, k: int)
    requires 0 <= b < 9 && 0 <= k < 9
    ensures BlockCell(b, k) / 9 == b / 3 * 3 + k / 3
    ensures BlockCell(b, k) % 9 == b % 3 * 3 + k % 3
    ensures BoxOf(BlockCell(b, k)) == b
  {
    var p, q, s, t := b / 3, b % 3, k / 3, k % 3;
    var i := BlockCell(b, k);
    assert i == 27 * p + 9 * s + 3 * q + t;
    DivMod9(i, 3 * p + s, 3 * q + t);
    Div27(i, p, 9 * s + 3 * q + t);
    DivMod3(3 * q + t, q, t);
  }

  /** Every position of box b is the k-th cell of block b for one k. */
  lemma BoxPositionInBlock(i: int) returns (k: int)
    requires 0 <= i < 81
    ensures 0 <= k < 9 && BlockCell(BoxOf(i), k) == i
  {
    var row, col := i / 9, i % 9;
    var p, s, q, t := row / 3, row % 3, col / 3, col % 3;
    k := s * 3 + t;
    DivMod3(k, s, t);
    assert i == 27 * p + 9 * s + 3 * q + t;
    Div27(i, p, 9 * s + 3 * q + t);
    assert BoxOf(i) == 3 * p + q;
    DivMod3(3 * p + q, p, q);
  }

  /** Two different positions of one row are different cells of one unit. */
  lemma RowPair(u: int, a: int, b: int)
    requires 0 <= u < 9 && 0 <= a < b < 9
    ensures u * 9 + a != u * 9 + b && SameUnit(u * 9 + a, u * 9 + b)
  {
    DivMod9(u * 9 + a, u, a);
    DivMod9(u * 9 + b, u, b);
  }

  /** Two different positions of one column are different cells of one unit. */
  lemma ColPair(u: int, a: int, b: int)
    requires 0 <= u < 9 && 0 <= a < b < 9
    ensures a * 9 + u != b * 9 + u && SameUnit(a * 9 + u, b * 9 + u)
  {
    DivMod9(a * 9 + u, a, u);
    DivMod9(b * 9 + u, b, u);
  }

  /** Two different positions of one block are different cells of one unit. */
  lemma BlockPair(u: int, a: int, b: int)
    requires 0 <= u < 9 && 0 <= a < b < 9
    ensures BlockCell(u, a) != BlockCell(u, b) && SameUnit(BlockCell(u, a), BlockCell(u, b))
  {
    BlockCellPlace(u, a);
    BlockCellPlace(u, b);
    DivMod3(a, a / 3, a % 3);
    DivMod3(b, b / 3, b % 3);
  }

  /** A complete board without a repeated digit in any unit is solved. */
  lemma ConsistentCompleteIsSolved(g: seq<int>)
    requires |g| == 81 && Consistent(g)
    requires forall i :: 0 <= i < 81 ==> 1 <= g[i] <= 9
    ensures Solved(g)
  {
    forall u, a, b | 0 <= u < 9 && 0 <= a < b < 9
      ensures RowOf(g, u)[a] != RowOf(g, u)[b]
      ensures ColOf(g, u)[a] != ColOf(g, u)[b]
      ensures BlockOf(g, u)[a] != BlockOf(g, u)[b]
    {
      RowPair(u, a, b);
      ColPair(u, a, b);
      BlockPair(u, a, b);
    }
  }

  /** A solved board is complete and repeats no digit in any unit. */
  lemma SolvedIsConsistentComplete(g: seq<int>)
    requires |g| == 81 && Solved(g)
    ensures Consistent(g)
    ensures forall i :: 0 <= i < 81 ==> 1 <= g[i] <= 9
  {
    forall i | 0 <= i < 81
      ensures 1 <= g[i] <= 9
    {
      DivMod9(i, i / 9, i % 9);
      assert RowOf(g, i / 9)[i % 9] == g[i];
      assert DistinctDigits(RowOf(g, i / 9));
    }
    forall i, j | 0 <= i < 81 && 0 <= j < 81 && i != j && SameUnit(i, j) && g[i] != 0
      ensures g[i] != g[j]
    {
      SameUnitDistinct(g, i, j);
    }
  }

  /** Two different cells of one unit of a solved board differ. */
  lemma SameUnitDistinct(g: seq<int>, i: int, j: int)
    requires |g| == 81 && Solved(g)
    requires 0 <= i < 81 && 0 <= j < 81 && i != j && SameUnit(i, j)
    ensures g[i] != g[j]
  {
    if i / 9 == j / 9 {
      SameRowDistinct(g, i, j);
    } else if i % 9 == j % 9 {
      SameColDistinct(g, i, j);
    } else {
      SameBoxDistinct(g, i, j);
    }
  }

  lemma SameRowDistinct(g: seq<int>, i: int, j: int)
    requires |g| == 81 && 0 <= i < 81 && 0 <= j < 81 && i != j && i / 9 == j / 9
    requires DistinctDigits(RowOf(g, i / 9))
    ensures g[i] != g[j]
  {
    var r := RowOf(g, i / 9);
    assert r[i % 9] == g[i] && r[j % 9] == g[j];
  }

  lemma SameColDistinct(g: seq<int>, i: int, j: int)
    requires |g| == 81 && 0 <= i < 81 && 0 <= j < 81 && i != j && i % 9 == j % 9
    requires DistinctDigits(ColOf(g, i % 9))
    ensures g[i] != g[j]
  {
    var c := ColOf(g, i % 9);
    assert c[i / 9] == g[i] && c[j / 9] == g[j];
  }

  lemma SameBoxDistinct(g: seq<int>, i: int, j: int)
    requires |g| == 81 && 0 <= i < 81 && 0 <= j < 81 && i != j && BoxOf(i) == BoxOf(j)
    requires 0 <= BoxOf(i) < 9 && DistinctDigits(BlockOf(g, BoxOf(i)))
    ensures g[i] != g[j]
  {
    var ki := BoxPositionInBlock(i);
    var kj := BoxPositionInBlock(j);
    var blk := BlockOf(g, BoxOf(i));
    assert blk[ki] == g[i] && blk[kj] == g[j];
  }

  /** Solved is exactly "complete, and no digit twice in a unit". */
  lemma SolvedIffConsistentComplete(g: seq<int>)
    requires |g| == 81
    ensures Solved(g) <==> Consistent(g) && forall i :: 0 <= i < 81 ==> 1 <= g[i] <= 9
  {
    if Solved(g) {
      SolvedIsConsistentComplete(g);
    }
    if Consistent(g) && forall i :: 0 <= i < 81 ==> 1 <= g[i] <= 9 {
      ConsistentCompleteIsSolved(g);
    }
  }

  // ---------------------------------------------------------------------
  // How the digits in use change when one cell is written.
  // ---------------------------------------------------------------------

  /** Writing digit v into an empty cell adds v - 1 to the digits in use of
      exactly the units that contain the cell. */
  lemma UsedAfterPlace(g: seq<int>, k: int, v: int, cells: set<int>)
    requires |g| == 81 && 0 <= k < 81 && g[k] == 0 && 1 <= v <= 9
    ensures Used(g[k := v], cells) == if k in cells then Used(g, cells) + {v - 1} else Used(g, cells)
  {
    var h := g[k := v];
    var want := if k in cells then Used(g, cells) + {v - 1} else Used(g, cells);
    forall x
      ensures x in Used(h, cells) <==> x in want
    {
      if x in Used(h, cells) {
        var i :| i in cells && 0 <= i < 81 && h[i] > 0 && h[i] - 1 == x;
        if i != k {
          assert g[i] - 1 in Used(g, cells);
        }
      }
      if x in Used(g, cells) {
        var i :| i in cells && 0 <= i < 81 && g[i] > 0 && g[i] - 1 == x;
        assert h[i] - 1 in Used(h, cells);
      }
      if k in cells && x == v - 1 {
        assert h[k] - 1 in Used(h, cells);
      }
    }
  }

  /** Scanning one more position adds that position's digit, if any. */
  lemma UsedBeforeNext(g: seq<int>, cells: set<int>, n: int)
    requires |g| == 81 && 0 <= n < 81
    ensures Used(g, Before(cells, n + 1))
         == Used(g, Before(cells, n)) + (if n in cells && g[n] > 0 then {g[n] - 1} else {})
  {
    var want := Used(g, Before(cells, n)) + (if n in cells && g[n] > 0 then {g[n] - 1} else {});
    forall x
      ensures x in Used(g, Before(cells, n + 1)) <==> x in want
    {
      if x in Used(g, Before(cells, n + 1)) {
        var i :| i in Before(cells, n + 1) && 0 <= i < 81 && g[i] > 0 && g[i] - 1 == x;
        if i != n {
          assert g[i] - 1 in Used(g, Before(cells, n));
        }
      }
      if x in Used(g, Before(cells, n)) {
        var i :| i in Before(cells, n) && 0 <= i < 81 && g[i] > 0 && g[i] - 1 == x;
        assert g[i] - 1 in Used(g, Before(cells, n + 1));
      }
      if n in cells && g[n] > 0 && x == g[n] - 1 {
        assert g[n] - 1 in Used(g, Before(cells, n + 1));
      }
    }
  }

  /** Before the scan starts nothing is in use; once it has passed every
      position, everything in the unit is. */
  lemma UsedBeforeEnds(g: seq<int>, cells: set<int>)
    requires |g| == 81
    ensures Used(g, Before(cells, 0)) == {}
    ensures Used(g, Before(cells, 81)) == Used(g, cells)
  {
    assert forall i :: i in cells && 0 <= i < 81 <==> i in Before(cells, 81) && 0 <= i < 81;
  }

  /** Writing a digit that is not yet in use in the cell's row, column or box
      keeps every unit free of repeats. */
  lemma PlaceKeepsConsistent(g: seq<int>, k: int, v: int)
    requires InDigitRange(g) && Consistent(g)
    requires 0 <= k < 81 && g[k] == 0 && 1 <= v <= 9
    requires v - 1 !in Used(g, RowCells(k / 9))
    requires v - 1 !in Used(g, ColCells(k % 9))
    requires v - 1 !in Used(g, BoxCells(BoxOf(k)))
    ensures Consistent(g[k := v])
  {
    var h := g[k := v];
    forall i, j | 0 <= i < 81 && 0 <= j < 81 && i != j && SameUnit(i, j) && h[i] != 0
      ensures h[i] != h[j]
    {
      if i == k || j == k {
        var o := if i == k then j else i;
        if h[o] != 0 {
          if o / 9 == k / 9 {
            assert g[o] - 1 in Used(g, RowCells(k / 9));
          } else if o % 9 == k % 9 {
            assert g[o] - 1 in Used(g, ColCells(k % 9));
          } else {
            assert g[o] - 1 in Used(g, BoxCells(BoxOf(k)));
          }
        }
      }
    }
  }

  /** Filling an empty cell leaves one empty cell fewer. */
  lemma ZeroCellsAfterPlace(g: seq<int>, k: int, v: int)
    requires |g| == 81 && 0 <= k < 81 && g[k] == 0 && v != 0
    ensures |ZeroCells(g[k := v])| == |ZeroCells(g)| - 1
  {
    assert ZeroCells(g[k := v]) == ZeroCells(g) - {k};
  }
}
