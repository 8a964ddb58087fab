/**
 * The 9×9 board, the placement rule (`isValid`) and the row-major scan for
 * the first empty cell that both backtracking searches start with.
 *
 * A board is an `array2<int>` of nine rows and nine columns; the source's
 * `null` cell is encoded as `Empty` (0) and a filled cell holds its digit.
 */
module SudokuBoard {

  /** Encoding of the source's `null` (unset) cell. */
  const Empty := 0

  /** The digits a cell may hold, in ascending order. */
  const Digits: seq<int> := seq(9, i => i + 1)

  predicate InBounds(r: int, c: int) {
    0 <= r < 9 && 0 <= c < 9
  }

  /** The shape the source's `Board` type fixes: nine rows of nine cells. */
  predicate IsBoard(b: array2<int>) {
    b.Length0 == 9 && b.Length1 == 9
  }

  /** (r, c) and (r2, c2) share a row, a column or a 3×3 box; a cell shares all three with itself. */
  predicate SameUnit(r: int, c: int, r2: int, c2: int) {
    r == r2 || c == c2 || (r / 3 == r2 / 3 && c / 3 == c2 / 3)
  }

  /** (r2, c2) is another cell in a row, column or box of (r, c). */
  predicate Peer(r: int, c: int, r2: int, c2: int) {
    (r, c) != (r2, c2) && SameUnit(r, c, r2, c2)
  }

  /** (r, c) comes before (row, col) in row-major order. */
  predicate Before(r: int, c: int, row: int, col: int) {
    r < row || (r == row && c < col)
  }

  /** `num` occurs nowhere in the row, the column or the 3×3 box of (row, col). */
  ghost predicate Absent(b: array2<int>, row: int, col: int, num: int)
    reads b
    requires IsBoard(b)
  {
    forall r, c :: InBounds(r, c) && SameUnit(row, col, r, c) ==> b[r, c] != num
  }

  /** No cell is empty. */
  ghost predicate IsFull(b: array2<int>)
    reads b
    requires IsBoard(b)
  {
    forall r, c :: InBounds(r, c) ==> b[r, c] != Empty
  }

  /** Every cell is empty. */
  ghost predicate IsBlank(b: array2<int>)
    reads b
    requires IsBoard(b)
  {
    forall r, c :: InBounds(r, c) ==> b[r, c] == Empty
  }

  /** No two filled cells that share a row, a column or a box hold the same digit. */
  ghost predicate ConflictFree(b: array2<int>)
    reads b
    requires IsBoard(b)
  {
    forall r, c, r2, c2 ::
      InBounds(r, c) && InBounds(r2, c2) && b[r, c] != Empty && Peer(r, c, r2, c2) ==> b[r2, c2] != b[r, c]
  }

  /** Cell (r, c) holds a digit that no other cell of its row, column or box holds. */
  ghost predicate Consistent(b: array2<int>, r: int, c: int)
    reads b
    requires IsBoard(b) && InBounds(r, c)
  {
    1 <= b[r, c] <= 9 &&
    forall r2, c2 :: InBounds(r2, c2) && Peer(r, c, r2, c2) ==> b[r2, c2] != b[r, c]
  }

  /** The positions of the empty cells; its size is the measure that each backtracking descent decreases. */
  ghost function EmptyCells(b: array2<int>): set<(int, int)>
    reads b
    requires IsBoard(b)
  {
    set r, c | 0 <= r < 9 && 0 <= c < 9 && b[r, c] == Empty :: (r, c)
  }

  lemma EmptyCellsMember(b: array2<int>, p: (int, int))
    requires IsBoard(b)
    ensures p in EmptyCells(b) <==> InBounds(p.0, p.1) && b[p.0, p.1] == Empty
  {
  }

  /** Row-major index of cell (r, c). */
  function Index(r: int, c: int): int {
    9 * r + c
  }

  /**
   * Row-major index of the first empty cell at index k or later, or 81 when
   * there is none. Each backtracking descent fills the first empty cell and
   * keeps the earlier ones filled, so this index strictly grows.
   */
  ghost function FirstEmptyFrom(b: array2<int>, k: int): (i: int)
    reads b
    requires IsBoard(b) && 0 <= k <= 81
    ensures k <= i <= 81
    decreases 81 - k
  {
    if k == 81 then 81
    else if b[k / 9, k % 9] == Empty then k
    else FirstEmptyFrom(b, k + 1)
  }

  /** When every cell from index k through p is filled, the first empty cell comes after p. */
  lemma {:induction false} FirstEmptyAfterFilled(b: array2<int>, k: int, p: int)
    requires IsBoard(b) && 0 <= k <= p + 1 <= 81
    requires forall r, c :: InBounds(r, c) && k <= Index(r, c) <= p ==> b[r, c] != Empty
    ensures FirstEmptyFrom(b, k) > p
    decreases 81 - k
  {
    if k <= p {
      assert b[k / 9, k % 9] != Empty by {
        assert InBounds(k / 9, k % 9) && Index(k / 9, k % 9) == k;
      }
      FirstEmptyAfterFilled(b, k + 1, p);
    }
  }

  /** When the cells before index p are filled and cell p is empty, the first empty cell is p. */
  lemma {:induction false} FirstEmptyAt(b: array2<int>, k: int, p: int)
    requires IsBoard(b) && 0 <= k <= p < 81
    requires forall r, c :: InBounds(r, c) && k <= Index(r, c) < p ==> b[r, c] != Empty
    requires b[p / 9, p % 9] == Empty
    ensures FirstEmptyFrom(b, k) == p
    decreases 81 - k
  {
    if k < p {
      assert b[k / 9, k % 9] != Empty by {
        assert InBounds(k / 9, k % 9) && Index(k / 9, k % 9) == k;
      }
      FirstEmptyAt(b, k + 1, p);
    }
  }

  /**
   * The search's view of the measure: when every cell before (row, col) is
   * filled, the first empty cell is (row, col) itself while it is empty, and
   * lies beyond it once it is filled.
   */
  lemma FirstEmptyIndex(b: array2<int>, row: int, col: int)
    requires IsBoard(b) && InBounds(row, col)
    requires forall r, c :: InBounds(r, c) && Before(r, c, row, col) ==> b[r, c] != Empty
    ensures b[row, col] == Empty ==> FirstEmptyFrom(b, 0) == Index(row, col)
    ensures b[row, col] != Empty ==> FirstEmptyFrom(b, 0) > Index(row, col)
  {
    var p := Index(row, col);
    assert p / 9 == row && p % 9 == col;
    forall r, c | InBounds(r, c) && Index(r, c) <= p && (r, c) != (row, col) ensures b[r, c] != Empty {
      assert Before(r, c, row, col);
    }
    if b[row, col] == Empty {
      FirstEmptyAt(b, 0, p);
    } else {
      FirstEmptyAfterFilled(b, 0, p);
    }
  }

  /** Row of the box cell that `isValid` compares on its x-th step. */
  function BoxRow(row: int, x: int): int {
    3 * (row / 3) + x / 3
  }

  /** Column of the box cell that `isValid` compares on its x-th step. */
  function BoxCol(col: int, x: int): int {
    3 * (col / 3) + x % 3
  }

  /** The three cells `isValid` compares on step x. */
  ghost predicate ScanStepClear(b: array2<int>, row: int, col: int, num: int, x: int)
    reads b
    requires IsBoard(b) && InBounds(row, col) && 0 <= x < 9
  {
    b[row, x] != num && b[x, col] != num && b[BoxRow(row, x), BoxCol(col, x)] != num
  }

  /** The box cell visited on step x lies in the box of (row, col). */
  lemma BoxCellInBox(row: int, col: int, x: int)
    requires InBounds(row, col) && 0 <= x < 9
    ensures InBounds(BoxRow(row, x), BoxCol(col, x))
    ensures SameUnit(row, col, BoxRow(row, x), BoxCol(col, x))
  {
  }

  /** Every cell of the box of (row, col) is visited on some step of the scan. */
  lemma BoxCellVisited(row: int, col: int, r: int, c: int)
    requires InBounds(row, col) && InBounds(r, c)
    requires r / 3 == row / 3 && c / 3 == col / 3
    ensures var x := 3 * (r % 3) + c % 3; 0 <= x < 9 && BoxRow(row, x) == r && BoxCol(col, x) == c
  {
  }

  /**
   * The nine steps of the scan together visit exactly the row, the column and
   * the box of (row, col): a clear scan means the digit is absent.
   */
  lemma ScanCoversUnits(b: array2<int>, row: int, col: int, num: int)
    requires IsBoard(b) && InBounds(row, col)
    requires forall x :: 0 <= x < 9 ==> ScanStepClear(b, row, col, num, x)
    ensures Absent(b, row, col, num)
  {
    forall r, c | InBounds(r, c) && SameUnit(row, col, r, c) ensures b[r, c] != num {
      if r == row {
        assert ScanStepClear(b, row, col, num, c);
      } else if c == col {
        assert ScanStepClear(b, row, col, num, r);
      } else {
        BoxCellVisited(row, col, r, c);
        assert ScanStepClear(b, row, col, num, 3 * (r % 3) + c % 3);
      }
    }
  }

  /**
   * `isValid`: whether `num` may be placed at (row, col), i.e. occurs nowhere
   * in its row, its column or its box. One pass over x in 0..8 compares the
   * row cell, the column cell and the x-th cell of the box.
   */
  method IsValid(board: array2<int>, row: int, col: int, num: int) returns (ok: bool)
    requires IsBoard(board) && InBounds(row, col)
    requires num != Empty
    ensures ok <==> Absent(board, row, col, num)
  {
    for x := 0 to 9
      invariant forall y :: 0 <= y < x ==> ScanStepClear(board, row, col, num, y)
    {
      BoxCellInBox(row, col, x);
      if board[row, x] == num || board[x, col] == num || board[BoxRow(row, x), BoxCol(col, x)] == num {
        return false;
      }
    }
    ScanCoversUnits(board, row, col, num);
    return true;
  }

  /**
   * The scan both searches open with: rows 0..8, and within a row columns
   * 0..8, stopping at the first empty cell.
   */
  method FirstEmpty(board: array2<int>) returns (found: bool, row: int, col: int)
    requires IsBoard(board)
    ensures found ==> InBounds(row, col) && board[row, col] == Empty
    ensures found ==> forall r, c :: InBounds(r, c) && Before(r, c, row, col) ==> board[r, c] != Empty
    ensures !found <==> IsFull(board)
  {
    row := 0;
    while row < 9
      invariant 0 <= row <= 9
      invariant forall r, c :: 0 <= r < row && 0 <= c < 9 ==> board[r, c] != Empty
    {
      col := 0;
      while col < 9
        invariant 0 <= col <= 9
        invariant forall c :: 0 <= c < col ==> board[row, c] != Empty
      {
        if board[row, col] == Empty {
          return true, row, col;
        }
        col := col + 1;
      }
      row := row + 1;
    }
    return false, 0, 0;
  }
}
