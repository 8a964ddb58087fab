/**
 * The two backtracking searches that fill the board in place: `fillBoard`,
 * which tries a freshly shuffled order of the digits at every step, and
 * `solveSudokuHelper`, which tries them in ascending order; and `solveSudoku`.
 *
 * Each search finds the first empty cell in row-major order, places a digit
 * there only when `IsValid` allows it, recurses, and empties the cell again
 * when the recursion fails. Each descent fills the first empty cell and
 * keeps every earlier cell filled, so the row-major index of the first empty
 * cell strictly grows: that is the termination measure.
 */
module Backtracking {
  import opened SudokuBoard
  import opened Shuffling

  /**
   * `fillBoard`: fill every empty cell by backtracking, trying the digits in
   * an order shuffled afresh on each call. Given cells are never changed; on
   * success every cell is filled and each formerly empty cell holds a digit
   * no other cell of its row, column or box holds; on failure the board is
   * exactly as it was.
   */
  method FillBoard(board: array2<int>) returns (filled: bool)
    requires IsBoard(board)
    modifies board
    decreases 81 - FirstEmptyFrom(board, 0), 1
    ensures forall r, c :: InBounds(r, c) && old(board[r, c]) != Empty ==> board[r, c] == old(board[r, c])
    ensures !filled ==> forall r, c :: InBounds(r, c) ==> board[r, c] == old(board[r, c])
    ensures filled ==> IsFull(board)
    ensures filled ==> forall r, c :: InBounds(r, c) && old(board[r, c]) == Empty ==> Consistent(board, r, c)
    ensures old(IsFull(board)) ==> filled
    ensures filled && old(ConflictFree(board)) ==> ConflictFree(board)
  {
    var numbers := GenerateShuffledNumbers();
    var found, row, col := FirstEmpty(board);
    if !found {
      return true;
    }
    FirstEmptyIndex(board, row, col);
    for k := 0 to 9
      invariant forall r, c :: InBounds(r, c) ==> board[r, c] == old(board[r, c])
    {
      filled := TryFill(board, row, col, numbers[k]);
      if filled {
        return;
      }
    }
    return false;
  }

  /**
   * One step of `fillBoard`'s loop at its first empty cell (row, col): when
   * `IsValid` allows `digit` there, place it and fill the rest of the board;
   * if that fails, empty the cell again.
   */
  method TryFill(board: array2<int>, row: int, col: int, digit: int) returns (filled: bool)
    requires IsBoard(board) && InBounds(row, col) && 1 <= digit <= 9
    requires board[row, col] == Empty
    requires forall r, c :: InBounds(r, c) && Before(r, c, row, col) ==> board[r, c] != Empty
    modifies board
    decreases 81 - Index(row, col), 0
    ensures forall r, c :: InBounds(r, c) && old(board[r, c]) != Empty ==> board[r, c] == old(board[r, c])
    ensures !filled ==> forall r, c :: InBounds(r, c) ==> board[r, c] == old(board[r, c])
    ensures filled ==> IsFull(board)
    ensures filled ==> forall r, c :: InBounds(r, c) && old(board[r, c]) == Empty ==> Consistent(board, r, c)
  {
    var ok := IsValid(board, row, col, digit);
    if !ok {
      return false;
    }
    board[row, col] := digit;
    label Placed:
    FirstEmptyIndex(board, row, col);
    filled := FillBoard(board);
    if filled {
      // the new digit differs from every peer: a peer filled before the
      // placement was compared by IsValid, a peer filled after it is
      // consistent with (row, col)
      forall r, c | InBounds(r, c) && Peer(row, col, r, c) ensures board[r, c] != digit {
        if old@Placed(board[r, c]) != Empty {
          assert old@Placed(board[r, c]) != digit;
        } else {
          assert Consistent(board, r, c) && Peer(r, c, row, col);
        }
      }
      return;
    }
    board[row, col] := Empty;
  }

  /**
   * `solveSudokuHelper`: the same search as `FillBoard`, trying the digits in
   * ascending order.
   */
  method SolveSudokuHelper(board: array2<int>) returns (solved: bool)
    requires IsBoard(board)
    modifies board
    decreases 81 - FirstEmptyFrom(board, 0), 1
    ensures forall r, c :: InBounds(r, c) && old(board[r, c]) != Empty ==> board[r, c] == old(board[r, c])
    ensures !solved ==> forall r, c :: InBounds(r, c) ==> board[r, c] == old(board[r, c])
    ensures solved ==> IsFull(board)
    ensures solved ==> forall r, c :: InBounds(r, c) && old(board[r, c]) == Empty ==> Consistent(board, r, c)
    ensures old(IsFull(board)) ==> solved
    ensures solved && old(ConflictFree(board)) ==> ConflictFree(board)
  {
    var found, row, col := FirstEmpty(board);
    if !found {
      return true;
    }
    FirstEmptyIndex(board, row, col);
    for num := 1 to 10
      invariant forall r, c :: InBounds(r, c) ==> board[r, c] == old(board[r, c])
    {
      solved := TrySolve(board, row, col, num);
      if solved {
        return;
      }
    }
    return false;
  }

  /** One step of `solveSudokuHelper`'s loop, as `TryFill` is for `FillBoard`. */
  method TrySolve(board: array2<int>, row: int, col: int, num: int) returns (solved: bool)
    requires IsBoard(board) && InBounds(row, col) && 1 <= num <= 9
    requires board[row, col] == Empty
    requires forall r, c :: InBounds(r, c) && Before(r, c, row, col) ==> board[r, c] != Empty
    modifies board
    decreases 81 - Index(row, col), 0
    ensures forall r, c :: InBounds(r, c) && old(board[r, c]) != Empty ==> board[r, c] == old(board[r, c])
    ensures !solved ==> forall r, c :: InBounds(r, c) ==> board[r, c] == old(board[r, c])
    ensures solved ==> IsFull(board)
    ensures solved ==> forall r, c :: InBounds(r, c) && old(board[r, c]) == Empty ==> Consistent(board, r, c)
  {
    var ok := IsValid(board, row, col, num);
    if !ok {
      return false;
    }
    board[row, col] := num;
    label Placed:
    FirstEmptyIndex(board, row, col);
    solved := SolveSudokuHelper(board);
    if solved {
      forall r, c | InBounds(r, c) && Peer(row, col, r, c) ensures board[r, c] != num {
        if old@Placed(board[r, c]) != Empty {
          assert old@Placed(board[r, c]) != num;
        } else {
          assert Consistent(board, r, c) && Peer(r, c, row, col);
        }
      }
      return;
    }
    board[row, col] := Empty;
  }

  /**
   * `solveSudoku`: solve the board in place and hand the same board back.
   * Either every cell ends filled, each formerly empty one consistent with its
   * row, column and box, or no solution was found and the board is exactly as
   * it was given. Filled cells are never overwritten, so an already complete
   * board comes back unchanged.
   */
  method SolveSudoku(board: array2<int>) returns (result: array2<int>)
    requires IsBoard(board)
    modifies board
    ensures result == board
    ensures forall r, c :: InBounds(r, c) && old(board[r, c]) != Empty ==> board[r, c] == old(board[r, c])
    ensures !IsFull(board) ==> forall r, c :: InBounds(r, c) ==> board[r, c] == old(board[r, c])
    ensures IsFull(board) ==> forall r, c :: InBounds(r, c) && old(board[r, c]) == Empty ==> Consistent(board, r, c)
    ensures IsFull(board) && old(ConflictFree(board)) ==> ConflictFree(board)
    ensures old(IsFull(board)) ==> forall r, c :: InBounds(r, c) ==> board[r, c] == old(board[r, c])
  {
    var solved := SolveSudokuHelper(board);
    result := board;
  }
}
