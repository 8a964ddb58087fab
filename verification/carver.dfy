/**
 * `removeNumbers` and `generateSudoku`: fill a blank board by randomised
 * backtracking, then empty a difficulty-dependent number of cells chosen by
 * shuffling the list of all 81 positions.
 */
module Carver {
  import opened SudokuBoard
  import opened Shuffling
  import opened Backtracking

  datatype Difficulty = Easy | Medium | Hard | Expert | Master

  /** The number of cells `removeNumbers` empties before its random adjustment in [-2, 2]. */
  function BaseRemovals(d: Difficulty): (n: int)
    ensures 2 <= n && n + 2 <= 81
  {
    match d
    case Easy => 42
    case Medium => 45
    case Hard => 50
    case Expert => 54
    case Master => 57
  }

  /** Every position of the board, in row-major order. */
  function AllCells(): (cells: seq<(int, int)>)
    ensures |cells| == 81
    ensures forall k :: 0 <= k < 81 ==> cells[k] == (k / 9, k % 9)
  {
    seq(81, k => (k / 9, k % 9))
  }

  /** The positions are distinct board cells and every board cell is among them. */
  lemma AllCellsEnumerates()
    ensures Distinct(AllCells())
    ensures forall p: (int, int) :: p in AllCells() <==> InBounds(p.0, p.1)
  {
    var cells := AllCells();
    forall i, j | 0 <= i < j < 81 ensures cells[i] != cells[j] {
      assert Index(i / 9, i % 9) == i && Index(j / 9, j % 9) == j;
    }
    forall p: (int, int) | InBounds(p.0, p.1) ensures p in cells {
      assert cells[Index(p.0, p.1)] == p;
    }
  }

  /** The list of positions `removeNumbers` starts from: every cell, in row-major order. */
  method ListPositions() returns (positions: array<(int, int)>)
    ensures fresh(positions) && positions[..] == AllCells()
  {
    positions := new (int, int)[81];
    for row := 0 to 9
      invariant forall k :: 0 <= k < Index(row, 0) ==> positions[k] == AllCells()[k]
    {
      for col := 0 to 9
        invariant forall k :: 0 <= k < Index(row, col) ==> positions[k] == AllCells()[k]
      {
        positions[Index(row, col)] := (row, col);
      }
    }
  }

  /** A shuffle of all positions lists every board cell exactly once. */
  lemma ShuffledCells(s: seq<(int, int)>, swaps: seq<(int, int)>)
    requires SwapsInRange(swaps, 81) && s == ApplySwaps(AllCells(), swaps)
    ensures |s| == 81 && Distinct(s)
    ensures forall k :: 0 <= k < 81 ==> InBounds(s[k].0, s[k].1)
  {
    AllCellsEnumerates();
    ApplySwapsKeepsDistinct(AllCells(), swaps);
    ApplySwapsPermutes(AllCells(), swaps);
    forall k | 0 <= k < 81 ensures InBounds(s[k].0, s[k].1) {
      assert s[k] in multiset(s);
    }
  }

  /** The first n elements of a sequence without repetitions form a set of n elements. */
  lemma {:induction false} DistinctPrefixCard<T>(s: seq<T>, n: nat)
    requires Distinct(s) && n <= |s|
    ensures |set k | 0 <= k < n :: s[k]| == n
  {
    if n > 0 {
      DistinctPrefixCard(s, n - 1);
      var prefix := set k | 0 <= k < n - 1 :: s[k];
      assert s[n - 1] !in prefix;
      assert (set k | 0 <= k < n :: s[k]) == prefix + {s[n - 1]};
    }
  }

  /**
   * The loop of `removeNumbers`: empty the cells named by the first `count`
   * positions. They are distinct, so exactly `count` cells are emptied.
   */
  method ClearPositions(board: array2<int>, positions: array<(int, int)>, count: int) returns (ghost removed: set<(int, int)>)
    requires IsBoard(board) && 0 <= count <= positions.Length
    requires Distinct(positions[..])
    requires forall k :: 0 <= k < positions.Length ==> InBounds(positions[k].0, positions[k].1)
    modifies board
    ensures removed == set k | 0 <= k < count :: positions[k]
    ensures |removed| == count
    ensures forall p :: p in removed ==> InBounds(p.0, p.1)
    ensures forall r, c :: InBounds(r, c) ==> board[r, c] == if (r, c) in removed then Empty else old(board[r, c])
  {
    for i := 0 to count
      invariant forall r, c :: InBounds(r, c) ==> board[r, c] == if (r, c) in positions[..i] then Empty else old(board[r, c])
    {
      var (row, col) := positions[i];
      board[row, col] := Empty;
      assert positions[..i + 1] == positions[..i] + [(row, col)];
    }
    removed := set k | 0 <= k < count :: positions[k];
    DistinctPrefixCard(positions[..], count);
    assert removed == set k | 0 <= k < count :: positions[..][k];
    forall p ensures p in removed <==> p in positions[..count] {
      if p in positions[..count] {
        var k :| 0 <= k < count && positions[..count][k] == p;
        assert positions[k] == p;
      }
    }
  }

  /**
   * `removeNumbers`: list every position, shuffle the list, draw an
   * adjustment in [-2, 2], and empty the first `BaseRemovals(difficulty)`
   * plus adjustment positions. `removed` is the set of positions emptied:
   * that many distinct cells, every one now empty, every other cell as it
   * was.
   */
  method RemoveNumbers(board: array2<int>, difficulty: Difficulty) returns (ghost removed: set<(int, int)>)
    requires IsBoard(board)
    modifies board
    ensures BaseRemovals(difficulty) - 2 <= |removed| <= BaseRemovals(difficulty) + 2
    ensures forall p :: p in removed ==> InBounds(p.0, p.1)
    ensures forall r, c :: InBounds(r, c) ==> board[r, c] == if (r, c) in removed then Empty else old(board[r, c])
  {
    var positions := ListPositions();
    ghost var swaps := Shuffle(positions);
    ShuffledCells(positions[..], swaps);
    var errorValue := RandomBelow(5);
    errorValue := errorValue - 2;
    var count := BaseRemovals(difficulty) + errorValue;
    removed := ClearPositions(board, positions, count);
  }

  /**
   * `generateSudoku`: a fresh board, filled by `FillBoard` and then carved by
   * `RemoveNumbers`. The result never has two equal digits in a row, column
   * or box; every filled cell holds a digit; and unless the fill failed
   * (leaving the board blank), the number of empty cells is within two of the
   * difficulty's base count.
   */
  method GenerateSudoku(difficulty: Difficulty) returns (board: array2<int>)
    ensures fresh(board) && IsBoard(board)
    ensures ConflictFree(board)
    ensures forall r, c :: InBounds(r, c) ==> board[r, c] == Empty || 1 <= board[r, c] <= 9
    ensures IsBlank(board) || BaseRemovals(difficulty) - 2 <= |EmptyCells(board)| <= BaseRemovals(difficulty) + 2
  {
    board := new int[9, 9]((r, c) => Empty);
    var filled := FillBoard(board);
    ghost var removed := RemoveNumbers(board, difficulty);
    if filled {
      forall p ensures p in EmptyCells(board) <==> p in removed {
        EmptyCellsMember(board, p);
      }
      assert EmptyCells(board) == removed;
    }
  }
}
