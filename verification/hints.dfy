/**
 * `getSudokuHint`: suggest a digit for the first empty cell (in row-major
 * order) among those with the fewest candidates, namely its smallest
 * candidate; `(-1, -1, -1)` when no empty cell has a candidate.
 */
module Hints {
  import opened SudokuBoard
  import opened Candidates

  datatype Hint = Hint(row: int, col: int, value: int)

  datatype Option<T> = None | Some(value: T)

  /** The answer when there is nothing to suggest. */
  const NoHint := Hint(-1, -1, -1)

  /** A 9×9 grid of candidate lists, as `getCandidates` returns. */
  predicate IsGrid(g: seq<seq<seq<int>>>) {
    |g| == 9 && forall r :: 0 <= r < 9 ==> |g[r]| == 9
  }

  /** Cell (r, c) may receive a hint: it is empty and has at least one candidate in `g`. */
  predicate Eligible(b: array2<int>, g: seq<seq<seq<int>>>, r: int, c: int)
    reads b
    requires IsBoard(b) && IsGrid(g) && InBounds(r, c)
  {
    b[r, c] == Empty && |g[r][c]| > 0
  }

  /**
   * Among the first n cells in row-major order, `h` names the first eligible
   * cell with the fewest candidates, and its first candidate.
   */
  ghost predicate BestSoFar(b: array2<int>, g: seq<seq<seq<int>>>, h: Hint, n: int)
    reads b
    requires IsBoard(b) && IsGrid(g)
  {
    InBounds(h.row, h.col) && Index(h.row, h.col) < n && Eligible(b, g, h.row, h.col) &&
    h.value == g[h.row][h.col][0] &&
    (forall r, c :: InBounds(r, c) && Index(r, c) < n && Eligible(b, g, r, c) ==>
       |g[h.row][h.col]| <= |g[r][c]|) &&
    (forall r, c :: InBounds(r, c) && Index(r, c) < Index(h.row, h.col) && Eligible(b, g, r, c) ==>
       |g[h.row][h.col]| < |g[r][c]|)
  }

  /** The running minimum that goes with a hint cell; 10 stands for the source's `Infinity`. */
  ghost function MinCount(g: seq<seq<seq<int>>>, hintCell: Option<Hint>): int
    requires IsGrid(g)
    requires hintCell.Some? ==> InBounds(hintCell.value.row, hintCell.value.col)
  {
    if hintCell.None? then 10 else |g[hintCell.value.row][hintCell.value.col]|
  }

  /**
   * The hint cell the scan holds after the first n cells: a cell replaces it
   * when it is empty and has some candidates, fewer than the running minimum.
   */
  ghost function ScanPrefix(b: array2<int>, g: seq<seq<seq<int>>>, n: int): (hintCell: Option<Hint>)
    reads b
    requires IsBoard(b) && IsGrid(g) && 0 <= n <= 81
    ensures hintCell.Some? ==> InBounds(hintCell.value.row, hintCell.value.col) && Index(hintCell.value.row, hintCell.value.col) < n
    decreases n
  {
    if n == 0 then None
    else
      var prev := ScanPrefix(b, g, n - 1);
      var r, c := (n - 1) / 9, (n - 1) % 9;
      if |g[r][c]| > 0 && |g[r][c]| < MinCount(g, prev) && b[r, c] == Empty then Some(Hint(r, c, g[r][c][0]))
      else prev
  }

  /**
   * The scan finds what the hint is meant to be: nothing exactly when no cell
   * among the first n is eligible, and otherwise the first of them with the
   * fewest candidates.
   */
  lemma {:induction false} ScanPrefixIsBest(b: array2<int>, g: seq<seq<seq<int>>>, n: int)
    requires IsBoard(b) && IsGrid(g) && 0 <= n <= 81
    requires forall r, c :: InBounds(r, c) ==> |g[r][c]| <= 9
    ensures ScanPrefix(b, g, n).None? <==> forall r, c :: InBounds(r, c) && Index(r, c) < n ==> !Eligible(b, g, r, c)
    ensures ScanPrefix(b, g, n).Some? ==> BestSoFar(b, g, ScanPrefix(b, g, n).value, n)
    decreases n
  {
    if n > 0 {
      ScanPrefixIsBest(b, g, n - 1);
      var r, c := (n - 1) / 9, (n - 1) % 9;
      assert InBounds(r, c) && Index(r, c) == n - 1;
      forall r2, c2 | InBounds(r2, c2) && Index(r2, c2) < n ensures Index(r2, c2) < n - 1 || (r2 == r && c2 == c) {
      }
    }
  }

  /**
   * The scan of `getSudokuHint` over a candidate grid: the first eligible
   * cell in row-major order with the fewest candidates, with its first
   * candidate, or `NoHint` when no cell is eligible.
   */
  method ScanForHint(board: array2<int>, candidates: seq<seq<seq<int>>>) returns (hint: Hint)
    requires IsBoard(board) && IsGrid(candidates)
    requires forall r, c :: InBounds(r, c) ==> |candidates[r][c]| <= 9
    ensures hint == NoHint <==> forall r, c :: InBounds(r, c) ==> !Eligible(board, candidates, r, c)
    ensures hint != NoHint ==> BestSoFar(board, candidates, hint, 81)
  {
    var minCandidatesCount := 10;
    var hintCell: Option<Hint> := None;
    for row := 0 to 9
      invariant hintCell == ScanPrefix(board, candidates, Index(row, 0))
      invariant minCandidatesCount == MinCount(candidates, hintCell)
    {
      for col := 0 to 9
        invariant hintCell == ScanPrefix(board, candidates, Index(row, col))
        invariant minCandidatesCount == MinCount(candidates, hintCell)
      {
        assert Index(row, col) / 9 == row && Index(row, col) % 9 == col;
        var cellCandidates := candidates[row][col];
        if |cellCandidates| > 0 && |cellCandidates| < minCandidatesCount && board[row, col] == Empty {
          minCandidatesCount := |cellCandidates|;
          hintCell := Some(Hint(row, col, cellCandidates[0]));
        }
      }
    }
    ScanPrefixIsBest(board, candidates, 81);
    if hintCell.Some? {
      hint := hintCell.value;
    } else {
      hint := NoHint;
    }
  }

  /**
   * `getSudokuHint`: among the empty cells with at least one candidate, the
   * first in row-major order with the fewest candidates, and its smallest
   * candidate, which may be placed there; `NoHint` when there is no such cell.
   */
  method GetSudokuHint(board: array2<int>) returns (hint: Hint)
    requires IsBoard(board)
    ensures hint == NoHint <==> forall r, c :: InBounds(r, c) ==> !Eligible(board, CandidateGrid(board), r, c)
    ensures hint != NoHint ==> BestSoFar(board, CandidateGrid(board), hint, 81)
    ensures hint != NoHint ==> 1 <= hint.value <= 9 && Absent(board, hint.row, hint.col, hint.value)
    ensures hint != NoHint ==> forall d :: 1 <= d < hint.value ==> !Absent(board, hint.row, hint.col, d)
  {
    var candidates := GetCandidates(board);
    hint := ScanForHint(board, candidates);
    if hint != NoHint {
      SmallestCandidate(board, hint.row, hint.col);
    }
  }

  /** The first candidate of an empty cell that has one is its smallest one, and it may be placed there. */
  lemma SmallestCandidate(b: array2<int>, r: int, c: int)
    requires IsBoard(b) && InBounds(r, c) && b[r, c] == Empty && |CandidateList(b, r, c)| > 0
    ensures 1 <= CandidateList(b, r, c)[0] <= 9 && Absent(b, r, c, CandidateList(b, r, c)[0])
    ensures forall d :: 1 <= d < CandidateList(b, r, c)[0] ==> !Absent(b, r, c, d)
  {
    assert CandidateList(b, r, c)[0] in CandidateList(b, r, c);
  }

  /** A full board has no empty cell, so it gets no hint. */
  lemma FullBoardHasNoHint(b: array2<int>)
    requires IsBoard(b) && IsFull(b)
    ensures forall r, c :: InBounds(r, c) ==> !Eligible(b, CandidateGrid(b), r, c)
  {
  }
}
