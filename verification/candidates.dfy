/**
 * `getCandidates`: for every cell, the digits that could still go there.
 *
 * An empty cell's candidates are the digits 1..9 missing from its row, its
 * column and its box, in ascending order; a filled cell's "candidates" are its
 * own value. The source renders each list as a string of digits; here it is
 * the list of those digits.
 *
 * The source keeps the candidates of a cell in a `Set` seeded with 1..9 and
 * deletes every value it meets. A `Set` iterates in insertion order, so it is
 * modelled as a sequence: seeded with the ascending digits and only ever
 * filtered, it stays ascending, which is why the final sort changes nothing.
 */
module Candidates {
  import opened SudokuBoard

  /** Each element is smaller than the ones after it. */
  predicate StrictlyAscending(s: seq<int>) {
    forall i, j :: 0 <= i < j < |s| ==> s[i] < s[j]
  }

  /** Putting a smaller element in front keeps a list strictly ascending. */
  lemma PrependAscending(x: int, s: seq<int>)
    requires StrictlyAscending(s) && forall y :: y in s ==> x < y
    ensures StrictlyAscending([x] + s)
  {
    forall i, j | 0 <= i < j < |s| + 1 ensures ([x] + s)[i] < ([x] + s)[j] {
      assert s[j - 1] in s;
    }
  }

  /** `Set.delete`: `s` without `v`. */
  function Delete(s: seq<int>, v: int): (t: seq<int>)
    ensures forall x :: x in t <==> x in s && x != v
    ensures StrictlyAscending(s) ==> StrictlyAscending(t)
  {
    if s == [] then []
    else if s[0] == v then Delete(s[1..], v)
    else
      var rest := Delete(s[1..], v);
      assert StrictlyAscending(s) ==> StrictlyAscending([s[0]] + rest) by {
        if StrictlyAscending(s) {
          forall x | x in s[1..] ensures s[0] < x {
            var k :| 0 <= k < |s[1..]| && s[1..][k] == x;
            assert s[k + 1] == x;
          }
          PrependAscending(s[0], rest);
        }
      }
      [s[0]] + rest
  }

  /**
   * Reference definition of an empty cell's candidates: the digits d in
   * [from, 9], ascending, that are absent from the row, column and box of
   * (row, col).
   */
  ghost function AbsentDigitsFrom(b: array2<int>, row: int, col: int, from: int): (ds: seq<int>)
    reads b
    requires IsBoard(b) && 1 <= from <= 10
    ensures forall d :: d in ds <==> from <= d <= 9 && Absent(b, row, col, d)
    ensures StrictlyAscending(ds)
    ensures |ds| <= 10 - from
    decreases 10 - from
  {
    if from == 10 then []
    else if Absent(b, row, col, from) then
      var rest := AbsentDigitsFrom(b, row, col, from + 1);
      PrependAscending(from, rest);
      [from] + rest
    else AbsentDigitsFrom(b, row, col, from + 1)
  }

  /** What `getCandidates` reports for cell (r, c). */
  ghost function CandidateList(b: array2<int>, r: int, c: int): seq<int>
    reads b
    requires IsBoard(b) && InBounds(r, c)
  {
    if b[r, c] == Empty then AbsentDigitsFrom(b, r, c, 1) else [b[r, c]]
  }

  /** The head of a non-empty list is one of its elements. */
  lemma HeadIsMember(s: seq<int>)
    ensures s != [] ==> s[0] in s
  {
  }

  /** The 9×9 grid of every cell's `CandidateList`. */
  ghost function CandidateGrid(b: array2<int>): (g: seq<seq<seq<int>>>)
    reads b
    requires IsBoard(b)
    ensures |g| == 9 && forall r :: 0 <= r < 9 ==> |g[r]| == 9
    ensures forall r, c :: InBounds(r, c) ==> g[r][c] == CandidateList(b, r, c)
  {
    seq(9, r reads b => seq(9, c reads b => if InBounds(r, c) then CandidateList(b, r, c) else []))
  }

  /** Two strictly ascending lists with the same elements are the same list. */
  lemma {:induction false} AscendingUnique(s: seq<int>, t: seq<int>)
    requires StrictlyAscending(s) && StrictlyAscending(t)
    requires forall x :: x in s <==> x in t
    ensures s == t
    decreases |s|
  {
    if s != [] && t != [] {
      // the heads are both the least element
      assert s[0] in t && t[0] in s;
      assert s[0] == t[0];
      forall x ensures x in s[1..] <==> x in t[1..] {
        if x in s[1..] {
          assert x in t && x != t[0];
        }
        if x in t[1..] {
          assert x in s && x != s[0];
        }
      }
      AscendingUnique(s[1..], t[1..]);
    } else {
      // an element of the non-empty one would be missing from the empty one
      HeadIsMember(s);
      HeadIsMember(t);
    }
  }

  /** On a blank board every cell may take any digit. */
  lemma BlankBoardCandidates(b: array2<int>, r: int, c: int)
    requires IsBoard(b) && IsBlank(b) && InBounds(r, c)
    ensures CandidateList(b, r, c) == Digits
  {
    forall d ensures d in AbsentDigitsFrom(b, r, c, 1) <==> d in Digits {
      if 1 <= d <= 9 {
        assert Digits[d - 1] == d;
      }
    }
    AscendingUnique(AbsentDigitsFrom(b, r, c, 1), Digits);
  }

  /** `d` is in none of the first n cells of the row and of the column of (row, col). */
  ghost predicate LinesClear(b: array2<int>, row: int, col: int, d: int, n: int)
    reads b
    requires IsBoard(b) && InBounds(row, col) && 0 <= n <= 9
  {
    forall y :: 0 <= y < n ==> b[row, y] != d && b[y, col] != d
  }

  /** `d` is in none of the cells of the box of (row, col) that precede (r, c) in row-major order. */
  ghost predicate BoxClearBefore(b: array2<int>, row: int, col: int, d: int, r: int, c: int)
    reads b
    requires IsBoard(b) && InBounds(row, col)
  {
    forall r2, c2 ::
      3 * (row / 3) <= r2 < 3 * (row / 3) + 3 && 3 * (col / 3) <= c2 < 3 * (col / 3) + 3 && Before(r2, c2, r, c) ==>
        b[r2, c2] != d
  }

  /** The row, the column and the box together are the cells sharing a unit with (row, col). */
  lemma LinesAndBoxAbsent(b: array2<int>, row: int, col: int, d: int)
    requires IsBoard(b) && InBounds(row, col)
    ensures LinesClear(b, row, col, d, 9) && BoxClearBefore(b, row, col, d, 3 * (row / 3) + 3, 3 * (col / 3))
      <==> Absent(b, row, col, d)
  {
  }

  /**
   * The candidates of the empty cell (row, col): start from 1..9, delete every
   * value seen in the row and the column, then every value seen in the box.
   */
  method CellCandidates(board: array2<int>, row: int, col: int) returns (possible: seq<int>)
    requires IsBoard(board) && InBounds(row, col)
    ensures possible == AbsentDigitsFrom(board, row, col, 1)
  {
    possible := Digits;
    assert forall d :: d in possible <==> 1 <= d <= 9 by {
      forall d | 1 <= d <= 9 ensures d in possible {
        assert possible[d - 1] == d;
      }
    }
    for x := 0 to 9
      invariant StrictlyAscending(possible)
      invariant forall d :: d in possible <==> 1 <= d <= 9 && LinesClear(board, row, col, d, x)
    {
      if board[row, x] != Empty {
        possible := Delete(possible, board[row, x]);
      }
      if board[x, col] != Empty {
        possible := Delete(possible, board[x, col]);
      }
    }
    var boxRowStart := 3 * (row / 3);
    var boxColStart := 3 * (col / 3);
    for r := boxRowStart to boxRowStart + 3
      invariant StrictlyAscending(possible)
      invariant forall d :: d in possible <==>
        1 <= d <= 9 && LinesClear(board, row, col, d, 9) && BoxClearBefore(board, row, col, d, r, boxColStart)
    {
      for c := boxColStart to boxColStart + 3
        invariant StrictlyAscending(possible)
        invariant forall d :: d in possible <==>
          1 <= d <= 9 && LinesClear(board, row, col, d, 9) && BoxClearBefore(board, row, col, d, r, c)
      {
        if board[r, c] != Empty {
          possible := Delete(possible, board[r, c]);
        }
      }
    }
    forall d ensures d in possible <==> d in AbsentDigitsFrom(board, row, col, 1) {
      LinesAndBoxAbsent(board, row, col, d);
    }
    AscendingUnique(possible, AbsentDigitsFrom(board, row, col, 1));
  }

  /**
   * `getCandidates`: a 9×9 grid whose cell (r, c) lists the candidates of an
   * empty cell and the value of a filled one.
   */
  method GetCandidates(board: array2<int>) returns (grid: seq<seq<seq<int>>>)
    requires IsBoard(board)
    ensures grid == CandidateGrid(board)
  {
    grid := seq(9, _ => seq(9, _ => []));
    for row := 0 to 9
      invariant |grid| == 9 && forall r :: 0 <= r < 9 ==> |grid[r]| == 9
      invariant forall r, c :: InBounds(r, c) && r < row ==> grid[r][c] == CandidateList(board, r, c)
    {
      for col := 0 to 9
        invariant |grid| == 9 && forall r :: 0 <= r < 9 ==> |grid[r]| == 9
        invariant forall r, c :: InBounds(r, c) && Before(r, c, row, col) ==> grid[r][c] == CandidateList(board, r, c)
      {
        var cell;
        if board[row, col] == Empty {
          cell := CellCandidates(board, row, col);
        } else {
          cell := [board[row, col]];
        }
        grid := grid[row := grid[row][col := cell]];
      }
    }
    GridEquality(grid, CandidateGrid(board));
  }

  /** Two 9×9 grids that agree on every cell are equal. */
  lemma GridEquality(g: seq<seq<seq<int>>>, h: seq<seq<seq<int>>>)
    requires |g| == 9 && (forall r :: 0 <= r < 9 ==> |g[r]| == 9)
    requires |h| == 9 && (forall r :: 0 <= r < 9 ==> |h[r]| == 9)
    requires forall r, c :: InBounds(r, c) ==> g[r][c] == h[r][c]
    ensures g == h
  {
    forall r | 0 <= r < 9 ensures g[r] == h[r] {
      assert forall c :: 0 <= c < 9 ==> g[r][c] == h[r][c];
    }
  }
}
