/**
 * The in-place Fisher–Yates shuffle and the shuffled digits it yields.
 *
 * `Math.random` is not modelled as a distribution: every draw is an arbitrary
 * choice within its range (`RandomBelow`). A shuffle is described by the list
 * of swaps it performed, which pins down the result exactly.
 */
module Shuffling {
  import opened SudokuBoard

  /** `Math.floor(Math.random() * n)`: some integer in [0, n). */
  method RandomBelow(n: int) returns (j: int)
    requires n > 0
    ensures 0 <= j < n
  {
    j :| 0 <= j < n;
  }

  /** `s` with the elements at i and j exchanged. */
  function Swap<T>(s: seq<T>, i: int, j: int): (t: seq<T>)
    requires 0 <= i < |s| && 0 <= j < |s|
    ensures |t| == |s| && multiset(t) == multiset(s)
  {
    s[i := s[j]][j := s[i]]
  }

  /** Every swap of the list names two indexes of a sequence of length n. */
  predicate SwapsInRange(swaps: seq<(int, int)>, n: int) {
    forall k :: 0 <= k < |swaps| ==> 0 <= swaps[k].0 < n && 0 <= swaps[k].1 < n
  }

  /**
   * The swap schedule of Fisher–Yates on n elements: the k-th swap exchanges
   * index i = n - 1 - k with some j in [0, i], for i from n - 1 down to 1.
   */
  predicate FisherYatesSchedule(swaps: seq<(int, int)>, n: int) {
    |swaps| == (if n > 1 then n - 1 else 0) &&
    forall k :: 0 <= k < |swaps| ==> swaps[k].0 == n - 1 - k && 0 <= swaps[k].1 <= swaps[k].0
  }

  /** The result of performing the swaps on `s`, in order. */
  function ApplySwaps<T>(s: seq<T>, swaps: seq<(int, int)>): (t: seq<T>)
    requires SwapsInRange(swaps, |s|)
    ensures |t| == |s|
    decreases |swaps|
  {
    if swaps == [] then s
    else
      var last := swaps[|swaps| - 1];
      Swap(ApplySwaps(s, swaps[..|swaps| - 1]), last.0, last.1)
  }

  /** Performing one more swap swaps the result of the earlier ones. */
  lemma ApplySwapsSnoc<T>(s: seq<T>, swaps: seq<(int, int)>, i: int, j: int)
    requires SwapsInRange(swaps, |s|) && 0 <= i < |s| && 0 <= j < |s|
    ensures SwapsInRange(swaps + [(i, j)], |s|)
    ensures ApplySwaps(s, swaps + [(i, j)]) == Swap(ApplySwaps(s, swaps), i, j)
  {
    assert (swaps + [(i, j)])[..|swaps|] == swaps;
  }

  /** Performing swaps permutes: the multiset of elements is unchanged. */
  lemma {:induction false} ApplySwapsPermutes<T>(s: seq<T>, swaps: seq<(int, int)>)
    requires SwapsInRange(swaps, |s|)
    ensures multiset(ApplySwaps(s, swaps)) == multiset(s)
    decreases |swaps|
  {
    if swaps != [] {
      ApplySwapsPermutes(s, swaps[..|swaps| - 1]);
    }
  }

  /** No element occurs at two indexes. */
  ghost predicate Distinct<T>(s: seq<T>) {
    forall i, j :: 0 <= i < j < |s| ==> s[i] != s[j]
  }

  /** Performing swaps on a sequence without repetitions leaves none. */
  lemma {:induction false} ApplySwapsKeepsDistinct<T>(s: seq<T>, swaps: seq<(int, int)>)
    requires SwapsInRange(swaps, |s|) && Distinct(s)
    ensures Distinct(ApplySwaps(s, swaps))
    decreases |swaps|
  {
    if swaps != [] {
      var last := swaps[|swaps| - 1];
      var prefix := swaps[..|swaps| - 1];
      ApplySwapsKeepsDistinct(s, prefix);
      var u := ApplySwaps(s, prefix);
      var t := Swap(u, last.0, last.1);
      assert t == ApplySwaps(s, swaps);
      forall i, j | 0 <= i < j < |t| ensures t[i] != t[j] {
        // each index of t reads the index of u that the swap moved to it
        var i' := if i == last.0 then last.1 else if i == last.1 then last.0 else i;
        var j' := if j == last.0 then last.1 else if j == last.1 then last.0 else j;
        assert t[i] == u[i'] && t[j] == u[j'] && i' != j';
      }
    }
  }

  /**
   * `shuffle`: for i from the last index down to 1, exchange a[i] with a[j]
   * for a drawn j in [0, i]. The array ends as the drawn swap schedule
   * applied to its old contents, a permutation of them.
   */
  method Shuffle<T>(a: array<T>) returns (ghost swaps: seq<(int, int)>)
    modifies a
    ensures FisherYatesSchedule(swaps, a.Length) && SwapsInRange(swaps, a.Length)
    ensures a[..] == ApplySwaps(old(a[..]), swaps)
    ensures multiset(a[..]) == multiset(old(a[..]))
  {
    swaps := [];
    var i := a.Length - 1;
    while i > 0
      invariant -1 <= i < a.Length && (a.Length > 0 ==> 0 <= i)
      invariant |swaps| == a.Length - 1 - i
      invariant forall k :: 0 <= k < |swaps| ==> swaps[k].0 == a.Length - 1 - k && 0 <= swaps[k].1 <= swaps[k].0
      invariant SwapsInRange(swaps, a.Length)
      invariant a[..] == ApplySwaps(old(a[..]), swaps)
    {
      var j := RandomBelow(i + 1);
      ghost var before := a[..];
      a[i], a[j] := a[j], a[i];
      assert a[..] == Swap(before, i, j);
      ApplySwapsSnoc(old(a[..]), swaps, i, j);
      swaps := swaps + [(i, j)];
      i := i - 1;
    }
    ApplySwapsPermutes(old(a[..]), swaps);
  }

  /** A rearrangement of the digits holds only digits. */
  lemma DigitsPermutationInRange(s: seq<int>)
    requires multiset(s) == multiset(Digits)
    ensures |s| == 9 && forall k :: 0 <= k < |s| ==> 1 <= s[k] <= 9
  {
    assert |s| == |multiset(s)| == |multiset(Digits)| == 9;
    forall k | 0 <= k < |s| ensures 1 <= s[k] <= 9 {
      assert s[k] in multiset(s);
      var i :| 0 <= i < 9 && Digits[i] == s[k];
    }
  }

  /** `generateShuffledNumbers`: the digits 1..9 in a shuffled order. */
  method GenerateShuffledNumbers() returns (numbers: seq<int>)
    ensures multiset(numbers) == multiset(Digits)
    ensures |numbers| == 9 && forall k :: 0 <= k < 9 ==> 1 <= numbers[k] <= 9
  {
    var a := new int[] [1, 2, 3, 4, 5, 6, 7, 8, 9];
    assert a[..] == Digits;
    ghost var swaps := Shuffle(a);
    numbers := a[..];
    DigitsPermutationInRange(numbers);
  }
}
