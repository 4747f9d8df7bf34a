/** Comb sort of Server/Modules/Sorting/CombSortModule.cs: Sort(int[]) sorts a clone of
    its argument in place, Sort(int[], bool) reverses that result for descending order. */
module CombSort {

  predicate Sorted(s: seq<int>) {
    forall i, j :: 0 <= i < j < |s| ==> s[i] <= s[j]
  }

  predicate SortedDescending(s: seq<int>) {
    forall i, j :: 0 <= i < j < |s| ==> s[i] >= s[j]
  }

  /** No element exceeds the one gap places to its right */
  predicate GapOrdered(s: seq<int>, gap: nat) {
    forall i :: 0 <= i && i + gap < |s| ==> s[i] <= s[i + gap]
  }

  lemma {:induction false} AdjacentOrderedChain(s: seq<int>, i: nat, j: nat)
    requires GapOrdered(s, 1) && i <= j < |s|
    ensures s[i] <= s[j]
    decreases j - i
  {
    if i < j {
      AdjacentOrderedChain(s, i + 1, j);
    }
  }

  /** A pass at gap 1 that finds nothing to swap means the whole sequence is sorted */
  lemma AdjacentOrderedIsSorted(s: seq<int>)
    requires GapOrdered(s, 1)
    ensures Sorted(s)
  {
    forall i, j | 0 <= i < j < |s|
      ensures s[i] <= s[j]
    {
      AdjacentOrderedChain(s, i, j);
    }
  }

  /** The next gap, Math.Max(1, (int)(gap / 1.3)), as integer arithmetic: gap * 10 / 13
      is the floor of gap / 1.3 */
  function Shrink(gap: nat): (next: nat)
    requires gap >= 1
    ensures next >= 1
    ensures gap > 1 ==> next < gap
    ensures gap == 1 ==> next == 1
  {
    var q := gap * 10 / 13;
    if q < 1 then 1 else q
  }

  // ---------------------------------------------------------------- the termination measure

  /** How many elements of s are smaller than x */
  function CountBelow(x: int, s: seq<int>): nat {
    if s == [] then 0 else (if s[0] < x then 1 else 0) + CountBelow(x, s[1..])
  }

  /** The number of pairs i < j with s[i] > s[j] */
  function Inversions(s: seq<int>): nat {
    if s == [] then 0 else CountBelow(s[0], s[1..]) + Inversions(s[1..])
  }

  function SwapAdjacent(s: seq<int>, k: nat): seq<int>
    requires k + 1 < |s|
  {
    s[k := s[k + 1]][k + 1 := s[k]]
  }

  lemma {:induction false} CountBelowSwap(x: int, s: seq<int>, k: nat)
    requires k + 1 < |s|
    ensures CountBelow(x, SwapAdjacent(s, k)) == CountBelow(x, s)
  {
    var u := SwapAdjacent(s, k);
    if k == 0 {
      var t := s[2..];
      assert s[1..] == [s[1]] + t && ([s[1]] + t)[1..] == t;
      assert u[1..] == [s[0]] + t && ([s[0]] + t)[1..] == t;
    } else {
      assert u[0] == s[0] && u[1..] == SwapAdjacent(s[1..], k - 1);
      CountBelowSwap(x, s[1..], k - 1);
    }
  }

  /** Swapping an out-of-order adjacent pair removes exactly one inversion */
  lemma {:induction false} SwapRemovesInversion(s: seq<int>, k: nat)
    requires k + 1 < |s| && s[k] > s[k + 1]
    ensures Inversions(SwapAdjacent(s, k)) == Inversions(s) - 1
  {
    var u := SwapAdjacent(s, k);
    if k == 0 {
      var t := s[2..];
      assert s[1..] == [s[1]] + t && ([s[1]] + t)[1..] == t;
      assert u[1..] == [s[0]] + t && ([s[0]] + t)[1..] == t;
    } else {
      assert u[0] == s[0] && u[1..] == SwapAdjacent(s[1..], k - 1);
      CountBelowSwap(s[0], s[1..], k - 1);
      SwapRemovesInversion(s[1..], k - 1);
    }
  }

  // ---------------------------------------------------------------- the reference definition

  lemma SortedCons(h: int, t: seq<int>)
    requires Sorted(t) && (t == [] || h <= t[0])
    ensures Sorted([h] + t)
  {
  }

  function Insert(x: int, s: seq<int>): (r: seq<int>)
    requires Sorted(s)
    ensures Sorted(r) && multiset(r) == multiset(s) + multiset{x}
    ensures |r| == |s| + 1 && (r[0] == x || (s != [] && r[0] == s[0]))
  {
    if s == [] || x <= s[0] then
      SortedCons(x, s);
      [x] + s
    else
      var rest := Insert(x, s[1..]);
      assert s == [s[0]] + s[1..];
      SortedCons(s[0], rest);
      [s[0]] + rest
  }

  /** The sorted rearrangement of s, by insertion sort: the independent definition the
      comb sort is proved against */
  function SortedCopy(s: seq<int>): (r: seq<int>)
    ensures Sorted(r) && multiset(r) == multiset(s)
  {
    if s == [] then []
    else
      assert s == [s[0]] + s[1..];
      Insert(s[0], SortedCopy(s[1..]))
  }

  lemma HeadIsLeast(x: seq<int>, v: int)
    requires Sorted(x) && v in multiset(x)
    ensures x[0] <= v
  {
    var j :| 0 <= j < |x| && x[j] == v;
  }

  /** A multiset has exactly one sorted arrangement */
  lemma {:induction false} SortedPermutationsEqual(x: seq<int>, y: seq<int>)
    requires Sorted(x) && Sorted(y) && multiset(x) == multiset(y)
    ensures x == y
  {
    assert |x| == |multiset(x)| == |multiset(y)| == |y|;
    if x != [] {
      HeadIsLeast(x, y[0]);
      HeadIsLeast(y, x[0]);
      assert x[0] == y[0];
      assert x == [x[0]] + x[1..] && y == [y[0]] + y[1..];
      assert multiset(x) == multiset{x[0]} + multiset(x[1..]);
      assert multiset(y) == multiset{y[0]} + multiset(y[1..]);
      assert multiset(x[1..]) == multiset(x) - multiset{x[0]};
      assert multiset(y[1..]) == multiset(y) - multiset{y[0]};
      SortedPermutationsEqual(x[1..], y[1..]);
    }
  }

  /** Sorting a sorted sequence changes nothing */
  lemma SortedCopyOfSorted(s: seq<int>)
    requires Sorted(s)
    ensures SortedCopy(s) == s
  {
    SortedPermutationsEqual(SortedCopy(s), s);
  }

  /** Sorting is idempotent */
  lemma SortedCopyIdempotent(s: seq<int>)
    ensures SortedCopy(SortedCopy(s)) == SortedCopy(s)
  {
    SortedCopyOfSorted(SortedCopy(s));
  }

  // ---------------------------------------------------------------- reversal

  function Reversed(s: seq<int>): (r: seq<int>)
    ensures |r| == |s| && forall i :: 0 <= i < |s| ==> r[i] == s[|s| - 1 - i]
  {
    if s == [] then [] else [s[|s| - 1]] + Reversed(s[..|s| - 1])
  }

  lemma {:induction false} ReversedPermutes(s: seq<int>)
    ensures multiset(Reversed(s)) == multiset(s)
  {
    if s != [] {
      ReversedPermutes(s[..|s| - 1]);
      assert s == s[..|s| - 1] + [s[|s| - 1]];
    }
  }

  lemma ReversedTwice(s: seq<int>)
    ensures Reversed(Reversed(s)) == s
  {
  }

  /** The descending result: the reverse of the ascending one is the only non-increasing
      rearrangement of s */
  lemma DescendingIsReversedSort(s: seq<int>, d: seq<int>)
    requires SortedDescending(d) && multiset(d) == multiset(s)
    ensures d == Reversed(SortedCopy(s))
  {
    ReversedPermutes(d);
    SortedPermutationsEqual(Reversed(d), SortedCopy(s));
    ReversedTwice(d);
  }

  /** Array.Reverse: swaps the two ends inwards */
  method ReverseInPlace(a: array<int>)
    modifies a
    ensures a[..] == Reversed(old(a[..]))
  {
    var lo, hi := 0, a.Length - 1;
    while lo < hi
      invariant 0 <= lo && hi == a.Length - 1 - lo && lo <= a.Length - lo
      invariant forall k :: 0 <= k < lo ==> a[k] == old(a[a.Length - 1 - k])
      invariant forall k :: hi < k < a.Length ==> a[k] == old(a[a.Length - 1 - k])
      invariant forall k :: lo <= k <= hi ==> a[k] == old(a[k])
    {
      a[lo], a[hi] := a[hi], a[lo];
      lo, hi := lo + 1, hi - 1;
    }
  }

  // ---------------------------------------------------------------- the sort

  /** The tuple assignment (a[i], a[j]) = (a[j], a[i]) */
  method Swap(a: array<int>, i: nat, j: nat)
    requires i < j < a.Length
    modifies a
    ensures a[..] == old(a[..])[i := old(a[j])][j := old(a[i])]
    ensures multiset(a[..]) == multiset(old(a[..]))
  {
    a[i], a[j] := a[j], a[i];
  }

  /** One pass of the inner for loop: compares each element with the one gap places to
      its right and swaps the two when they are out of order */
  method CombPass(a: array<int>, gap: nat) returns (swapped: bool)
    requires gap >= 1
    modifies a
    ensures multiset(a[..]) == multiset(old(a[..]))
    ensures !swapped ==> a[..] == old(a[..]) && GapOrdered(a[..], gap)
    ensures gap == 1 ==> Inversions(a[..]) <= Inversions(old(a[..]))
    ensures gap == 1 && swapped ==> Inversions(a[..]) < Inversions(old(a[..]))
  {
    swapped := false;
    var i := 0;
    while i + gap < a.Length
      invariant 0 <= i && (i + gap <= a.Length || i == 0)
      invariant multiset(a[..]) == multiset(old(a[..]))
      invariant !swapped ==> a[..] == old(a[..])
      invariant !swapped ==> forall j :: 0 <= j < i ==> a[j] <= a[j + gap]
      invariant gap == 1 ==> Inversions(a[..]) + (if swapped then 1 else 0) <= Inversions(old(a[..]))
    {
      if a[i] > a[i + gap] {
        ghost var was := a[..];
        Swap(a, i, i + gap);
        if gap == 1 {
          SwapRemovesInversion(was, i);
          assert a[..] == SwapAdjacent(was, i);
        }
        swapped := true;
      }
      i := i + 1;
    }
  }

  /** Sort(int[]): a new array holding the input's elements in non-decreasing order. The
      caller's array is only read (there is no modifies clause); a null or empty input
      gives an empty array. */
  method Sort(input: array?<int>) returns (sorted: array<int>)
    ensures fresh(sorted)
    ensures input == null ==> sorted.Length == 0
    ensures input != null ==> Sorted(sorted[..]) && multiset(sorted[..]) == multiset(input[..])
    ensures input != null ==> sorted[..] == SortedCopy(input[..])
  {
    if input == null || input.Length == 0 {
      sorted := new int[0];
      if input != null {
        assert sorted[..] == [] == input[..];
      }
      return;
    }
    sorted := new int[input.Length](i requires 0 <= i < input.Length reads input => input[i]);
    assert sorted[..] == input[..];
    if sorted.Length <= 1 {
      SortedPermutationsEqual(sorted[..], SortedCopy(input[..]));
      return;
    }

    var gap := sorted.Length;
    var swapped := true;
    while gap > 1 || swapped
      invariant 1 <= gap <= sorted.Length
      invariant multiset(sorted[..]) == multiset(input[..])
      invariant !swapped ==> GapOrdered(sorted[..], gap)
      decreases gap, Inversions(sorted[..]), if swapped then 1 else 0
    {
      gap := Shrink(gap);
      swapped := CombPass(sorted, gap);
    }
    AdjacentOrderedIsSorted(sorted[..]);
    SortedPermutationsEqual(sorted[..], SortedCopy(input[..]));
  }

  /** Sort(int[], bool): the ascending result, reversed in place when descending order is
      asked for */
  method SortInDirection(input: array?<int>, ascending: bool) returns (sorted: array<int>)
    ensures fresh(sorted)
    ensures input == null ==> sorted.Length == 0
    ensures input != null ==> multiset(sorted[..]) == multiset(input[..])
    ensures input != null && ascending ==> Sorted(sorted[..]) && sorted[..] == SortedCopy(input[..])
    ensures input != null && !ascending ==>
              SortedDescending(sorted[..]) && sorted[..] == Reversed(SortedCopy(input[..]))
  {
    sorted := Sort(input);
    if !ascending {
      ReverseInPlace(sorted);
      if input != null {
        ReversedPermutes(SortedCopy(input[..]));
      }
    }
  }
}
