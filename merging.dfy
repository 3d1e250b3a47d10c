// merge_sort: top-down recursive merge sort that copies the two halves and
// merges them back into the caller's list, charging the caller's counter.

module Merging {
  import opened Counters
  import opened Ordering
  import opened Powers

  /**
   * What the merge loops still write once i elements of l and j elements of r
   * have been placed: while both have elements, the left head goes first only
   * when strictly smaller, so on equal heads the right one is written first;
   * then the rest of whichever remains.
   */
  function MergeFrom(l: seq<int>, r: seq<int>, i: nat, j: nat): (m: seq<int>)
    requires i <= |l| && j <= |r|
    ensures |m| == |l| - i + |r| - j
    decreases |l| - i + |r| - j
  {
    if i == |l| then r[j..]
    else if j == |r| then l[i..]
    else if l[i] < r[j] then [l[i]] + MergeFrom(l, r, i + 1, j)
    else [r[j]] + MergeFrom(l, r, i, j + 1)
  }

  /** Comparisons the merge charges from that point on: one per step while both lists have elements. */
  function ComparisonsFrom(l: seq<int>, r: seq<int>, i: nat, j: nat): nat
    requires i <= |l| && j <= |r|
    decreases |l| - i + |r| - j
  {
    if i == |l| || j == |r| then 0
    else if l[i] < r[j] then 1 + ComparisonsFrom(l, r, i + 1, j)
    else 1 + ComparisonsFrom(l, r, i, j + 1)
  }

  /** The whole merge of l and r. */
  function Merge(l: seq<int>, r: seq<int>): (m: seq<int>)
    ensures |m| == |l| + |r|
  {
    MergeFrom(l, r, 0, 0)
  }

  /** Comparisons the whole merge charges. */
  function MergeComparisons(l: seq<int>, r: seq<int>): nat
  {
    ComparisonsFrom(l, r, 0, 0)
  }

  /** The list merge_sort leaves: split at len // 2, sort both halves, merge. */
  function MergeSorted(s: seq<int>): (r: seq<int>)
    ensures |r| == |s|
    decreases |s|
  {
    if |s| <= 1 then s
    else Merge(MergeSorted(s[..|s| / 2]), MergeSorted(s[|s| / 2..]))
  }

  /** All comparisons charged by merge_sort on s, over every merge of the recursion. */
  function MergeSortComparisons(s: seq<int>): nat
    decreases |s|
  {
    if |s| <= 1 then 0
    else
      MergeSortComparisons(s[..|s| / 2]) + MergeSortComparisons(s[|s| / 2..])
      + MergeComparisons(MergeSorted(s[..|s| / 2]), MergeSorted(s[|s| / 2..]))
  }

  /** Invocations of merge_sort on a list of length n, counting itself and every base case. */
  function Calls(n: nat): nat
  {
    if n <= 1 then 1 else 1 + Calls(n / 2) + Calls(n - n / 2)
  }

  /** Levels of splitting below a list of length n (the longer half is the deeper one). */
  function Depth(n: nat): nat
  {
    if n <= 1 then 0 else 1 + Depth(n - n / 2)
  }

  /**
   * merge_sort(arr, contador). Returns the same array, sorted in place through
   * the merge; `chamadas_recursivas` rises once per invocation and
   * `comparacoes` once per step of every two-sided merge loop.
   */
  method MergeSort(a: array<int>, c: Counter) returns (r: array<int>)
    modifies a, c
    ensures r == a
    ensures a[..] == MergeSorted(old(a[..]))
    ensures Sorted(a[..]) && multiset(a[..]) == multiset(old(a[..]))
    ensures c.comparisons == old(c.comparisons) + MergeSortComparisons(old(a[..]))
    ensures c.recursiveCalls == old(c.recursiveCalls) + Calls(a.Length)
    ensures c.recursiveCalls == old(c.recursiveCalls) + (if a.Length == 0 then 1 else 2 * a.Length - 1)
    ensures c.swaps == old(c.swaps) && c.loopSteps == old(c.loopSteps) && c.backtracks == old(c.backtracks)
    decreases a.Length
  {
    ghost var s := a[..];
    c.recursiveCalls := c.recursiveCalls + 1;
    if a.Length > 1 {
      var mid := a.Length / 2;
      var left := new int[mid](k requires 0 <= k < mid reads a => a[k]);
      var right := new int[a.Length - mid](k requires 0 <= k < a.Length - mid reads a => a[mid + k]);
      assert left[..] == s[..mid];
      assert right[..] == s[mid..];
      var _ := MergeSort(left, c);
      var _ := MergeSort(right, c);
      MergeHalves(a, left, right, c);
      SortedSplits(s);
      CostSplits(s);
    } else {
      assert MergeSorted(s) == s && MergeSortComparisons(s) == 0 && Calls(a.Length) == 1;
    }
    CallsClosedForm(a.Length);
    MergeSortedSorted(s);
    MergeSortedPermutes(s);
    r := a;
  }

  /**
   * The three merge loops of merge_sort: indices i, j, k walk the left half,
   * the right half and arr; one comparison is charged per step of the first
   * loop, none in the two loops that copy what is left.
   */
  method MergeHalves(a: array<int>, left: array<int>, right: array<int>, c: Counter)
    requires a != left && a != right
    requires a.Length == left.Length + right.Length
    modifies a, c
    ensures a[..] == Merge(left[..], right[..])
    ensures c.comparisons == old(c.comparisons) + MergeComparisons(left[..], right[..])
    ensures c.swaps == old(c.swaps) && c.recursiveCalls == old(c.recursiveCalls)
    ensures c.loopSteps == old(c.loopSteps) && c.backtracks == old(c.backtracks)
  {
    ghost var l, r := left[..], right[..];
    ghost var m := Merge(l, r);
    var i, j, k := 0, 0, 0;
    assert m[k..] == m;
    while i < left.Length && j < right.Length
      invariant 0 <= i <= left.Length && 0 <= j <= right.Length && k == i + j
      invariant forall t :: 0 <= t < k ==> a[t] == m[t]
      invariant m[k..] == MergeFrom(l, r, i, j)
      invariant c.comparisons + ComparisonsFrom(l, r, i, j) == old(c.comparisons) + MergeComparisons(l, r)
      invariant c.swaps == old(c.swaps) && c.recursiveCalls == old(c.recursiveCalls)
      invariant c.loopSteps == old(c.loopSteps) && c.backtracks == old(c.backtracks)
    {
      c.comparisons := c.comparisons + 1;
      if left[i] < right[j] {
        a[k] := left[i];
        Advance(m, k, l[i], MergeFrom(l, r, i + 1, j));
        i := i + 1;
      } else {
        a[k] := right[j];
        Advance(m, k, r[j], MergeFrom(l, r, i, j + 1));
        j := j + 1;
      }
      k := k + 1;
    }
    if i < left.Length {
      CopyTail(a, left, i, k);
    } else {
      CopyTail(a, right, j, k);
    }
    assert a[..] == m;
  }

  /**
   * The two closing loops of the merge (one for each half, never both doing
   * work): copy what is left of src from index i into arr from index k, with
   * no comparison charged.
   */
  method CopyTail(a: array<int>, src: array<int>, i: int, k: int)
    requires a != src
    requires 0 <= i <= src.Length && 0 <= k && a.Length - k == src.Length - i
    modifies a
    ensures forall t :: 0 <= t < k ==> a[t] == old(a[t])
    ensures a[k..] == src[i..]
  {
    var i', k' := i, k;
    while i' < src.Length
      invariant i <= i' <= src.Length && k' == k + (i' - i)
      invariant forall t :: 0 <= t < k ==> a[t] == old(a[t])
      invariant forall t :: k <= t < k' ==> a[t] == src[t - k + i]
    {
      a[k'] := src[i'];
      i', k' := i' + 1, k' + 1;
    }
  }

  /** Writing the head of the remaining merge moves k one place on. */
  lemma Advance(m: seq<int>, k: int, x: int, rest: seq<int>)
    requires 0 <= k < |m| && m[k..] == [x] + rest
    ensures m[k] == x && m[k + 1..] == rest
  {
    assert m[k..][0] == m[k];
    assert m[k..][1..] == m[k + 1..];
  }

  /** Every element still to be merged is bounded below by any common lower bound of what remains. */
  lemma {:induction false} MergeFromLowerBound(l: seq<int>, r: seq<int>, i: nat, j: nat, b: int)
    requires i <= |l| && j <= |r|
    requires forall k :: i <= k < |l| ==> b <= l[k]
    requires forall k :: j <= k < |r| ==> b <= r[k]
    ensures forall t :: 0 <= t < |MergeFrom(l, r, i, j)| ==> b <= MergeFrom(l, r, i, j)[t]
    decreases |l| - i + |r| - j
  {
    if i < |l| && j < |r| {
      if l[i] < r[j] {
        MergeFromLowerBound(l, r, i + 1, j, b);
      } else {
        MergeFromLowerBound(l, r, i, j + 1, b);
      }
    }
  }

  /** Merging what remains of two non-decreasing lists gives a non-decreasing list. */
  lemma {:induction false} MergeFromSorted(l: seq<int>, r: seq<int>, i: nat, j: nat)
    requires i <= |l| && j <= |r|
    requires Sorted(l) && Sorted(r)
    ensures Sorted(MergeFrom(l, r, i, j))
    decreases |l| - i + |r| - j
  {
    if i < |l| && j < |r| {
      if l[i] < r[j] {
        MergeFromSorted(l, r, i + 1, j);
        MergeFromLowerBound(l, r, i + 1, j, l[i]);
        ConsSorted(l[i], MergeFrom(l, r, i + 1, j));
      } else {
        MergeFromSorted(l, r, i, j + 1);
        MergeFromLowerBound(l, r, i, j + 1, r[j]);
        ConsSorted(r[j], MergeFrom(l, r, i, j + 1));
      }
    } else if i == |l| {
      SuffixSorted(r, j);
    } else {
      SuffixSorted(l, i);
    }
  }

  /** The merge keeps every remaining element of both inputs, and nothing else. */
  lemma {:induction false} MergeFromPermutes(l: seq<int>, r: seq<int>, i: nat, j: nat)
    requires i <= |l| && j <= |r|
    ensures multiset(MergeFrom(l, r, i, j)) == multiset(l[i..]) + multiset(r[j..])
    decreases |l| - i + |r| - j
  {
    if i < |l| && j < |r| {
      if l[i] < r[j] {
        MergeFromPermutes(l, r, i + 1, j);
        TakeHead(l[i], MergeFrom(l, r, i + 1, j), l[i..], l[i + 1..], multiset(r[j..]));
      } else {
        MergeFromPermutes(l, r, i, j + 1);
        TakeHead(r[j], MergeFrom(l, r, i, j + 1), r[j..], r[j + 1..], multiset(l[i..]));
      }
    } else if i == |l| {
      assert l[i..] == [];
    } else {
      assert r[j..] == [];
    }
  }

  /** Placing the head x of a list in front of the merge of what remains keeps the same multiset. */
  lemma TakeHead(x: int, rest: seq<int>, whole: seq<int>, tail: seq<int>, other: multiset<int>)
    requires whole == [x] + tail
    requires multiset(rest) == multiset(tail) + other
    ensures multiset([x] + rest) == multiset(whole) + other
  {
  }

  /** Merging two non-decreasing lists gives a non-decreasing list. */
  lemma MergeKeepsSorted(l: seq<int>, r: seq<int>)
    requires Sorted(l) && Sorted(r)
    ensures Sorted(Merge(l, r))
  {
    MergeFromSorted(l, r, 0, 0);
  }

  /** The merge keeps every element of both inputs, and nothing else. */
  lemma MergePermutes(l: seq<int>, r: seq<int>)
    ensures multiset(Merge(l, r)) == multiset(l) + multiset(r)
  {
    MergeFromPermutes(l, r, 0, 0);
    assert l[0..] == l && r[0..] == r;
  }

  /** merge_sort leaves its list non-decreasing. */
  lemma {:induction false} MergeSortedSorted(s: seq<int>)
    ensures Sorted(MergeSorted(s))
    decreases |s|
  {
    if |s| > 1 {
      MergeSortedSorted(s[..|s| / 2]);
      MergeSortedSorted(s[|s| / 2..]);
      MergeKeepsSorted(MergeSorted(s[..|s| / 2]), MergeSorted(s[|s| / 2..]));
    } else {
      assert MergeSorted(s) == s;
    }
  }

  /** merge_sort leaves a permutation of its input. */
  lemma {:induction false} MergeSortedPermutes(s: seq<int>)
    ensures multiset(MergeSorted(s)) == multiset(s)
    decreases |s|
  {
    if |s| > 1 {
      var l, r := s[..|s| / 2], s[|s| / 2..];
      MergeSortedPermutes(l);
      MergeSortedPermutes(r);
      MergePermutes(MergeSorted(l), MergeSorted(r));
      JoinHalves(s, l, r, MergeSorted(l), MergeSorted(r), MergeSorted(s));
    } else {
      assert MergeSorted(s) == s;
    }
  }

  /** If each half was sorted into a permutation of itself, merging them permutes the whole. */
  lemma JoinHalves(s: seq<int>, l: seq<int>, r: seq<int>, ml: seq<int>, mr: seq<int>, m: seq<int>)
    requires s == l + r
    requires multiset(ml) == multiset(l) && multiset(mr) == multiset(r)
    requires multiset(m) == multiset(ml) + multiset(mr)
    ensures multiset(m) == multiset(s)
  {
  }

  /**
   * Each comparison of the merge places exactly one element, and once one side
   * is used up no comparison is charged: from any point, with both sides
   * non-empty, the merge charges at least what is left of the shorter side and
   * at most one less than all that is left.
   */
  lemma {:induction false} ComparisonsFromBounds(l: seq<int>, r: seq<int>, i: nat, j: nat)
    requires i <= |l| && j <= |r|
    ensures i == |l| || j == |r| ==> ComparisonsFrom(l, r, i, j) == 0
    ensures i < |l| && j < |r| ==>
      (if |l| - i < |r| - j then |l| - i else |r| - j) <= ComparisonsFrom(l, r, i, j) <= |l| - i + |r| - j - 1
    decreases |l| - i + |r| - j
  {
    if i < |l| && j < |r| {
      if l[i] < r[j] {
        ComparisonsFromBounds(l, r, i + 1, j);
      } else {
        ComparisonsFromBounds(l, r, i, j + 1);
      }
    }
  }

  /** One merge of two non-empty lists charges between min(|l|, |r|) and len-1 comparisons. */
  lemma MergeComparisonsBounds(l: seq<int>, r: seq<int>)
    ensures l == [] || r == [] ==> MergeComparisons(l, r) == 0
    ensures l != [] && r != [] ==>
      (if |l| < |r| then |l| else |r|) <= MergeComparisons(l, r) <= |l| + |r| - 1
  {
    ComparisonsFromBounds(l, r, 0, 0);
  }

  /** Every call charges once, base cases included: 2n - 1 calls for n >= 1, one for n == 0. */
  lemma {:induction false} CallsClosedForm(n: nat)
    ensures Calls(n) == if n == 0 then 1 else 2 * n - 1
  {
    if n > 1 {
      var h := n / 2;
      assert 1 <= h < n && 1 <= n - h < n;
      CallsClosedForm(h);
      CallsClosedForm(n - h);
      assert Calls(n) == 1 + Calls(h) + Calls(n - h);
    } else {
      assert Calls(n) == 1;
    }
  }

  /** A longer list is split at least as many times. */
  lemma {:induction false} DepthMonotone(m: nat, n: nat)
    requires m <= n
    ensures Depth(m) <= Depth(n)
  {
    if m > 1 {
      DepthMonotone(m - m / 2, n - n / 2);
    }
  }

  /** The most comparisons merge_sort can charge on a list of length n: len - 1 per two-sided merge. */
  function WorstCase(n: nat): nat
  {
    if n <= 1 then 0 else WorstCase(n / 2) + WorstCase(n - n / 2) + n - 1
  }

  lemma WorstCaseSplits(n: nat)
    requires n > 1
    ensures WorstCase(n) == WorstCase(n / 2) + WorstCase(n - n / 2) + n - 1
  {
  }

  /** Whatever the values, merge_sort charges no more than the worst case for the length. */
  lemma {:induction false} MergeSortComparisonsWorstCase(s: seq<int>)
    ensures MergeSortComparisons(s) <= WorstCase(|s|)
    decreases |s|
  {
    if |s| > 1 {
      var h := |s| / 2;
      var l, r := s[..h], s[h..];
      var ml, mr := MergeSorted(l), MergeSorted(r);
      MergeSortComparisonsWorstCase(l);
      MergeSortComparisonsWorstCase(r);
      MergeComparisonsBounds(ml, mr);
      CostSplits(s);
      WorstCaseSplits(|s|);
      var cl, cr, cm := MergeSortComparisons(l), MergeSortComparisons(r), MergeComparisons(ml, mr);
      assert cl <= WorstCase(h) && cr <= WorstCase(|s| - h) && cm <= |s| - 1;
      assert MergeSortComparisons(s) == cl + cr + cm;
    } else {
      assert MergeSortComparisons(s) == 0;
    }
  }

  /** merge_sort's result on a list longer than one: the merge of its sorted halves. */
  lemma SortedSplits(s: seq<int>)
    requires |s| > 1
    ensures MergeSorted(s) == Merge(MergeSorted(s[..|s| / 2]), MergeSorted(s[|s| / 2..]))
  {
  }

  /** merge_sort's comparisons on a list longer than one: both halves' plus their merge. */
  lemma CostSplits(s: seq<int>)
    requires |s| > 1
    ensures MergeSortComparisons(s) ==
      MergeSortComparisons(s[..|s| / 2]) + MergeSortComparisons(s[|s| / 2..])
      + MergeComparisons(MergeSorted(s[..|s| / 2]), MergeSorted(s[|s| / 2..]))
  {
  }

  /** No more than len comparisons per level of splitting: the n log n bound. */
  lemma {:induction false} WorstCaseBound(n: nat)
    ensures WorstCase(n) <= n * Depth(n)
  {
    if n > 1 {
      var mid := n / 2;
      WorstCaseBound(mid);
      WorstCaseBound(n - mid);
      DepthMonotone(mid, n - mid);
      WorstCaseSplits(n);
      assert Depth(n) == Depth(n - mid) + 1;
      LevelArithmetic(mid, n, Depth(mid), Depth(n - mid), Depth(n), WorstCase(mid), WorstCase(n - mid), n - 1);
    } else {
      assert WorstCase(n) == 0;
    }
  }

  /** Comparisons of merge_sort on s are at most |s| times the splitting depth. */
  lemma MergeSortComparisonsBound(s: seq<int>)
    ensures MergeSortComparisons(s) <= |s| * Depth(|s|)
  {
    MergeSortComparisonsWorstCase(s);
    WorstCaseBound(|s|);
  }

  /** One level of the bound: halves within their own bounds plus one merge stay within n per level. */
  lemma LevelArithmetic(mid: nat, n: nat, dm: nat, d: nat, dn: nat, a: nat, b: nat, c: nat)
    requires mid <= n && dm <= d && dn == d + 1
    requires a <= mid * dm && b <= (n - mid) * d && c <= n
    ensures a + b + c <= n * dn
  {
    MultiplyMonotone(mid, dm, d);
    assert mid * d + (n - mid) * d == n * d;
    assert n * (d + 1) == n * d + n;
  }

  lemma {:induction false} MultiplyMonotone(x: nat, a: nat, b: nat)
    requires a <= b
    ensures x * a <= x * b
  {
    if x > 0 {
      MultiplyMonotone(x - 1, a, b);
      assert x * a == (x - 1) * a + a;
      assert x * b == (x - 1) * b + b;
    }
  }

  /** Depth is the base-2 logarithm of the length, rounded up. */
  lemma {:induction false} DepthIsLog(n: nat)
    requires n >= 1
    ensures Pow2(Depth(n)) >= n
    ensures Depth(n) > 0 ==> Pow2(Depth(n) - 1) < n
  {
    if n > 1 {
      DepthIsLog(n - n / 2);
    }
  }

  /** On a list that is already sorted merge_sort changes nothing, so sorting twice is sorting once. */
  lemma SortedInputFixed(s: seq<int>)
    requires Sorted(s)
    ensures MergeSorted(s) == s
  {
    MergeSortedSorted(s);
    MergeSortedPermutes(s);
    SortedPermutationUnique(MergeSorted(s), s);
  }

  lemma MergeSortIdempotent(s: seq<int>)
    ensures MergeSorted(MergeSorted(s)) == MergeSorted(s)
  {
    MergeSortedSorted(s);
    SortedInputFixed(MergeSorted(s));
  }
}
