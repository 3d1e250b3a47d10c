// insertion_sort: sorts a list of ints in place by shifting, charging the
// caller's counter for comparisons and shifts.

module Insertion {
  import opened Counters
  import opened Ordering

  /**
   * What one pass of the inner loop does to the part already handled: scanning
   * from the right, every element greater than key moves one place right, and
   * key lands just after the first element that is not greater.
   */
  function Insert(p: seq<int>, key: int): (r: seq<int>)
    ensures |r| == |p| + 1
  {
    if p == [] || !(key < p[|p| - 1]) then p + [key]
    else Insert(p[..|p| - 1], key) + [p[|p| - 1]]
  }

  /** How many elements that pass shifts: one `trocas` and one extra `comparacoes` each. */
  function Shifts(p: seq<int>, key: int): nat
  {
    if p == [] || !(key < p[|p| - 1]) then 0
    else 1 + Shifts(p[..|p| - 1], key)
  }

  /** The first i elements of s after the outer loop has handled positions 1..i-1. */
  function SortedUpTo(s: seq<int>, i: nat): (r: seq<int>)
    requires i <= |s|
    ensures |r| == i
  {
    if i == 0 then [] else Insert(SortedUpTo(s, i - 1), s[i - 1])
  }

  /** Shifts made while handling positions 1..i-1. */
  function ShiftsUpTo(s: seq<int>, i: nat): nat
    requires i <= |s|
  {
    if i == 0 then 0 else ShiftsUpTo(s, i - 1) + Shifts(SortedUpTo(s, i - 1), s[i - 1])
  }

  /** The list after the outer loop has handled every position of s. */
  function InsertionSorted(s: seq<int>): (r: seq<int>)
    ensures |r| == |s|
  {
    SortedUpTo(s, |s|)
  }

  /** Shifts made over the whole sort of s. */
  function TotalShifts(s: seq<int>): nat
  {
    ShiftsUpTo(s, |s|)
  }

  /** Outer iterations: one per position from 1 to len-1. */
  function OuterPasses(n: nat): nat
  {
    if n == 0 then 0 else n - 1
  }

  /**
   * insertion_sort(arr, contador). Returns the same array, sorted in place;
   * `comparacoes` rises by one per outer pass plus one per shift, `trocas` by one
   * per shift, and nothing else is charged.
   */
  method InsertionSort(a: array<int>, c: Counter) returns (r: array<int>)
    modifies a, c
    ensures r == a
    ensures a[..] == InsertionSorted(old(a[..]))
    ensures Sorted(a[..]) && multiset(a[..]) == multiset(old(a[..]))
    ensures c.comparisons == old(c.comparisons) + OuterPasses(a.Length) + TotalShifts(old(a[..]))
    ensures c.swaps == old(c.swaps) + TotalShifts(old(a[..]))
    ensures c.recursiveCalls == old(c.recursiveCalls) && c.loopSteps == old(c.loopSteps)
    ensures c.backtracks == old(c.backtracks)
  {
    ghost var s := a[..];
    if a.Length == 0 {
      return a;
    }
    var i := 1;
    while i < a.Length
      invariant 1 <= i <= a.Length
      invariant a[..i] == SortedUpTo(s, i) && a[i..] == s[i..]
      invariant c.comparisons == old(c.comparisons) + i - 1 + ShiftsUpTo(s, i)
      invariant c.swaps == old(c.swaps) + ShiftsUpTo(s, i)
      invariant c.recursiveCalls == old(c.recursiveCalls) && c.loopSteps == old(c.loopSteps)
      invariant c.backtracks == old(c.backtracks)
    {
      SortStep(a, i, c, s);
      i := i + 1;
    }
    assert a[..] == a[..i];
    InsertionSortedSorted(s);
    InsertionSortedPermutes(s);
    r := a;
  }

  /** The outer loop's step at position i, stated on the reference definitions. */
  method SortStep(a: array<int>, i: nat, c: Counter, ghost s: seq<int>)
    requires 1 <= i < a.Length == |s|
    requires a[..i] == SortedUpTo(s, i) && a[i..] == s[i..]
    modifies a, c
    ensures a[..i + 1] == SortedUpTo(s, i + 1) && a[i + 1..] == s[i + 1..]
    ensures c.comparisons == old(c.comparisons) + 1 + Shifts(SortedUpTo(s, i), s[i])
    ensures c.swaps == old(c.swaps) + Shifts(SortedUpTo(s, i), s[i])
    ensures c.recursiveCalls == old(c.recursiveCalls) && c.loopSteps == old(c.loopSteps)
    ensures c.backtracks == old(c.backtracks)
  {
    assert a[i] == s[i] by {
      assert a[i..][0] == s[i..][0];
    }
    InsertPass(a, i, c);
    assert a[i + 1..] == old(a[i + 1..]);
  }

  /**
   * One iteration of the outer loop at position i: the key arr[i] is compared
   * once up front, then every element of arr[0..i-1] greater than it is moved one
   * place right (one more comparison and one shift each), and the key is written
   * into the gap without being counted.
   */
  method InsertPass(a: array<int>, i: int, c: Counter)
    requires 1 <= i < a.Length
    modifies a, c
    ensures a[..i + 1] == Insert(old(a[..i]), old(a[i]))
    ensures forall k :: i < k < a.Length ==> a[k] == old(a[k])
    ensures c.comparisons == old(c.comparisons) + 1 + Shifts(old(a[..i]), old(a[i]))
    ensures c.swaps == old(c.swaps) + Shifts(old(a[..i]), old(a[i]))
    ensures c.recursiveCalls == old(c.recursiveCalls) && c.loopSteps == old(c.loopSteps)
    ensures c.backtracks == old(c.backtracks)
  {
    ghost var p := a[..i];
    var key := a[i];
    var j := i - 1;
    c.comparisons := c.comparisons + 1;
    while j >= 0 && key < a[j]
      invariant -1 <= j <= i - 1
      invariant forall k :: 0 <= k <= j ==> a[k] == p[k]
      invariant forall k :: j + 1 <= k < i ==> a[k + 1] == p[k] && key < p[k]
      invariant forall k :: i < k < a.Length ==> a[k] == old(a[k])
      invariant c.comparisons == old(c.comparisons) + 1 + (i - 1 - j)
      invariant c.swaps == old(c.swaps) + (i - 1 - j)
      invariant c.recursiveCalls == old(c.recursiveCalls) && c.loopSteps == old(c.loopSteps)
      invariant c.backtracks == old(c.backtracks)
    {
      c.comparisons := c.comparisons + 1;
      a[j + 1] := a[j];
      c.swaps := c.swaps + 1;
      j := j - 1;
    }
    a[j + 1] := key;
    InsertAtGap(p, key, j + 1, a[..i + 1]);
  }

  /**
   * Where the pass leaves the key: if every element from m on is greater than
   * key and the one before m (if any) is not, the pass shifts exactly the
   * elements from m on and writes key at m.
   */
  lemma {:induction false} InsertGap(p: seq<int>, key: int, m: int)
    requires 0 <= m <= |p|
    requires forall k :: m <= k < |p| ==> key < p[k]
    requires m == 0 || !(key < p[m - 1])
    ensures Insert(p, key) == p[..m] + [key] + p[m..]
    ensures Shifts(p, key) == |p| - m
    decreases |p|
  {
    if m == |p| {
      assert p[..m] == p && p[m..] == [];
    } else {
      var q := p[..|p| - 1];
      InsertGap(q, key, m);
      assert q[..m] == p[..m];
      assert p[m..] == q[m..] + [p[|p| - 1]];
    }
  }

  /** The array after the pass, element by element, is Insert's result. */
  lemma InsertAtGap(p: seq<int>, key: int, m: int, after: seq<int>)
    requires 0 <= m <= |p|
    requires forall k :: m <= k < |p| ==> key < p[k]
    requires m == 0 || !(key < p[m - 1])
    requires |after| == |p| + 1 && after[m] == key
    requires forall k :: 0 <= k < m ==> after[k] == p[k]
    requires forall k :: m <= k < |p| ==> after[k + 1] == p[k]
    ensures after == Insert(p, key)
    ensures Shifts(p, key) == |p| - m
  {
    InsertGap(p, key, m);
    assert after == p[..m] + [key] + p[m..];
  }

  /** A pass adds key and loses nothing. */
  lemma {:induction false} InsertPermutes(p: seq<int>, key: int)
    ensures multiset(Insert(p, key)) == multiset(p) + multiset{key}
    decreases |p|
  {
    if p != [] && key < p[|p| - 1] {
      InsertPermutes(p[..|p| - 1], key);
      assert p == p[..|p| - 1] + [p[|p| - 1]];
    }
  }

  /** The handled prefix is a permutation of the same prefix of the input. */
  lemma {:induction false} SortedUpToPermutes(s: seq<int>, i: nat)
    requires i <= |s|
    ensures multiset(SortedUpTo(s, i)) == multiset(s[..i])
  {
    if i == 0 {
      assert s[..i] == [];
    } else {
      var p := SortedUpTo(s, i - 1);
      SortedUpToPermutes(s, i - 1);
      InsertPermutes(p, s[i - 1]);
      AppendLast(s, i);
      assert SortedUpTo(s, i) == Insert(p, s[i - 1]);
    }
  }

  /** A prefix one longer gains the next element. */
  lemma AppendLast(s: seq<int>, i: nat)
    requires 0 < i <= |s|
    ensures multiset(s[..i]) == multiset(s[..i - 1]) + multiset{s[i - 1]}
  {
    assert s[..i] == s[..i - 1] + [s[i - 1]];
  }

  /** The sort's result is a permutation of its input. */
  lemma InsertionSortedPermutes(s: seq<int>)
    ensures multiset(InsertionSorted(s)) == multiset(s)
  {
    SortedUpToPermutes(s, |s|);
    assert s[..|s|] == s;
  }

  /** One pass keeps a sorted prefix sorted. */
  lemma {:induction false} InsertSorted(p: seq<int>, key: int)
    requires Sorted(p)
    ensures Sorted(Insert(p, key))
    decreases |p|
  {
    if p == [] || !(key < p[|p| - 1]) {
    } else {
      var q := p[..|p| - 1];
      InsertSorted(q, key);
      InsertBounded(q, key, p[|p| - 1]);
    }
  }

  /** A pass over elements bounded by b, with key bounded by b, gives elements bounded by b. */
  lemma {:induction false} InsertBounded(p: seq<int>, key: int, b: int)
    requires forall k :: 0 <= k < |p| ==> p[k] <= b
    requires key <= b
    ensures forall k :: 0 <= k < |p| + 1 ==> Insert(p, key)[k] <= b
    decreases |p|
  {
    if p != [] && key < p[|p| - 1] {
      InsertBounded(p[..|p| - 1], key, b);
    }
  }

  /** The handled prefix is non-decreasing. */
  lemma {:induction false} SortedUpToSorted(s: seq<int>, i: nat)
    requires i <= |s|
    ensures Sorted(SortedUpTo(s, i))
  {
    if i > 0 {
      SortedUpToSorted(s, i - 1);
      InsertSorted(SortedUpTo(s, i - 1), s[i - 1]);
    }
  }

  /** The sort's result is non-decreasing. */
  lemma InsertionSortedSorted(s: seq<int>)
    ensures Sorted(InsertionSorted(s))
  {
    SortedUpToSorted(s, |s|);
  }

  /** On a non-decreasing input every pass leaves its key where it is and shifts nothing. */
  lemma {:induction false} SortedPrefixUnchanged(s: seq<int>, i: nat)
    requires i <= |s| && Sorted(s)
    ensures SortedUpTo(s, i) == s[..i]
    ensures ShiftsUpTo(s, i) == 0
  {
    if i > 0 {
      SortedPrefixUnchanged(s, i - 1);
      var q := s[..i - 1];
      assert q == [] || !(s[i - 1] < q[|q| - 1]);
      assert s[..i] == q + [s[i - 1]];
    }
  }

  /** A non-decreasing input comes out unchanged, with no shifts. */
  lemma SortedInputUnchanged(s: seq<int>)
    requires Sorted(s)
    ensures InsertionSorted(s) == s
    ensures TotalShifts(s) == 0
  {
    SortedPrefixUnchanged(s, |s|);
    assert s[..|s|] == s;
  }

  /**
   * On an already non-decreasing input the inner loop never runs: the sort adds
   * len-1 comparisons and no shifts.
   */
  lemma SortedInputCost(s: seq<int>)
    requires Sorted(s)
    ensures OuterPasses(|s|) + TotalShifts(s) == if |s| == 0 then 0 else |s| - 1
    ensures TotalShifts(s) == 0
  {
    SortedInputUnchanged(s);
  }

  /** A pass shifts at most the whole prefix, and shifts all of it when key is smaller than every element. */
  lemma {:induction false} ShiftsBounds(p: seq<int>, key: int)
    ensures Shifts(p, key) <= |p|
    ensures (forall k :: 0 <= k < |p| ==> key < p[k]) ==> Shifts(p, key) == |p|
    decreases |p|
  {
    if p != [] {
      ShiftsBounds(p[..|p| - 1], key);
    }
  }

  /** Strictly decreasing order: the worst case. */
  predicate StrictlyDecreasing(s: seq<int>)
  {
    forall i, j :: 0 <= i < j < |s| ==> s[i] > s[j]
  }

  /**
   * At most i*(i-1)/2 shifts while handling the first i positions, and exactly
   * that many when the input is strictly decreasing.
   */
  lemma {:induction false} ShiftsUpToBounds(s: seq<int>, i: nat)
    requires i <= |s|
    ensures ShiftsUpTo(s, i) <= i * (i - 1) / 2
    ensures StrictlyDecreasing(s) ==> ShiftsUpTo(s, i) == i * (i - 1) / 2
  {
    if i == 0 {
      assert ShiftsUpTo(s, i) == 0;
    } else {
      var p := SortedUpTo(s, i - 1);
      ShiftsUpToBounds(s, i - 1);
      ShiftsBounds(p, s[i - 1]);
      if StrictlyDecreasing(s) {
        KeyBelowHandled(s, i - 1);
      }
      assert ShiftsUpTo(s, i) == ShiftsUpTo(s, i - 1) + Shifts(p, s[i - 1]);
      assert i * (i - 1) / 2 == (i - 1) * (i - 2) / 2 + (i - 1);
    }
  }

  /** In a strictly decreasing input the next key is below everything already handled. */
  lemma KeyBelowHandled(s: seq<int>, i: nat)
    requires i < |s| && StrictlyDecreasing(s)
    ensures forall k :: 0 <= k < i ==> s[i] < SortedUpTo(s, i)[k]
  {
    var p := SortedUpTo(s, i);
    SortedUpToPermutes(s, i);
    forall k | 0 <= k < i
      ensures s[i] < p[k]
    {
      assert p[k] in multiset(s[..i]);
      var m :| 0 <= m < i && s[..i][m] == p[k];
      assert s[m] == p[k];
    }
  }

  /**
   * At most len*(len-1)/2 shifts on any input, and exactly that many on a
   * strictly decreasing one: the quadratic worst case.
   */
  lemma TotalShiftsBounds(s: seq<int>)
    ensures TotalShifts(s) <= |s| * (|s| - 1) / 2
    ensures StrictlyDecreasing(s) ==> TotalShifts(s) == |s| * (|s| - 1) / 2
  {
    ShiftsUpToBounds(s, |s|);
  }

  /** Sorting twice is sorting once. */
  lemma InsertionSortIdempotent(s: seq<int>)
    ensures InsertionSorted(InsertionSorted(s)) == InsertionSorted(s)
    ensures TotalShifts(InsertionSorted(s)) == 0
  {
    InsertionSortedSorted(s);
    SortedInputUnchanged(InsertionSorted(s));
  }
}
