// binary_search: iterative search of a list the caller promises is sorted,
// charging two comparisons per probe that misses and one for the probe that hits.

module Searching {
  import opened Counters
  import opened Ordering
  import opened Powers

  /** Where the search ends (-1 when it gives up) and how many probes it makes. */
  datatype Probe = Probe(index: int, rounds: nat)

  /**
   * The search loop from the window lo..hi (inclusive) on: probe the floor
   * midpoint, return it on equality, otherwise keep the upper half when the
   * probed value is smaller than the target and the lower half when it is not.
   */
  function Search(s: seq<int>, target: int, lo: int, hi: int): (p: Probe)
    requires 0 <= lo && hi < |s| && lo <= hi + 1
    ensures p.index == -1 || (lo <= p.index <= hi && s[p.index] == target)
    decreases hi - lo + 1
  {
    if lo > hi then Probe(-1, 0)
    else
      var mid := (lo + hi) / 2;
      if s[mid] == target then Probe(mid, 1)
      else
        var rest := if s[mid] < target then Search(s, target, mid + 1, hi) else Search(s, target, lo, mid - 1);
        Probe(rest.index, rest.rounds + 1)
  }

  /** Comparisons charged for a search: two per probe, less one when the last probe hits. */
  function Charged(p: Probe): int
  {
    if p.index == -1 then 2 * p.rounds else 2 * p.rounds - 1
  }

  /**
   * binary_search(arr_ordenado, alvo, contador): the index of a probe that
   * equals the target, or -1; only `comparacoes` changes.
   */
  method BinarySearch(s: seq<int>, target: int, c: Counter) returns (r: int)
    modifies c
    ensures r == Search(s, target, 0, |s| - 1).index
    ensures r == -1 || (0 <= r < |s| && s[r] == target)
    ensures Sorted(s) && r == -1 ==> target !in s
    ensures c.comparisons == old(c.comparisons) + Charged(Search(s, target, 0, |s| - 1))
    ensures c.swaps == old(c.swaps) && c.recursiveCalls == old(c.recursiveCalls)
    ensures c.loopSteps == old(c.loopSteps) && c.backtracks == old(c.backtracks)
  {
    ghost var whole := Search(s, target, 0, |s| - 1);
    ghost var done := 0;
    var lo, hi := 0, |s| - 1;
    while lo <= hi
      invariant 0 <= lo && hi < |s| && lo <= hi + 1
      invariant Search(s, target, lo, hi).index == whole.index
      invariant done + Search(s, target, lo, hi).rounds == whole.rounds
      invariant c.comparisons == old(c.comparisons) + 2 * done
      invariant c.swaps == old(c.swaps) && c.recursiveCalls == old(c.recursiveCalls)
      invariant c.loopSteps == old(c.loopSteps) && c.backtracks == old(c.backtracks)
      decreases hi - lo
    {
      var mid := (lo + hi) / 2;
      c.comparisons := c.comparisons + 1;
      if s[mid] == target {
        return mid;
      }
      c.comparisons := c.comparisons + 1;
      if s[mid] < target {
        SearchGoesRight(s, target, lo, hi, mid);
        lo := mid + 1;
      } else {
        SearchGoesLeft(s, target, lo, hi, mid);
        hi := mid - 1;
      }
      done := done + 1;
    }
    if Sorted(s) {
      AbsentWhenMissed(s, target);
    }
    r := -1;
  }

  /** A probe below the target: the search goes on in the upper half, one probe more. */
  lemma SearchGoesRight(s: seq<int>, target: int, lo: int, hi: int, mid: int)
    requires 0 <= lo <= hi < |s| && mid == (lo + hi) / 2 && s[mid] < target
    ensures Search(s, target, lo, hi).index == Search(s, target, mid + 1, hi).index
    ensures Search(s, target, lo, hi).rounds == Search(s, target, mid + 1, hi).rounds + 1
  {
  }

  /** A probe above the target: the search goes on in the lower half, one probe more. */
  lemma SearchGoesLeft(s: seq<int>, target: int, lo: int, hi: int, mid: int)
    requires 0 <= lo <= hi < |s| && mid == (lo + hi) / 2 && s[mid] != target && !(s[mid] < target)
    ensures Search(s, target, lo, hi).index == Search(s, target, lo, mid - 1).index
    ensures Search(s, target, lo, hi).rounds == Search(s, target, lo, mid - 1).rounds + 1
  {
  }

  /** On a sorted list a search that gives up has seen every place the target could be: it is absent. */
  lemma AbsentWhenMissed(s: seq<int>, target: int)
    requires Sorted(s) && Search(s, target, 0, |s| - 1).index == -1
    ensures target !in s
  {
    SearchMissesOnlyWhenAbsent(s, target, 0, |s| - 1);
  }

  /** On a sorted list the search gives up only when the target is nowhere in the window. */
  lemma {:induction false} SearchMissesOnlyWhenAbsent(s: seq<int>, target: int, lo: int, hi: int)
    requires 0 <= lo && hi < |s| && lo <= hi + 1
    requires Sorted(s)
    ensures Search(s, target, lo, hi).index == -1 <==> forall k :: lo <= k <= hi ==> s[k] != target
    decreases hi - lo + 1
  {
    if lo <= hi {
      var mid := (lo + hi) / 2;
      if s[mid] == target {
        assert Search(s, target, lo, hi).index == mid;
      } else if s[mid] < target {
        SearchGoesRight(s, target, lo, hi, mid);
        SearchMissesOnlyWhenAbsent(s, target, mid + 1, hi);
        BelowProbe(s, target, lo, mid);
      } else {
        SearchGoesLeft(s, target, lo, hi, mid);
        SearchMissesOnlyWhenAbsent(s, target, lo, mid - 1);
        AboveProbe(s, target, mid, hi);
      }
    }
  }

  /** On a sorted list, a probe below the target rules out everything from lo up to it. */
  lemma BelowProbe(s: seq<int>, target: int, lo: int, mid: int)
    requires 0 <= lo <= mid < |s| && Sorted(s) && s[mid] < target
    ensures forall k :: lo <= k <= mid ==> s[k] != target
  {
  }

  /** On a sorted list, a probe above the target rules out everything from it up to hi. */
  lemma AboveProbe(s: seq<int>, target: int, mid: int, hi: int)
    requires 0 <= mid <= hi < |s| && Sorted(s) && target < s[mid]
    ensures forall k :: mid <= k <= hi ==> s[k] != target
  {
  }

  /** Each missed probe at least halves the window: the number of probes is at most floor(log2(len)) + 1. */
  lemma {:induction false} SearchRoundsLogarithmic(s: seq<int>, target: int, lo: int, hi: int)
    requires 0 <= lo && hi < |s| && lo <= hi + 1
    ensures Search(s, target, lo, hi).rounds > 0 ==> Pow2(Search(s, target, lo, hi).rounds - 1) <= hi - lo + 1
    decreases hi - lo + 1
  {
    if lo <= hi {
      var mid := (lo + hi) / 2;
      if s[mid] != target {
        var nlo, nhi := if s[mid] < target then mid + 1 else lo, if s[mid] < target then hi else mid - 1;
        SearchRoundsLogarithmic(s, target, nlo, nhi);
        assert 2 * (nhi - nlo + 1) <= hi - lo + 1;
      }
    }
  }

  /** Whatever the list, the comparisons charged lie between 1 per probe and 2 per probe. */
  lemma SearchChargeBounds(s: seq<int>, target: int)
    ensures var p := Search(s, target, 0, |s| - 1);
      p.rounds <= Charged(p) <= 2 * p.rounds && (s == [] <==> Charged(p) == 0)
  {
  }
}
