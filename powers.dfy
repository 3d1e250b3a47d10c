// Powers of two, the scale in which the logarithmic bounds on merge_sort's
// depth and binary_search's probes are stated.

module Powers {

  /** 2 to the power k. */
  function Pow2(k: nat): nat
  {
    if k == 0 then 1 else 2 * Pow2(k - 1)
  }
}
