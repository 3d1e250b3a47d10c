// The counting protocol shared by every algorithm: one caller-owned record of
// operation tallies, updated in place and shared by every recursive call.

module Counters {

  /** The value of a counter at one moment, one field per category. */
  datatype Tally = Tally(comparisons: int, swaps: int, recursiveCalls: int, loopSteps: int, backtracks: int)
  {
    /** Field-by-field sum: the tallies of two runs charged to one counter. */
    function Plus(t: Tally): Tally
    {
      Tally(comparisons + t.comparisons, swaps + t.swaps, recursiveCalls + t.recursiveCalls,
            loopSteps + t.loopSteps, backtracks + t.backtracks)
    }
  }

  /** Nothing charged yet. */
  const Zero := Tally(0, 0, 0, 0, 0)

  /**
   * The caller-owned counter. Its fields stand for the keys 'comparacoes',
   * 'trocas', 'chamadas_recursivas', 'passos_laco' and 'backtracks' of the
   * dictionary the algorithms receive; a key never written reads as 0.
   */
  class Counter {
    var comparisons: int
    var swaps: int
    var recursiveCalls: int
    var loopSteps: int
    var backtracks: int

    /** A fresh counter: every category reads 0. */
    constructor ()
      ensures Snapshot() == Zero
    {
      comparisons, swaps, recursiveCalls, loopSteps, backtracks := 0, 0, 0, 0, 0;
    }

    function Snapshot(): Tally
      reads this
    {
      Tally(comparisons, swaps, recursiveCalls, loopSteps, backtracks)
    }
  }
}
