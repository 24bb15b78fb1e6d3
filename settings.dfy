/** The runtime settings the event loop adjusts: the pause and menu flags and
    the delay between two generations, which the arrow keys move in steps of
    100 ms inside [1, 10000]. The colour fields are not modelled. */
module Utility {

  const MaxUpdateMs: int := 10000
  const MinUpdateMs: int := 1
  const UpdateDeltaMs: int := 100
  const DefaultStepDeltaMs: int := 400

  /** The range every step delay stays in. */
  predicate DelayInRange(delay: int)
  {
    MinUpdateMs <= delay <= MaxUpdateMs
  }

  /** Settings::increaseSpeed's effect on the delay: despite the name, it
      lengthens the delay by one step, unless that would pass the maximum. */
  function Lengthened(delay: int): (r: int)
    ensures r == delay || r == delay + UpdateDeltaMs
    ensures r == delay + UpdateDeltaMs <==> delay + UpdateDeltaMs <= MaxUpdateMs
    ensures DelayInRange(delay) ==> DelayInRange(r)
  {
    if delay <= MaxUpdateMs - UpdateDeltaMs then delay + UpdateDeltaMs else delay
  }

  /** Settings::decreaseSpeed's effect on the delay: shortens it by one step,
      unless that would pass the minimum. */
  function Shortened(delay: int): (r: int)
    ensures r == delay || r == delay - UpdateDeltaMs
    ensures r == delay - UpdateDeltaMs <==> MinUpdateMs <= delay - UpdateDeltaMs
    ensures DelayInRange(delay) ==> DelayInRange(r)
  {
    if delay >= MinUpdateMs + UpdateDeltaMs then delay - UpdateDeltaMs else delay
  }

  /** Inside the range, a step that moved the delay is undone by the opposite step. */
  lemma StepsUndo(delay: int)
    requires DelayInRange(delay)
    ensures Lengthened(delay) != delay ==> Shortened(Lengthened(delay)) == delay
    ensures Shortened(delay) != delay ==> Lengthened(Shortened(delay)) == delay
  {
  }

  class Settings {
    var paused: bool
    var inMenu: bool
    var stepDeltaMs: int

    /** Starts paused, in the menu, with a 400 ms delay, which is in range. */
    constructor ()
      ensures paused && inMenu && stepDeltaMs == DefaultStepDeltaMs
      ensures DelayInRange(stepDeltaMs)
    {
      paused, inMenu, stepDeltaMs := true, true, DefaultStepDeltaMs;
    }

    method IncreaseSpeed()
      modifies this`stepDeltaMs
      ensures stepDeltaMs == Lengthened(old(stepDeltaMs))
      ensures DelayInRange(old(stepDeltaMs)) ==> DelayInRange(stepDeltaMs)
      ensures paused == old(paused) && inMenu == old(inMenu)
    {
      if stepDeltaMs <= MaxUpdateMs - UpdateDeltaMs {
        stepDeltaMs := stepDeltaMs + UpdateDeltaMs;
      }
    }

    method DecreaseSpeed()
      modifies this`stepDeltaMs
      ensures stepDeltaMs == Shortened(old(stepDeltaMs))
      ensures DelayInRange(old(stepDeltaMs)) ==> DelayInRange(stepDeltaMs)
      ensures paused == old(paused) && inMenu == old(inMenu)
    {
      if stepDeltaMs >= MinUpdateMs + UpdateDeltaMs {
        stepDeltaMs := stepDeltaMs - UpdateDeltaMs;
      }
    }
  }
}
