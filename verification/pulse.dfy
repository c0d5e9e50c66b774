/** `FulfillingCallback` of resources/main.js: a single promise slot that
    every `callback` call fulfils and replaces by a fresh one. The slots are
    numbered by a generation counter; the slot read from `promise` is the
    current generation, and a slot is fulfilled once the counter has moved
    past it. */
module Pulse {

  class FulfillingCallback {
    /** The number of `callback` calls so far, which is also the number of
        the slot `promise` returns. */
    var generation: nat

    constructor ()
      ensures generation == 0 && !Settled(Promise())
    {
      generation := 0;
    }

    /** The getter `promise`: the slot that is open now. */
    function Promise(): nat
      reads this
    {
      generation
    }

    /** Whether the promise of slot `slot` has been fulfilled. */
    predicate Settled(slot: nat)
      reads this
    {
      slot < generation
    }

    /** `callback()`: fulfils the slot that was open and opens a fresh one.
        A waiter that reads `promise` after this call waits for a later
        call: pulses are not stored up. */
    method Callback()
      modifies this
      ensures generation == old(generation) + 1
      ensures Settled(old(Promise())) && !Settled(Promise())
      ensures forall slot :: old(Settled(slot)) ==> Settled(slot)
    {
      generation := generation + 1;
    }
  }
}
