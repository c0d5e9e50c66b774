/** The pointer handling of `mouseMoveHandler` in resources/main.js: a move
    to a new screen position shows the cursor and restarts a one-second
    timer that hides it; a move event at the last position is ignored.
    Timers are numbered handles; the browser firing one is a method. */
module Cursor {

  /** Whether a move to `(nx, ny)` is idle, given the last position. */
  function IsIdle(lastX: int, lastY: int, nx: int, ny: int): bool
  {
    lastX == nx && lastY == ny
  }

  class MouseMoveHandler {
    /** `state.lastPosition` */
    var lastX: int
    var lastY: int
    /** `state.timeout`: the handle of the most recent `setTimeout(hideMouse, 1000)`. */
    var timeout: nat
    /** The number of timers set so far; handles are `0 .. timers - 1`. */
    var timers: nat
    /** The timers set and neither cleared nor fired yet. */
    var pending: set<nat>
    /** Whether the body has the `no-cursor` class. */
    var cursorHidden: bool

    /** Only the most recent timer can still fire. */
    ghost predicate Valid()
      reads this
    {
      timeout < timers && pending <= {timeout}
    }

    /** Lines 129-137: the first timer is set at once and the last position
        is `[-1, -1]`. The body starts without the `no-cursor` class. */
    constructor ()
      ensures Valid()
      ensures lastX == -1 && lastY == -1
      ensures timeout == 0 && timers == 1 && pending == {0} && !cursorHidden
    {
      lastX, lastY := -1, -1;
      timeout, timers := 0, 1;
      pending := {0};
      cursorHidden := false;
    }

    /** The handler for a `mousemove` event at screen position `(nx, ny)`
        (lines 142-158). An idle move changes nothing. Any other move clears
        the pending timer, shows the cursor, sets a fresh timer and records
        the new position. */
    method Move(nx: int, ny: int)
      requires Valid()
      modifies this
      ensures Valid()
      ensures old(lastX) == nx && old(lastY) == ny ==> unchanged(this)
      ensures old(lastX) != nx || old(lastY) != ny ==>
        && lastX == nx && lastY == ny && !cursorHidden
        && timers == old(timers) + 1 && timeout == old(timers) && pending == {timeout}
    {
      var idle := IsIdle(lastX, lastY, nx, ny);
      if !idle {
        pending := pending - {timeout};   // the pending timer is cleared
        cursorHidden := false;            // the cursor is shown
        timeout := timers;                // a fresh timer is set
        timers := timers + 1;
        pending := pending + {timeout};
        lastX, lastY := nx, ny;
      }
    }

    /** The browser fires timer `handle`: if it is still pending, `hideMouse`
        adds the `no-cursor` class. A cleared timer never fires. */
    method TimerFires(handle: nat)
      requires Valid()
      modifies this
      ensures Valid()
      ensures old(handle in pending) ==> cursorHidden && pending == {}
      ensures old(handle !in pending) ==> cursorHidden == old(cursorHidden) && pending == old(pending)
      ensures lastX == old(lastX) && lastY == old(lastY)
      ensures timeout == old(timeout) && timers == old(timers)
    {
      if handle in pending {
        pending := pending - {handle};
        cursorHidden := true;
      }
    }
  }
}
