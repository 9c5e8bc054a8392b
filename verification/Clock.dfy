/** The wall clock as the program sees it: each read may be later than the last one, never earlier. */
module Clocks {
  class Clock {
    var now: int

    method Read() returns (t: int)
      modifies this
      ensures t == now >= old(now)
    {
      var step: nat :| true;
      now := now + step;
      t := now;
    }
  }
}
