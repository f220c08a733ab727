/** The command timeout of isp/Lib/V2Protocol.c, which a timer interrupt counts down. */
module Timers {
  import opened Bits

  const COMMAND_TIMEOUT_MS: byte := 200

  /** TimeoutMSRemaining and the timer behind it. Time passes in units; every `period` units the interrupt fires. */
  class CommandTimer {
    const period: nat
    var remaining: byte
    var phase: nat // units until the next interrupt

    constructor (period: nat)
      ensures this.period == period && remaining == COMMAND_TIMEOUT_MS
    {
      this.period := period;
      remaining := COMMAND_TIMEOUT_MS;
      phase := period;
    }

    /** TIMER0_COMPA_vect */
    method Interrupt()
      modifies this`remaining
      ensures remaining == if old(remaining) > 0 then old(remaining) - 1 else 0
    {
      if remaining != 0 {
        remaining := remaining - 1;
      }
    }

    method Unit()
      modifies this`remaining, this`phase
      ensures remaining <= old(remaining)
      ensures remaining == old(remaining) && remaining > 0 ==> phase < old(phase)
    {
      if phase == 0 {
        Interrupt();
        phase := period;
      } else {
        phase := phase - 1;
      }
    }

    /** Some time passes, at least one unit. The pair of `remaining` and `phase` goes down until the timeout is over. */
    method Pass()
      modifies this`remaining, this`phase
      ensures remaining <= old(remaining)
      ensures remaining == old(remaining) && remaining > 0 ==> phase < old(phase)
    {
      Unit();
      var more: nat := *;
      while more > 0
        invariant remaining <= old(remaining)
        invariant remaining == old(remaining) && remaining > 0 ==> phase < old(phase)
      {
        Unit();
        more := more - 1;
      }
    }
  }
}
