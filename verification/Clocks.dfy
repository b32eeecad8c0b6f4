/** Steady-clock readings, in nanoseconds. */
module Clocks {
  const NANOSECONDS_PER_MILLISECOND := 1_000_000

  /** A duration cast to whole milliseconds, which drops the fraction towards zero. */
  function Milliseconds(duration: int): int {
    if duration >= 0 then duration / NANOSECONDS_PER_MILLISECOND else -(-duration / NANOSECONDS_PER_MILLISECOND)
  }

  /** The cast never makes a wait end early: whole milliseconds reach a limit of zero or more exactly
      when the time itself does. */
  lemma LimitReached(duration: int, limit: nat)
    ensures Milliseconds(duration) >= limit <==>
            duration >= limit * NANOSECONDS_PER_MILLISECOND || (limit == 0 && duration > -NANOSECONDS_PER_MILLISECOND)
  {
  }
}
