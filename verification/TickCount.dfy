/** The kernel's tick count: 32 bits that wrap, and the true time behind it. */
module TickCount {

  const TICKS: nat := 0x1_0000_0000
  const MAX_TIME_BEFORE_OVERFLOW: nat := TICKS - 1

  function Wrapped(t: int): (r: nat)
    ensures r < TICKS
  {
    t % TICKS
  }

  function Epoch(t: nat): nat {
    t / TICKS
  }

  /** The last instant of the epoch of `t`. */
  function EpochEnd(t: nat): (r: nat)
    ensures t <= r && Epoch(r) == Epoch(t) && Wrapped(r) == MAX_TIME_BEFORE_OVERFLOW
  {
    Epoch(t) * TICKS + MAX_TIME_BEFORE_OVERFLOW
  }

  lemma WrappedSum(a: nat, b: nat)
    ensures Wrapped(Wrapped(a) + b) == Wrapped(a + b)
  {
  }

  /** Less than a wrap apart, the wrapped difference of tick counts is that of the times. */
  lemma WrappedDifference(earlier: nat, later: nat)
    requires earlier <= later < earlier + TICKS
    ensures Wrapped(Wrapped(later) - Wrapped(earlier)) == later - earlier
  {
  }

  /** Less than a wrap later it is the same epoch or the next. */
  lemma NearbyEpoch(earlier: nat, later: nat)
    requires earlier <= later < earlier + TICKS
    ensures if Epoch(later) == Epoch(earlier) then Wrapped(later) == Wrapped(earlier) + (later - earlier)
            else Epoch(later) == Epoch(earlier) + 1 && Wrapped(later) == Wrapped(earlier) + (later - earlier) - TICKS
  {
  }
}
