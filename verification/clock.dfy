/** The millisecond clock millis(): an unsigned 32-bit counter that wraps around. */
module Clock {

  const Modulus: int := 0x1_0000_0000

  /** A uint32 value: a millis() reading or a duration compared against one. */
  type Millis = x: int | 0 <= x < 0x1_0000_0000

  /**
   * `now - since` in uint32 arithmetic: the time elapsed since `since`,
   * correct across one wrap-around of the counter.
   */
  function Elapsed(now: Millis, since: Millis): (d: Millis)
    ensures since + d == now || since + d == now + Modulus
  {
    (now - since) % Modulus
  }

  /** Adding `d` milliseconds to a clock reading, with wrap-around. */
  function Advance(since: Millis, d: Millis): (t: Millis)
    ensures t == since + d || t == since + d - Modulus
  {
    (since + d) % Modulus
  }

  /** The elapsed time is the true duration even when the counter wrapped in between. */
  lemma ElapsedAfterAdvance(since: Millis, d: Millis)
    ensures Elapsed(Advance(since, d), since) == d
  {
  }
}
