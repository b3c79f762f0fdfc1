/** `millis()`: a 32-bit `unsigned long` millisecond counter that wraps
    around, and the elapsed time its callers compute by unsigned
    subtraction. */
module Clock {

  const Wrap: int := 0x1_0000_0000

  /** A reading of `millis()`. */
  type Millis = t: int | 0 <= t < 0x1_0000_0000

  /** `now - then` in `unsigned long` arithmetic: the plain difference when
      the counter has not wrapped since `since`, otherwise the difference
      plus 2^32. */
  function Elapsed(now: Millis, since: Millis): (d: Millis)
    ensures since <= now ==> d == now - since
    ensures now < since ==> d == now + Wrap - since
  {
    (now - since) % Wrap
  }

  /** The reading `d` milliseconds after `since`. */
  function After(since: Millis, d: Millis): (t: Millis)
    ensures since + d < Wrap ==> t == since + d
    ensures since + d >= Wrap ==> t == since + d - Wrap
  {
    (since + d) % Wrap
  }

  /** The elapsed time is recovered across a wrap of the counter. */
  lemma ElapsedAfter(since: Millis, d: Millis)
    ensures Elapsed(After(since, d), since) == d
  {
  }
}
