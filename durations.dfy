/** The part of java.time.Duration that the policy scheduler relies on:
    its natural ordering and its conversion to whole milliseconds. */
module Durations {

  const NanosPerMilli: int := 1_000_000
  const NanosPerSecond: int := 1_000_000_000

  /** A signed length of time. A Duration is a number of seconds plus a
      nanosecond adjustment in [0, 10^9); the total number of nanoseconds
      determines both, so that total is the whole representation. */
  datatype Duration = Duration(nanos: int)

  /** Duration.ofSeconds(s) */
  function OfSeconds(s: int): Duration {
    Duration(s * NanosPerSecond)
  }

  /** Duration.compareTo: seconds first, then the nanosecond adjustment,
      which is the order of the total number of nanoseconds. */
  function Compare(a: Duration, b: Duration): (c: int)
    ensures c < 0 <==> a.nanos < b.nanos
    ensures c == 0 <==> a == b
    ensures c > 0 <==> a.nanos > b.nanos
  {
    if a.nanos < b.nanos then -1 else if a.nanos == b.nanos then 0 else 1
  }

  /** Duration.toMillis(): the whole number of milliseconds, the fraction
      dropped toward zero. */
  function ToMillis(d: Duration): int {
    if d.nanos >= 0 then d.nanos / NanosPerMilli else -((-d.nanos) / NanosPerMilli)
  }

  /** toMillis() is positive exactly when the duration reaches one
      millisecond: anything shorter, and every negative duration, reads 0 or less. */
  lemma ToMillisPositiveIff(d: Duration)
    ensures ToMillis(d) > 0 <==> d.nanos >= NanosPerMilli
  {
  }

  /** For a non-negative duration, toMillis() is the number of whole
      milliseconds that fit into it. */
  lemma ToMillisOfNonNegative(d: Duration)
    requires d.nanos >= 0
    ensures ToMillis(d) >= 0
    ensures ToMillis(d) * NanosPerMilli <= d.nanos < (ToMillis(d) + 1) * NanosPerMilli
  {
  }

  /** toMillis() respects the natural order of durations. */
  lemma ToMillisMonotone(a: Duration, b: Duration)
    requires a.nanos <= b.nanos
    ensures ToMillis(a) <= ToMillis(b)
  {
  }
}
