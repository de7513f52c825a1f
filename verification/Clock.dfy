/** Time as the program reads it. */
module Clock {
  /** Nanoseconds since the Unix epoch. */
  type Time = int

  const NANOS_PER_SECOND := 1_000_000_000
}
