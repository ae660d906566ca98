/** Points in time and durations, in nanoseconds. */
module Time {

  const NANOS_IN_SECOND: nat := 1_000_000_000

  type Timestamp = nat
  type Duration = nat
}
