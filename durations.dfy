/** Go's `time.Duration` is a count of nanoseconds; delays in this model use the same unit. */
module Durations {

  /** `time.Second` */
  const Second: int := 1_000_000_000
}
