/** A named, timestamped measurement (`src/measurement.rs`, repeated in `src/lib.rs`). */
module Measurements {
  import opened Arith
  import opened Durations

  datatype Measurement = Measurement(name: string, duration: Duration, timestamp: u128)

  /** `Measurement::new`: keeps exactly what it is given. */
  function New(name: string, duration: Duration, timestamp: u128): (m: Measurement)
    ensures m.name == name && m.duration == duration && m.timestamp == timestamp
  {
    Measurement(name, duration, timestamp)
  }

  /** `Measurement::zero`: the given name with zero duration and zero timestamp. */
  function Zero(name: string): (m: Measurement)
    ensures m.name == name
    ensures AsNanos(m.duration) == 0 && m.duration == ZERO
    ensures m.timestamp == 0
  {
    Measurement(name, ZERO, 0)
  }

  /** `zero(name)` is `new(name, Duration::ZERO, 0)`. */
  lemma ZeroIsNewWithZeros(name: string)
    ensures Zero(name) == New(name, ZERO, 0)
  {
  }
}
