/**
 * The crate root (`src/lib.rs`): the disabled-mode `measure` and
 * `measure_named`.  The crate root repeats `Duration`, `Measurement`,
 * `Stats` and a `Collector` whose `new`, `record`, `stats` and `all_stats`
 * do what those of the collector module do; they are modelled once, by
 * `Durations`, `Measurements` and `Collectors`.
 */
module Lib {
  import opened Arith
  import opened Wrappers
  import opened Durations
  import opened Measurements
  import opened Collectors

  /** Disabled `measure(f)`: the closure's value and a zero duration. */
  function Measure<T>(f: () -> T): (r: (T, Duration))
    ensures r.0 == f()
    ensures AsNanos(r.1) == 0
  {
    (f(), ZERO)
  }

  /** Disabled `measure_named(name, f)`: the closure's value and a measurement
      with the given name, zero duration and zero timestamp. */
  function MeasureNamed<T>(name: string, f: () -> T): (r: (T, Measurement))
    ensures r.0 == f()
    ensures r.1.name == name && AsNanos(r.1.duration) == 0 && r.1.timestamp == 0
    ensures r.1 == Zero(name)
  {
    (f(), Measurement(name, ZERO, 0))
  }

  /** 1_500_000_000 ns is 1_500_000 µs and 1_500 ms. */
  lemma DurationExample()
    ensures AsNanos(FromNanos(1_500_000_000)) == 1_500_000_000
    ensures AsMicros(FromNanos(1_500_000_000)) == 1_500_000
    ensures AsMillis(FromNanos(1_500_000_000)) == 1_500
  {
  }

  /** Recording 1000 ns and 2000 ns: count 2, min 1000, max 2000, mean 1500. */
  lemma CollectorExample()
    ensures var st := StatsOf([FromNanos(1000), FromNanos(2000)]).value;
      st.count == 2 && st.min.nanos == 1000 && st.max.nanos == 2000 && st.mean.nanos == 1500
  {
    var ds := [FromNanos(1000), FromNanos(2000)];
    assert ds[..1] == [FromNanos(1000)];
    assert [FromNanos(1000)][..0] == [];
    assert TotalNanos(ds) == 3000;
  }
}
