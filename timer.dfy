/**
 * `Timer` (`src/timer.rs`): a scope timer bound to a registry and a name.
 * It records its elapsed time into the registry exactly once, either when
 * stopped early or when dropped.  `active` stands for `start.is_some()`; the
 * elapsed nanoseconds that the source reads from its start instant are a
 * parameter here.
 */
module Timers {
  import opened Arith
  import opened HistogramSpec
  import opened Watches

  class Timer {
    const watch: Watch
    const name: string
    var active: bool

    /** `new(watch, name)`: an armed timer; nothing is recorded yet. */
    constructor (w: Watch, n: string)
      ensures watch == w && name == n && active
    {
      watch := w;
      name := n;
      active := true;
    }

    /**
     * `stop()`: an armed timer records the elapsed time through
     * `record_instant`, disarms itself and returns the recorded nanoseconds;
     * a disarmed one records nothing and returns 0.
     */
    method Stop(elapsed: u128) returns (ns: u64)
      requires watch.Valid()
      modifies this, watch
      ensures watch.Valid() && !active
      ensures old(active) ==> ns == SaturateNanos(elapsed)
      ensures old(active) ==> watch.hists == old(watch.hists)[name := RecordState(EntryOf(old(watch.hists), name),
                                                                                  Clamped(ns, watch.lowest, watch.highest))]
      ensures old(active) ==> watch.CountOf(name) == old(watch.CountOf(name)) + 1
      ensures !old(active) ==> ns == 0 && watch.hists == old(watch.hists)
    {
      if active {
        active := false;
        ns := watch.RecordInstant(name, elapsed);
      } else {
        ns := 0;
      }
    }

    /** `drop`: as `stop`, without the returned value. */
    method Drop(elapsed: u128)
      requires watch.Valid()
      modifies this, watch
      ensures watch.Valid() && !active
      ensures old(active) ==> watch.hists == old(watch.hists)[name := RecordState(EntryOf(old(watch.hists), name),
                                                                                  Clamped(SaturateNanos(elapsed), watch.lowest, watch.highest))]
      ensures old(active) ==> watch.CountOf(name) == old(watch.CountOf(name)) + 1
      ensures !old(active) ==> watch.hists == old(watch.hists)
    {
      if active {
        active := false;
        var _ := watch.RecordInstant(name, elapsed);
      }
    }
  }

  /**
   * A timer's whole life: created, optionally stopped early after `early`
   * nanoseconds, then dropped `late` nanoseconds after its start.  Either way
   * the name gains exactly one sample, and it is the early time when there
   * was an early stop.
   */
  method Lifetime(w: Watch, name: string, stopEarly: bool, early: u128, late: u128)
    requires w.Valid()
    modifies w
    ensures w.Valid()
    ensures w.CountOf(name) == old(w.CountOf(name)) + 1
    ensures w.hists == old(w.hists)[name := RecordState(EntryOf(old(w.hists), name),
                                                        Clamped(SaturateNanos(if stopEarly then early else late),
                                                                w.lowest, w.highest))]
  {
    var t := new Timer(w, name);
    if stopEarly {
      var _ := t.Stop(early);
    }
    t.Drop(late);
  }
}
