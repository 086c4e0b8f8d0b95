/**
 * `Watch`: a registry from metric name to histogram.  Bounds are
 * normalised once at construction and every recorded value is clamped into
 * them; the first `record` for a name creates its histogram.  `snapshot`
 * derives count, min, max and five percentiles per name.
 */
module Watches {
  import opened Arith
  import opened Wrappers
  import opened HistogramSpec

  const DEFAULT_LOWEST: u64 := 1
  const DEFAULT_HIGHEST: u64 := 3_600_000_000_000

  // ---- bounds ----

  /** `with_bounds` as written: `lowest + 1` wraps to 0 at u64::MAX (release build). */
  function WithBoundsAsWritten(lowestDiscernible: u64, highestTrackable: u64): (r: (u64, u64))
    ensures r.0 == Max(lowestDiscernible, 1)
    ensures r.0 < U64_MAX ==> r.1 == Max(highestTrackable, r.0 + 1)
    ensures r.0 == U64_MAX ==> r.1 == highestTrackable
  {
    var lowest := Max(lowestDiscernible, 1);
    (lowest, Max(highestTrackable, (lowest + 1) % U64_MODULUS))
  }

  /** `with_bounds` with a saturating `lowest + 1`: lowest = max(l, 1),
      highest = max(h, lowest + 1), capped at u64::MAX. */
  function NormaliseBounds(lowestDiscernible: u64, highestTrackable: u64): (r: (u64, u64))
    ensures r.0 == Max(lowestDiscernible, 1)
    ensures 1 <= r.0 <= r.1
    ensures r.0 < U64_MAX ==> r.0 < r.1
    ensures r.1 == Max(highestTrackable, Min(r.0 + 1, U64_MAX))
  {
    var lowest := Max(lowestDiscernible, 1);
    (lowest, Max(highestTrackable, Min(lowest + 1, U64_MAX)))
  }

  /** Below u64::MAX the two agree; at u64::MAX the written code yields
      lowest > highest, so every later `clamp(lowest, highest)` panics. */
  lemma WithBoundsOverflow(l: u64, h: u64)
    ensures Max(l, 1) < U64_MAX ==> WithBoundsAsWritten(l, h) == NormaliseBounds(l, h)
    ensures WithBoundsAsWritten(U64_MAX, 5) == (U64_MAX, 5)
    ensures WithBoundsAsWritten(U64_MAX, 5).0 > WithBoundsAsWritten(U64_MAX, 5).1
    ensures NormaliseBounds(U64_MAX, 5) == (U64_MAX, U64_MAX)
  {
  }

  /** Normalising normalised bounds changes nothing (`build` normalises, then `with_bounds` again). */
  lemma NormaliseIdempotent(l: u64, h: u64)
    ensures NormaliseBounds(NormaliseBounds(l, h).0, NormaliseBounds(l, h).1) == NormaliseBounds(l, h)
  {
  }

  /** `WatchBuilder`: the two bounds before normalisation. */
  datatype WatchBuilder = WatchBuilder(lowest: u64, highest: u64)

  function BuilderNew(): (b: WatchBuilder)
    ensures b.lowest == DEFAULT_LOWEST && b.highest == DEFAULT_HIGHEST
  {
    WatchBuilder(DEFAULT_LOWEST, DEFAULT_HIGHEST)
  }

  /** `.lowest(ns)`: stored as max(ns, 1). */
  function SetLowest(b: WatchBuilder, ns: u64): (r: WatchBuilder)
    ensures r.lowest == Max(ns, 1) >= 1 && r.highest == b.highest
  {
    b.(lowest := Max(ns, 1))
  }

  /** `.highest(ns)`: stored as given. */
  function SetHighest(b: WatchBuilder, ns: u64): (r: WatchBuilder)
    ensures r.highest == ns && r.lowest == b.lowest
  {
    b.(highest := ns)
  }

  /** The bounds `build` hands to `with_bounds`, after its own normalisation. */
  function BuildBounds(b: WatchBuilder): (r: (u64, u64))
    ensures 1 <= r.0 <= r.1
  {
    var (l, h) := NormaliseBounds(b.lowest, b.highest);
    NormaliseBounds(l, h)
  }

  /** `builder().lowest(a).highest(b).build()` has the bounds of `with_bounds(a, b)`, in either setter order. */
  lemma BuilderMatchesWithBounds(a: u64, b: u64)
    ensures BuildBounds(SetHighest(SetLowest(BuilderNew(), a), b)) == NormaliseBounds(a, b)
    ensures BuildBounds(SetLowest(SetHighest(BuilderNew(), b), a)) == NormaliseBounds(a, b)
  {
  }

  /** `builder().build()` and `Watch::new()` have the same default bounds. */
  lemma DefaultBounds()
    ensures BuildBounds(BuilderNew()) == NormaliseBounds(DEFAULT_LOWEST, DEFAULT_HIGHEST)
            == (DEFAULT_LOWEST, DEFAULT_HIGHEST)
  {
  }

  // ---- snapshot statistics ----

  /** `WatchStats` without the floating-point mean. */
  datatype WatchStats = WatchStats(count: nat, min: u64, max: u64,
                                   p50: u64, p90: u64, p95: u64, p99: u64, p999: u64)

  /** ceil(a / d). */
  function CeilDiv(a: nat, d: nat): (r: nat)
    requires d > 0
    ensures r * d >= a && (r == 0 || (r - 1) * d < a)
  {
    (a + d - 1) / d
  }

  /** The nearest rank ceil(n * perMille / 1000) that `percentile(perMille / 1000)` scans for. */
  function RankOf(n: nat, perMille: nat): (r: nat)
    ensures r * 1000 >= n * perMille && (r == 0 || (r - 1) * 1000 < n * perMille)
    ensures perMille <= 1000 ==> r <= n
    ensures 0 < perMille && 0 < n ==> 1 <= r
  {
    var r := CeilDiv(n * perMille, 1000);
    assert perMille <= 1000 ==> r <= n by {
      if perMille <= 1000 {
        MulMonotone(n, perMille, 1000);
      }
    }
    assert 0 < perMille && 0 < n ==> 1 <= r by {
      if 0 < perMille && 0 < n {
        MulMonotone(n, 1, perMille);
      }
    }
    r
  }

  lemma RankOfMonotone(n: nat, a: nat, b: nat)
    requires a <= b
    ensures RankOf(n, a) <= RankOf(n, b)
  {
    MulMonotone(n, a, b);
    DivMonotone(n * a + 999, n * b + 999, 1000);
  }

  /** The stats of one histogram as `snapshot` computes them: all zero when
      empty; otherwise min (0 when `min()` is `None`), max, and the five
      percentiles, falling back to min for p50 and to max for the others. */
  function StatsOf(s: HistState): (st: WatchStats)
    requires Wellformed(s)
    ensures st.count == s.totalCount
    ensures st.count == 0 ==> st == WatchStats(0, 0, 0, 0, 0, 0, 0, 0)
    ensures st.max <= s.maxValue
    ensures MinOpt(s).Some? ==> st.min == s.minValue
  {
    var n := s.totalCount;
    if n == 0 then WatchStats(0, 0, 0, 0, 0, 0, 0, 0)
    else
      var lo := MinOpt(s).GetOr(0);
      var hi := MaxOpt(s).GetOr(0);
      WatchStats(n, lo, hi,
                 PercentileOf(s, Rank(RankOf(n, 500))).GetOr(lo),
                 PercentileOf(s, Rank(RankOf(n, 900))).GetOr(hi),
                 PercentileOf(s, Rank(RankOf(n, 950))).GetOr(hi),
                 PercentileOf(s, Rank(RankOf(n, 990))).GetOr(hi),
                 PercentileOf(s, Rank(RankOf(n, 999))).GetOr(hi))
  }

  /** For a non-empty histogram: min <= p50 <= p90 <= p95 <= p99 <= p999 <= max. */
  lemma StatsOrdered(s: HistState)
    requires Wellformed(s) && s.totalCount > 0
    ensures var st := StatsOf(s);
      st.min <= st.p50 <= st.p90 <= st.p95 <= st.p99 <= st.p999 <= st.max
  {
    var n := s.totalCount;
    RankOfMonotone(n, 500, 900);
    RankOfMonotone(n, 900, 950);
    RankOfMonotone(n, 950, 990);
    RankOfMonotone(n, 990, 999);
    RankMonotone(s, RankOf(n, 500), RankOf(n, 900));
    RankMonotone(s, RankOf(n, 900), RankOf(n, 950));
    RankMonotone(s, RankOf(n, 950), RankOf(n, 990));
    RankMonotone(s, RankOf(n, 990), RankOf(n, 999));
  }

  /** A histogram whose only sample is u64::MAX keeps the min sentinel, so
      `min().unwrap_or(0)` reports 0 and p50 falls back to that 0: the
      snapshot's min lies below any lower bound, although the histogram is
      within the bounds [lowest, u64::MAX]. */
  lemma SentinelMinReportsZero(s: HistState, lowest: u64)
    requires IsFresh(s) && 1 <= lowest
    ensures Wellformed(s) && Wellformed(RecordState(s, U64_MAX))
    ensures InBounds(RecordState(s, U64_MAX), lowest, U64_MAX)
    ensures var st := StatsOf(RecordState(s, U64_MAX));
      st.count == 1 && st.max == U64_MAX && st.min == 0 < lowest && st.p50 == 0
  {
    FreshIsWellformed(s);
    RecordKeepsInvariant(s, U64_MAX);
  }

  /** Values clamped into [lowest, highest] keep min and max of the stats inside the bounds. */
  lemma StatsWithinBounds(s: HistState, lowest: u64, highest: u64)
    requires Wellformed(s) && s.totalCount > 0
    requires lowest <= s.minValue && s.maxValue <= highest
    ensures MinOpt(s).Some? ==> lowest <= StatsOf(s).min
    ensures StatsOf(s).max <= highest
  {
  }

  /** The value `record` stores into a watch with the given bounds. */
  function Clamped(v: u64, lowest: u64, highest: u64): (r: u64)
    requires lowest <= highest
    ensures lowest <= r <= highest
  {
    Clamp(v, lowest, highest)
  }

  /** With the default bounds, recording 0 and u64::MAX reports min 1 and max 3_600_000_000_000. */
  lemma DefaultBoundsClampExtremes(s0: HistState)
    requires IsFresh(s0)
    ensures Wellformed(s0)
    ensures var s := RecordState(RecordState(s0, Clamped(0, DEFAULT_LOWEST, DEFAULT_HIGHEST)),
                                 Clamped(U64_MAX, DEFAULT_LOWEST, DEFAULT_HIGHEST));
      StatsOf(s).count == 2 && StatsOf(s).min == 1 && StatsOf(s).max == 3_600_000_000_000
  {
    FreshIsWellformed(s0);
  }

  /** A histogram state that only ever received values clamped into [lowest, highest]. */
  ghost predicate InBounds(s: HistState, lowest: u64, highest: u64)
  {
    s.totalCount > 0 ==> lowest <= s.minValue && s.maxValue <= highest
  }

  /** The histogram a name has, or the one `record` creates for it. */
  function EntryOf(hists: map<string, HistState>, name: string): (s: HistState)
    requires forall n :: n in hists ==> Wellformed(hists[n])
    ensures Wellformed(s)
    ensures name in hists ==> s == hists[name]
    ensures name !in hists ==> IsFresh(s)
  {
    if name in hists then hists[name] else Empty()
  }

  /**
   * The registry.  Each name maps to the state of its histogram; recording
   * replaces the state of exactly that name.
   */
  class Watch {
    const lowest: u64
    const highest: u64
    var hists: map<string, HistState>

    ghost predicate Valid()
      reads this
    {
      && 1 <= lowest <= highest
      && forall n :: n in hists ==> Wellformed(hists[n]) && InBounds(hists[n], lowest, highest)
    }

    /** `with_bounds(l, h)`: an empty registry with normalised bounds. */
    constructor WithBounds(lowestDiscernible: u64, highestTrackable: u64)
      ensures Valid()
      ensures (lowest, highest) == NormaliseBounds(lowestDiscernible, highestTrackable)
      ensures hists == map[]
    {
      lowest, highest := NormaliseBounds(lowestDiscernible, highestTrackable).0,
                         NormaliseBounds(lowestDiscernible, highestTrackable).1;
      hists := map[];
    }

    /** `new()`: `with_bounds(1, 3_600_000_000_000)`. */
    constructor ()
      ensures Valid()
      ensures lowest == DEFAULT_LOWEST && highest == DEFAULT_HIGHEST
      ensures hists == map[]
    {
      lowest, highest := DEFAULT_LOWEST, DEFAULT_HIGHEST;
      hists := map[];
    }

    /** Samples recorded under a name (0 for an unregistered name). */
    function CountOf(name: string): nat
      reads this
    {
      if name in hists then hists[name].totalCount else 0
    }

    /**
     * `record(name, v)`: clamp v into the bounds, then record it in the
     * name's histogram, which is created empty on first use.  Every other
     * name keeps its state.
     */
    method Record(name: string, v: u64)
      requires Valid()
      modifies this
      ensures Valid()
      ensures hists == old(hists)[name := RecordState(EntryOf(old(hists), name),
                                                      Clamped(v, lowest, highest))]
      ensures CountOf(name) == old(CountOf(name)) + 1
    {
      var ns := Clamp(v, lowest, highest);
      var h := EntryOf(hists, name);
      var r := RecordState(h, ns);
      hists := hists[name := r];
    }

    /** `record_instant`: the elapsed u128 nanoseconds (given here rather than
        read from a clock) saturated to u64, recorded through `record`
        (which clamps), and returned unclamped. */
    method RecordInstant(name: string, elapsed: u128) returns (ns: u64)
      requires Valid()
      modifies this
      ensures ns == SaturateNanos(elapsed)
      ensures Valid()
      ensures hists == old(hists)[name := RecordState(EntryOf(old(hists), name),
                                                      Clamped(ns, lowest, highest))]
      ensures CountOf(name) == old(CountOf(name)) + 1
    {
      ns := if elapsed > U64_MAX then U64_MAX else elapsed;
      Record(name, ns);
    }

    /** `snapshot()`: one `WatchStats` per registered name; the registry is not changed. */
    method Snapshot() returns (out: map<string, WatchStats>)
      requires Valid()
      ensures out.Keys == hists.Keys
      ensures forall n :: n in out ==> out[n] == StatsOf(hists[n])
      ensures forall n :: n in out ==> out[n].max <= highest
      ensures forall n :: n in out && MinOpt(hists[n]).Some? ==> lowest <= out[n].min
    {
      var keys := hists.Keys;
      out := map[];
      while keys != {}
        invariant keys <= hists.Keys
        invariant out.Keys == hists.Keys - keys
        invariant forall n :: n in out ==> out[n] == StatsOf(hists[n])
        decreases keys
      {
        var k :| k in keys;
        out := out[k := StatsOf(hists[k])];
        keys := keys - {k};
      }
    }

    /** `clear()`: removes every entry. */
    method Clear()
      requires Valid()
      modifies this
      ensures Valid() && hists == map[]
    {
      hists := map[];
    }

    /** `clear_name(name)`: removes that entry only. */
    method ClearName(name: string)
      requires Valid()
      modifies this
      ensures Valid() && hists == old(hists) - {name}
    {
      hists := hists - {name};
    }
  }

  /** `WatchBuilder::build`: a watch with the builder's (normalised) bounds. */
  method Build(b: WatchBuilder) returns (w: Watch)
    ensures w.Valid() && w.hists == map[]
    ensures (w.lowest, w.highest) == BuildBounds(b)
  {
    var (l, h) := NormaliseBounds(b.lowest, b.highest);
    w := new Watch.WithBounds(l, h);
  }
}
