/**
 * `Collector`: named lists of durations and the statistics derived from
 * them (`src/collector.rs`).  Recording appends to the name's list; `stats`
 * aggregates one list; `all_stats` lists the statistics of every name.
 */
module Collectors {
  import opened Arith
  import opened Wrappers
  import opened Durations
  import opened Measurements

  const U128_MODULUS: nat := U128_MAX + 1

  /** `Stats`: count, total, least and greatest sample, and floor mean. */
  datatype Stats = Stats(count: nat, total: Duration, min: Duration, max: Duration, mean: Duration)

  /** The exact sum of the samples' nanoseconds. */
  function TotalNanos(ds: seq<Duration>): (t: nat)
    ensures forall i :: 0 <= i < |ds| ==> ds[i].nanos <= t
  {
    if ds == [] then 0 else TotalNanos(ds[..|ds| - 1]) + ds[|ds| - 1].nanos
  }

  lemma {:induction false} TotalAppend(a: seq<Duration>, b: seq<Duration>)
    ensures TotalNanos(a + b) == TotalNanos(a) + TotalNanos(b)
  {
    if b != [] {
      assert (a + b)[..|a + b| - 1] == a + b[..|b| - 1];
      TotalAppend(a, b[..|b| - 1]);
    } else {
      assert a + b == a;
    }
  }

  /** Reordering the samples does not change their total. */
  lemma {:induction false} TotalPermutation(a: seq<Duration>, b: seq<Duration>)
    requires multiset(a) == multiset(b)
    ensures TotalNanos(a) == TotalNanos(b)
    decreases |a|
  {
    if a != [] {
      var x := a[|a| - 1];
      assert a == a[..|a| - 1] + [x];
      assert x in multiset(b);
      var i :| 0 <= i < |b| && b[i] == x;
      assert b == b[..i] + [x] + b[i + 1..];
      var rest := b[..i] + b[i + 1..];
      assert multiset(a[..|a| - 1]) == multiset(a) - multiset{x};
      assert multiset(b) == multiset(b[..i]) + multiset{x} + multiset(b[i + 1..]);
      assert multiset(rest) == multiset(b) - multiset{x};
      TotalPermutation(a[..|a| - 1], rest);
      TotalAppend(b[..i] + [x], b[i + 1..]);
      TotalAppend(b[..i], [x]);
      TotalAppend(b[..i], b[i + 1..]);
      assert TotalNanos([x]) == x.nanos by {
        assert [x][..0] == [];
      }
    } else {
      assert |b| == |multiset(b)| == 0;
    }
  }

  /** `iter().min()`: the first least sample. */
  function MinOf(ds: seq<Duration>): (m: Duration)
    requires |ds| > 0
    ensures m in ds
    ensures forall i :: 0 <= i < |ds| ==> m.nanos <= ds[i].nanos
  {
    if |ds| == 1 then ds[0]
    else
      var rest := MinOf(ds[1..]);
      if ds[0].nanos <= rest.nanos then ds[0] else rest
  }

  /** `iter().max()`: the last greatest sample. */
  function MaxOf(ds: seq<Duration>): (m: Duration)
    requires |ds| > 0
    ensures m in ds
    ensures forall i :: 0 <= i < |ds| ==> ds[i].nanos <= m.nanos
  {
    if |ds| == 1 then ds[0]
    else
      var rest := MaxOf(ds[1..]);
      if ds[0].nanos > rest.nanos then ds[0] else rest
  }

  /**
   * `stats` over one list: `None` for an empty list; otherwise the count,
   * the u128 total (which wraps past u128::MAX, as the release build's
   * unchecked sum does), min, max and the floor mean of that total.
   */
  function StatsOf(ds: seq<Duration>): (r: Option<Stats>)
    ensures r.None? <==> |ds| == 0
    ensures r.Some? ==> r.value.count == |ds|
    ensures r.Some? ==> r.value.total.nanos == TotalNanos(ds) % U128_MODULUS
    ensures r.Some? ==> r.value.min in ds && r.value.max in ds
    ensures r.Some? ==> forall i :: 0 <= i < |ds| ==>
              r.value.min.nanos <= ds[i].nanos <= r.value.max.nanos
    ensures r.Some? ==> r.value.mean.nanos == r.value.total.nanos / |ds|
  {
    if |ds| == 0 then None
    else
      var total := WrappedTotal(ds);
      Some(Stats(|ds|, FromNanos(total), MinOf(ds), MaxOf(ds), FromNanos(FloorMean(total, |ds|))))
  }

  /** `total / count as u128`: the floor of the exact mean, never above the total. */
  function FloorMean(total: u128, count: nat): (m: u128)
    requires count > 0
    ensures m == total / count
    ensures m * count <= total < (m + 1) * count
    ensures m <= total
  {
    DivAtMost(total, count);
    total / count
  }

  /** The u128 `sum()` of the samples, wrapping past u128::MAX. */
  function WrappedTotal(ds: seq<Duration>): (t: u128)
    ensures t == TotalNanos(ds) % U128_MODULUS
    ensures TotalNanos(ds) <= U128_MAX ==> t == TotalNanos(ds)
  {
    TotalNanos(ds) % U128_MODULUS
  }

  /** Without wrap-around the total is exact and min <= mean <= max. */
  lemma MeanBetween(ds: seq<Duration>)
    requires |ds| > 0 && TotalNanos(ds) <= U128_MAX
    ensures StatsOf(ds).value.total.nanos == TotalNanos(ds)
    ensures StatsOf(ds).value.min.nanos <= StatsOf(ds).value.mean.nanos <= StatsOf(ds).value.max.nanos
  {
    var st := StatsOf(ds).value;
    TotalBetween(ds, st.min.nanos, st.max.nanos);
    assert st.min.nanos * |ds| <= TotalNanos(ds);
    assert TotalNanos(ds) <= st.max.nanos * |ds|;
    LowerBoundDiv(st.min.nanos, |ds|, TotalNanos(ds));
    UpperBoundDiv(st.max.nanos, |ds|, TotalNanos(ds));
  }

  /** Samples between lo and hi sum to between lo * n and hi * n. */
  lemma {:induction false} TotalBetween(ds: seq<Duration>, lo: nat, hi: nat)
    requires forall i :: 0 <= i < |ds| ==> lo <= ds[i].nanos <= hi
    ensures lo * |ds| <= TotalNanos(ds) <= hi * |ds|
  {
    if ds != [] {
      TotalBetween(ds[..|ds| - 1], lo, hi);
      assert lo * |ds| == lo * (|ds| - 1) + lo;
      assert hi * |ds| == hi * (|ds| - 1) + hi;
    }
  }

  lemma LowerBoundDiv(lo: nat, n: nat, t: nat)
    requires n > 0 && lo * n <= t
    ensures lo <= t / n
  {
    var q := t / n;
    assert t < n * (q + 1);
    BelowProduct(lo, q + 1, n);
  }

  lemma UpperBoundDiv(hi: nat, n: nat, t: nat)
    requires n > 0 && t <= hi * n
    ensures t / n <= hi
  {
    var q := t / n;
    assert n * q <= t;
    assert t < n * (hi + 1);
    BelowProduct(q, hi + 1, n);
  }

  /** The statistics depend only on which samples were recorded, not on their order. */
  lemma OrderIndependent(a: seq<Duration>, b: seq<Duration>)
    requires multiset(a) == multiset(b)
    ensures StatsOf(a) == StatsOf(b)
  {
    assert |a| == |multiset(a)| == |multiset(b)| == |b|;
    if |a| > 0 {
      TotalPermutation(a, b);
      var ma, mb := MinOf(a), MinOf(b);
      assert ma in multiset(b) && mb in multiset(a);
      assert ma.nanos == mb.nanos;
      var xa, xb := MaxOf(a), MaxOf(b);
      assert xa in multiset(b) && xb in multiset(a);
      assert xa.nanos == xb.nanos;
    }
  }

  /** 1000, 2000 and 3000 ns: total 6000, min 1000, max 3000, mean 2000. */
  lemma StatsExample()
    ensures var st := StatsOf([FromNanos(1000), FromNanos(2000), FromNanos(3000)]).value;
      st.count == 3 && st.total.nanos == 6000 && st.min.nanos == 1000 &&
      st.max.nanos == 3000 && st.mean.nanos == 2000
  {
    var ds := [FromNanos(1000), FromNanos(2000), FromNanos(3000)];
    assert ds[..2] == [FromNanos(1000), FromNanos(2000)];
    assert ds[..2][..1] == [FromNanos(1000)];
    assert [FromNanos(1000)][..0] == [];
    assert TotalNanos(ds) == 6000;
  }

  /** The list a name has, or the empty list `or_default` creates. */
  function SamplesOf(m: map<string, seq<Duration>>, name: string): (ds: seq<Duration>)
    ensures name in m ==> ds == m[name]
    ensures name !in m ==> ds == []
  {
    if name in m then m[name] else []
  }

  /** The names of a list of pairs, in order. */
  function NamesOf(r: seq<(string, Stats)>): (ns: seq<string>)
    ensures |ns| == |r| && forall i :: 0 <= i < |r| ==> ns[i] == r[i].0
  {
    if r == [] then [] else NamesOf(r[..|r| - 1]) + [r[|r| - 1].0]
  }

  /**
   * The pairs `all_stats` returns after visiting the names in `done`: no
   * name twice, each pair carrying that name's statistics, and every visited
   * name present.
   */
  ghost predicate Listed(m: map<string, seq<Duration>>, r: seq<(string, Stats)>, done: set<string>)
  {
    && (forall i, j :: 0 <= i < j < |r| ==> r[i].0 != r[j].0)
    && (forall i :: 0 <= i < |r| ==> r[i].0 in done && r[i].0 in m && Some(r[i].1) == StatsOf(m[r[i].0]))
    && (forall n :: n in done && n in m && m[n] != [] ==> n in NamesOf(r))
  }

  /** Visiting one more name with a non-empty list appends its pair. */
  lemma ListedStep(m: map<string, seq<Duration>>, r: seq<(string, Stats)>, done: set<string>, n: string)
    requires Listed(m, r, done) && n in m && n !in done && m[n] != []
    ensures Listed(m, r + [(n, StatsOf(m[n]).value)], done + {n})
  {
    var r' := r + [(n, StatsOf(m[n]).value)];
    assert NamesOf(r') == NamesOf(r) + [n];
  }

  class Collector {
    var measurements: map<string, seq<Duration>>

    /** Every stored list is non-empty: lists are only ever created by a push. */
    ghost predicate Valid()
      reads this
    {
      forall n :: n in measurements ==> |measurements[n]| > 0
    }

    /** `new()`: no names. */
    constructor ()
      ensures Valid() && measurements == map[]
      ensures forall n :: StatsFor(n).None?
    {
      measurements := map[];
    }

    /** `with_capacity(capacity)`: no names; the capacity is only an allocation hint. */
    constructor WithCapacity(capacity: nat)
      ensures Valid() && measurements == map[]
      ensures forall n :: StatsFor(n).None?
    {
      measurements := map[];
    }

    /** `record(&m)`: appends m's duration to m's name. */
    method Record(m: Measurement)
      requires Valid()
      modifies this
      ensures Valid()
      ensures measurements == old(measurements)[m.name := SamplesOf(old(measurements), m.name) + [m.duration]]
    {
      RecordDuration(m.name, m.duration);
    }

    /** `record_duration(name, d)`: appends d to name's list, creating the list if absent. */
    method RecordDuration(name: string, d: Duration)
      requires Valid()
      modifies this
      ensures Valid()
      ensures measurements == old(measurements)[name := SamplesOf(old(measurements), name) + [d]]
    {
      var ds := if name in measurements then measurements[name] else [];
      measurements := measurements[name := ds + [d]];
    }

    /** `stats(name)`: `None` for an unknown or empty name, else the list's statistics. */
    function StatsFor(name: string): (r: Option<Stats>)
      reads this
      ensures r.None? <==> name !in measurements || measurements[name] == []
      ensures r.Some? ==> r == StatsOf(measurements[name]) && r.value.count == |measurements[name]|
    {
      StatsOf(SamplesOf(measurements, name))
    }

    /**
     * `all_stats()`: one `(name, stats)` pair per stored name with a
     * non-empty list, in the order the names come out of the map.
     */
    method AllStats() returns (r: seq<(string, Stats)>)
      ensures Listed(measurements, r, measurements.Keys)
    {
      r := [];
      ghost var done: set<string> := {};
      var rest := measurements.Keys;
      while rest != {}
        invariant rest !! done && rest + done == measurements.Keys
        invariant Listed(measurements, r, done)
        decreases rest
      {
        var n :| n in rest;
        var st := StatsFor(n);
        if st.Some? {
          ListedStep(measurements, r, done, n);
          r := r + [(n, st.value)];
        }
        rest := rest - {n};
        done := done + {n};
      }
    }

    /** `clear()`: removes every name. */
    method Clear()
      modifies this
      ensures Valid() && measurements == map[]
      ensures forall n :: StatsFor(n).None?
    {
      measurements := map[];
    }

    /** `clear_name(name)`: removes that name only. */
    method ClearName(name: string)
      requires Valid()
      modifies this
      ensures Valid() && measurements == old(measurements) - {name}
      ensures StatsFor(name).None?
    {
      measurements := measurements - {name};
    }
  }

  /** A valid collector answers `stats(name)` exactly for the names it holds. */
  lemma StatsPresent(c: Collector, name: string)
    requires c.Valid()
    ensures c.StatsFor(name).Some? <==> name in c.measurements
  {
  }

  /** Every pair `all_stats` returns is what `stats` answers for its name, and
      the names listed are exactly those for which `stats` answers. */
  lemma AllStatsAgree(c: Collector, r: seq<(string, Stats)>)
    requires Listed(c.measurements, r, c.measurements.Keys)
    ensures forall i :: 0 <= i < |r| ==> c.StatsFor(r[i].0) == Some(r[i].1)
    ensures forall n :: n in NamesOf(r) <==> c.StatsFor(n).Some?
  {
    forall n | n in NamesOf(r)
      ensures c.StatsFor(n).Some?
    {
      var i :| 0 <= i < |r| && NamesOf(r)[i] == n;
      assert r[i].0 == n;
    }
  }
}
