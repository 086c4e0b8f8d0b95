/**
 * `FastHistogram` (and the `Histogram` wrapper that only delegates to it):
 * two arrays of counters updated in place plus four scalar fields.  Every
 * method is specified by the value-level functions of `HistogramSpec`
 * applied to `State()`, the abstraction of the arrays and fields.
 */
module Histograms {
  import opened Arith
  import opened Wrappers
  import opened HistogramSpec

  class Histogram {
    const linear: array<nat>
    const log: array<nat>
    var minValue: u64
    var maxValue: u64
    var totalCount: nat
    var sum: u64

    /** The objects this histogram is made of. */
    function Repr(): set<object>
    {
      {this, linear, log}
    }

    /** The arrays and fields as one value. */
    ghost function State(): HistState
      reads this, linear, log
    {
      HistState(linear[..], log[..], minValue, maxValue, totalCount, sum)
    }

    ghost predicate Valid()
      reads this, linear, log
    {
      && linear.Length == LINEAR_BUCKETS
      && log.Length == LOG_BUCKETS
      && Wellformed(State())
    }

    /** `new`: every counter zero, the minimum at its u64::MAX sentinel. */
    constructor ()
      ensures Valid() && IsFresh(State())
      ensures fresh(linear) && fresh(log)
    {
      linear := new nat[LINEAR_BUCKETS](_ => 0);
      log := new nat[LOG_BUCKETS](_ => 0);
      minValue := U64_MAX;
      maxValue := 0;
      totalCount := 0;
      sum := 0;
      new;
      FreshIsWellformed(State());
    }

    /** The compare-and-swap loop of `update_min`, read sequentially. */
    method UpdateMin(v: u64)
      modifies this`minValue
      ensures minValue == Arith.Min(old(minValue), v)
    {
      if v < minValue {
        minValue := v;
      }
    }

    /** The compare-and-swap loop of `update_max`, read sequentially. */
    method UpdateMax(v: u64)
      modifies this`maxValue
      ensures maxValue == Arith.Max(old(maxValue), v)
    {
      if v > maxValue {
        maxValue := v;
      }
    }

    /** `record(v)`: min, max, count, wrapping capped sum, then exactly one bucket. */
    method Record(v: u64)
      requires Valid()
      modifies this, linear, log
      ensures Valid()
      ensures State() == RecordState(old(State()), v)
    {
      ghost var s := State();
      RecordKeepsInvariant(s, v);
      ghost var r := RecordState(s, v);
      UpdateMin(v);
      UpdateMax(v);
      totalCount := totalCount + 1;
      sum := (sum + Arith.Min(v, SUM_CAP)) % U64_MODULUS;
      if v < LINEAR_BUCKETS {
        linear[v] := linear[v] + 1;
        assert linear[..] == r.linear && log[..] == r.log;
      } else {
        var idx := LogBucketIndex(v);
        if idx < LOG_BUCKETS {
          log[idx] := log[idx] + 1;
        }
        assert linear[..] == r.linear && log[..] == r.log;
      }
      assert State() == r;
    }

    /** `record_duration`: the u128 nanosecond count saturated to u64, then `record`. */
    method RecordDuration(nanos: u128)
      requires Valid()
      modifies this, linear, log
      ensures Valid()
      ensures State() == RecordState(old(State()), SaturateNanos(nanos))
    {
      var clamped: u64 := if nanos > U64_MAX then U64_MAX else nanos;
      Record(clamped);
    }

    /** `min()`: `None` while the stored minimum is the sentinel. */
    function Min(): (r: Option<u64>)
      reads this, linear, log
      ensures r == MinOpt(State())
    {
      if minValue == U64_MAX then None else Some(minValue)
    }

    /** `max()`: `None` exactly while nothing has been recorded. */
    function Max(): (r: Option<u64>)
      reads this, linear, log
      ensures r == MaxOpt(State())
    {
      if totalCount == 0 then None else Some(maxValue)
    }

    /** `count()`: the number of recorded samples, which is the bucket total. */
    function Count(): (r: nat)
      requires Valid()
      reads this, linear, log
      ensures r == Sum(linear[..]) + Sum(log[..])
    {
      totalCount
    }

    /** `is_empty()`: nothing recorded, so neither minimum nor maximum is present. */
    function IsEmpty(): (r: bool)
      requires Valid()
      reads this, linear, log
      ensures r <==> Max().None?
      ensures r ==> Min().None?
      ensures r <==> Sum(linear[..]) + Sum(log[..]) == 0
    {
      totalCount == 0
    }

    /** `percentile(p)`: the nearest-rank walk over both bucket arrays. */
    method Percentile(q: Quantile) returns (r: Option<u64>)
      requires Valid()
      ensures r == PercentileOf(State(), q)
    {
      if totalCount == 0 {
        return None;
      }
      var target: nat;
      match q {
        case Lowest => return Min();
        case Highest => return Max();
        case Rank(t) => target := t;
      }
      var current: nat := 0;
      if minValue == U64_MAX {
        return None;
      }
      var lo, hi := minValue, maxValue;
      ghost var s := State();

      var i := 0;
      while i < LINEAR_BUCKETS
        invariant 0 <= i <= LINEAR_BUCKETS
        invariant LinearScan(s.linear, 0, 0, target) == LinearScan(s.linear, i, current, target)
      {
        var count := linear[i];
        if count != 0 {
          current := current + count;
          if current >= target {
            return Some(Clamp(i, lo, hi));
          }
        }
        i := i + 1;
      }

      var j := 0;
      while j < LOG_BUCKETS
        invariant 0 <= j <= LOG_BUCKETS
        invariant Scan(s, target) == LogScan(s.log, j, current, target)
      {
        var count := log[j];
        if count != 0 {
          var start := BucketStart(j);
          var end := BucketEnd(j);
          if current + count >= target {
            var position := SatSub(target, current);
            var width := SatSub(end, start);
            if count > 0 && width > 0 {
              var offset := Arith.Min(SatSub(position, 1) * width / count, U64_MAX);
              var v := Arith.Min(start + offset, U64_MAX);
              return Some(Clamp(v, lo, hi));
            }
            return Some(Clamp(start, lo, hi));
          }
          current := current + count;
        }
        j := j + 1;
      }
      return Max();
    }

    /** `median()`: `percentile(0.5)`, whose nearest rank is ceil(n / 2). */
    method Median() returns (r: Option<u64>)
      requires Valid()
      ensures r == PercentileOf(State(), Rank((State().totalCount + 1) / 2))
    {
      r := Percentile(Rank((totalCount + 1) / 2));
    }

    /**
     * `percentiles(ps)`: all target ranks sorted, then one pass over the
     * buckets.  Where the target is reached while `min()` is `None` (every
     * sample was u64::MAX) the pass answers `None`, as `percentile` does.
     */
    method Percentiles(qs: seq<Quantile>) returns (results: seq<Option<u64>>)
      requires Valid()
      ensures |results| == |qs|
      ensures forall k :: 0 <= k < |qs| ==> results[k] == PercentilesEntry(State(), qs[k])
    {
      ghost var s := State();
      var n := totalCount;
      results := seq(|qs|, _ => None);
      if n == 0 {
        return;
      }
      var targets := SortByTarget(TargetPairs(qs, n));
      RearrangedPairs(qs, n, targets);

      var ti;
      results, ti := FillLowest(qs, targets, results);
      var minV := Min();
      var maxV := Max();
      var current;
      results, ti, current := PassLinear(qs, targets, results, ti, minV, maxV);
      results, ti, current := PassLog(qs, targets, results, ti, current, minV, maxV);
      results := FillBeyond(qs, targets, results, ti);
      FilledAll(s, qs, targets, results);
      results := ForceHighest(qs, results);
    }

    /** The targets of rank 0 (p == 0) come first in the sorted order and are answered by `min()`. */
    method FillLowest(qs: seq<Quantile>, targets: seq<(nat, nat)>, results0: seq<Option<u64>>)
      returns (results: seq<Option<u64>>, ti: nat)
      requires Valid() && totalCount > 0 && |results0| == |qs|
      requires PairsFor(qs, totalCount, targets)
      ensures Filled(State(), qs, targets, results, ti)
      ensures forall k :: ti <= k < |targets| ==> targets[k].1 > 0
    {
      ghost var s := State();
      results, ti := results0, 0;
      while ti < |targets| && targets[ti].1 == 0
        invariant Filled(s, qs, targets, results, ti)
      {
        FillOne(s, qs, targets, results, ti, Min());
        results := results[targets[ti].0 := Min()];
        ti := ti + 1;
      }
    }

    /** Targets beyond the total count (p of nearly 1 after rounding) are answered by `max()`. */
    method FillBeyond(qs: seq<Quantile>, targets: seq<(nat, nat)>, results0: seq<Option<u64>>, ti0: nat)
      returns (results: seq<Option<u64>>)
      requires Valid() && totalCount > 0
      requires PairsFor(qs, totalCount, targets) && Filled(State(), qs, targets, results0, ti0)
      requires forall k :: ti0 <= k < |targets| ==> targets[k].1 > totalCount
      ensures Filled(State(), qs, targets, results, |targets|)
    {
      ghost var s := State();
      results := results0;
      var ti := ti0;
      while ti < |targets|
        invariant Filled(s, qs, targets, results, ti)
        invariant forall k :: ti <= k < |targets| ==> targets[k].1 > totalCount
      {
        FillOne(s, qs, targets, results, ti, Max());
        results := results[targets[ti].0 := Max()];
        ti := ti + 1;
      }
    }

    /** The post-pass of `percentiles`: every p of (nearly) 1 is answered by `max()`. */
    method ForceHighest(qs: seq<Quantile>, results0: seq<Option<u64>>) returns (results: seq<Option<u64>>)
      requires Valid() && totalCount > 0 && |results0| == |qs|
      requires forall m :: 0 <= m < |qs| ==> results0[m] == MultiRank(State(), Target(qs[m], totalCount))
      ensures |results| == |qs|
      ensures forall m :: 0 <= m < |qs| ==> results[m] == PercentilesEntry(State(), qs[m])
    {
      ghost var s := State();
      results := results0;
      var k := 0;
      while k < |qs|
        invariant 0 <= k <= |qs| && |results| == |qs|
        invariant forall m :: 0 <= m < k ==> results[m] == PercentilesEntry(s, qs[m])
        invariant forall m :: k <= m < |qs| ==> results[m] == MultiRank(s, Target(qs[m], totalCount))
      {
        EntryOfTarget(s, qs[k]);
        if qs[k].Highest? {
          results := results[k := Max()];
        }
        k := k + 1;
      }
    }

    /** The linear-bucket part of the `percentiles` pass. */
    method PassLinear(qs: seq<Quantile>, targets: seq<(nat, nat)>, results0: seq<Option<u64>>,
                      ti0: nat, minV: Option<u64>, maxV: Option<u64>)
      returns (results: seq<Option<u64>>, ti: nat, current: nat)
      requires Valid() && totalCount > 0
      requires PairsFor(qs, totalCount, targets) && Filled(State(), qs, targets, results0, ti0)
      requires forall k :: ti0 <= k < |targets| ==> targets[k].1 > 0
      requires minV == Min() && maxV == Max()
      ensures Filled(State(), qs, targets, results, ti)
      ensures ti < |targets| ==> current == Sum(linear[..])
      ensures forall k :: ti <= k < |targets| ==> targets[k].1 > current
    {
      ghost var s := State();
      results, ti, current := results0, ti0, 0;
      var i := 0;
      while i < LINEAR_BUCKETS
        invariant 0 <= i <= LINEAR_BUCKETS
        invariant Filled(s, qs, targets, results, ti)
        invariant ti < |targets| ==> current == Sum(s.linear[..i])
        invariant forall k :: ti <= k < |targets| ==> targets[k].1 > current
      {
        var count := linear[i];
        SumPrefixStep(s.linear, i);
        if count != 0 && ti < |targets| {
          ghost var before := current;
          current := current + count;
          while ti < |targets| && current >= targets[ti].1
            invariant Filled(s, qs, targets, results, ti)
            invariant forall k :: ti <= k < |targets| ==> targets[k].1 > before
          {
            LinearHitAt(s, i, targets[ti].1);
            var v := if minV.None? then None else Some(Clamp(i, minV.value, maxV.value));
            FillOne(s, qs, targets, results, ti, v);
            results := results[targets[ti].0 := v];
            ti := ti + 1;
          }
        }
        i := i + 1;
      }
      assert s.linear[..LINEAR_BUCKETS] == s.linear;
    }

    /** The log-bucket part of the `percentiles` pass, interpolating as `percentile` does. */
    method PassLog(qs: seq<Quantile>, targets: seq<(nat, nat)>, results0: seq<Option<u64>>,
                   ti0: nat, current0: nat, minV: Option<u64>, maxV: Option<u64>)
      returns (results: seq<Option<u64>>, ti: nat, current: nat)
      requires Valid() && totalCount > 0
      requires PairsFor(qs, totalCount, targets) && Filled(State(), qs, targets, results0, ti0)
      requires ti0 < |targets| ==> current0 == Sum(linear[..])
      requires forall k :: ti0 <= k < |targets| ==> targets[k].1 > current0
      requires minV == Min() && maxV == Max()
      ensures Filled(State(), qs, targets, results, ti)
      ensures forall k :: ti <= k < |targets| ==> targets[k].1 > totalCount
    {
      ghost var s := State();
      results, ti, current := results0, ti0, current0;
      var j := 0;
      while j < LOG_BUCKETS
        invariant 0 <= j <= LOG_BUCKETS
        invariant Filled(s, qs, targets, results, ti)
        invariant ti < |targets| ==> current == Sum(s.linear) + Sum(s.log[..j])
        invariant forall k :: ti <= k < |targets| ==> targets[k].1 > current
      {
        var count := log[j];
        SumPrefixStep(s.log, j);
        if count != 0 && ti < |targets| {
          assert s.linear == linear[..];
          results, ti := FillLogBucket(qs, targets, results, ti, j, current, minV, maxV);
          current := current + count;
        }
        j := j + 1;
      }
      assert s.log[..LOG_BUCKETS] == s.log;
    }

    /** The targets first reached in log bucket j, each answered by interpolation inside j. */
    method FillLogBucket(qs: seq<Quantile>, targets: seq<(nat, nat)>, results0: seq<Option<u64>>,
                         ti0: nat, j: nat, current: nat, minV: Option<u64>, maxV: Option<u64>)
      returns (results: seq<Option<u64>>, ti: nat)
      requires Valid() && totalCount > 0 && j < LOG_BUCKETS && log[j] > 0
      requires PairsFor(qs, totalCount, targets) && Filled(State(), qs, targets, results0, ti0)
      requires current == Sum(linear[..]) + Sum(log[..j])
      requires forall k :: ti0 <= k < |targets| ==> targets[k].1 > current
      requires minV == Min() && maxV == Max()
      ensures Filled(State(), qs, targets, results, ti)
      ensures forall k :: ti <= k < |targets| ==> targets[k].1 > current + log[j]
    {
      ghost var s := State();
      assert s.log[..j] == log[..j];
      results, ti := results0, ti0;
      var count := log[j];
      while ti < |targets| && current + count >= targets[ti].1
        invariant Filled(s, qs, targets, results, ti)
        invariant forall k :: ti <= k < |targets| ==> targets[k].1 > current
      {
        var interpolated := Interpolate(j, SatSub(targets[ti].1, current), count);
        LogHitAt(s, j, targets[ti].1, current);
        var v := if minV.None? then None else Some(Clamp(interpolated, minV.value, maxV.value));
        FillOne(s, qs, targets, results, ti, v);
        results := results[targets[ti].0 := v];
        ti := ti + 1;
      }
    }

    /** `reset()`: zero both arrays, then restore the sentinels. */
    method Reset()
      requires Valid()
      modifies this, linear, log
      ensures Valid() && IsFresh(State())
    {
      var i := 0;
      while i < LINEAR_BUCKETS
        invariant 0 <= i <= LINEAR_BUCKETS
        invariant forall k :: 0 <= k < i ==> linear[k] == 0
      {
        linear[i] := 0;
        i := i + 1;
      }
      var j := 0;
      while j < LOG_BUCKETS
        invariant 0 <= j <= LOG_BUCKETS
        invariant forall k :: 0 <= k < LINEAR_BUCKETS ==> linear[k] == 0
        invariant forall k :: 0 <= k < j ==> log[k] == 0
      {
        log[j] := 0;
        j := j + 1;
      }
      minValue := U64_MAX;
      maxValue := 0;
      totalCount := 0;
      sum := 0;
      FreshIsWellformed(State());
    }
  }
}
