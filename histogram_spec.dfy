/**
 * The hybrid latency histogram as a value: 1024 one-nanosecond linear
 * buckets, 64 power-of-two log buckets, the observed minimum (with the
 * u64::MAX "nothing recorded" sentinel), the observed maximum, the sample
 * count and the wrapping sum.  The class in `Histograms` keeps its arrays
 * and fields equal to one of these values; every query and every update
 * of the class is specified by the functions here.
 */
module HistogramSpec {
  import opened Arith
  import opened Wrappers

  const LINEAR_BUCKETS: nat := 1024
  const LOG_BUCKETS: nat := 64
  /** Largest addend `record` adds to the running sum. */
  const SUM_CAP: nat := U64_MAX - 1000

  datatype HistState = HistState(
    linear: seq<nat>,
    log: seq<nat>,
    minValue: u64,
    maxValue: u64,
    totalCount: nat,
    sum: u64)

  /** A percentile query after the `p` argument has been clamped into [0, 1]:
      `Lowest` is p == 0, `Highest` is p == 1 (or within f64::EPSILON of it in
      `percentiles`), and `Rank(t)` is any other p, with t = ceil(p * count). */
  datatype Quantile = Lowest | Highest | Rank(target: nat)

  /** The state invariant: fixed bucket layout, the count equals the bucket
      total, the min/max fields are the sentinels exactly while empty, and
      every non-empty bucket holds a sample inside [min, max]: a linear
      bucket i is such a sample itself, a log bucket overlaps the range. */
  ghost predicate Wellformed(s: HistState)
  {
    && |s.linear| == LINEAR_BUCKETS
    && |s.log| == LOG_BUCKETS
    && s.totalCount == Sum(s.linear) + Sum(s.log)
    && (s.totalCount == 0 ==> s.minValue == U64_MAX && s.maxValue == 0)
    && (s.totalCount > 0 ==> s.minValue <= s.maxValue)
    && (forall i :: 0 <= i < LINEAR_BUCKETS && s.linear[i] > 0 ==> s.minValue <= i <= s.maxValue)
    && (forall j :: 0 <= j < LOG_BUCKETS && s.log[j] > 0 ==>
          s.minValue <= BucketEnd(j) && BucketStart(j) <= s.maxValue)
  }

  /** A freshly created (or reset) histogram: every bucket zero, the
      minimum at its u64::MAX sentinel, maximum, count and sum zero. */
  ghost predicate IsFresh(s: HistState)
  {
    && |s.linear| == LINEAR_BUCKETS
    && |s.log| == LOG_BUCKETS
    && (forall i :: 0 <= i < LINEAR_BUCKETS ==> s.linear[i] == 0)
    && (forall i :: 0 <= i < LOG_BUCKETS ==> s.log[i] == 0)
    && s.minValue == U64_MAX && s.maxValue == 0 && s.totalCount == 0 && s.sum == 0
  }

  /** The state of `FastHistogram::new()`: every bucket 0, min at the sentinel. */
  function Empty(): (s: HistState)
    ensures IsFresh(s) && Wellformed(s)
  {
    var s := HistState(seq(LINEAR_BUCKETS, _ => 0), seq(LOG_BUCKETS, _ => 0), U64_MAX, 0, 0, 0);
    FreshIsWellformed(s);
    s
  }

  /** A fresh histogram satisfies the invariant: its bucket total is zero. */
  lemma FreshIsWellformed(s: HistState)
    requires IsFresh(s)
    ensures Wellformed(s)
  {
    SumZeros(s.linear);
    SumZeros(s.log);
  }

  /** `log_bucket_index`: floor(log2 v) for v >= 1024, and 0 below. */
  function LogBucketIndex(v: u64): (idx: nat)
    ensures idx < LOG_BUCKETS
  {
    if v < LINEAR_BUCKETS then 0
    else
      Log2Bounds(v);
      Pow2Known();
      Log2Below(v);
      Log2(v)
  }

  lemma Log2Below(v: nat)
    requires 1 <= v <= U64_MAX
    ensures Log2(v) < 64
  {
    Log2Bounds(v);
    Pow2Known();
    if Log2(v) >= 64 {
      Pow2Monotone(64, Log2(v));
    }
  }

  /** `bucket_start`: max(2^idx, 1024). */
  function BucketStart(idx: nat): (r: u64)
    requires idx < LOG_BUCKETS
    ensures r >= LINEAR_BUCKETS
  {
    Pow2Monotone(idx, 63);
    Pow2Known();
    if idx == 0 then LINEAR_BUCKETS else Max(Pow2(idx), LINEAR_BUCKETS)
  }

  /** `bucket_end` (exclusive): 2^(idx+1), or u64::MAX for the last bucket.
      Buckets 0 to 9 lie wholly inside the linear range and have no width;
      from bucket 10 on a bucket ends above its start. */
  function BucketEnd(idx: nat): (r: u64)
    requires idx < LOG_BUCKETS
    ensures idx < 10 ==> r <= BucketStart(idx)
    ensures 10 <= idx ==> BucketStart(idx) < r
  {
    Pow2Known();
    if idx >= 63 then U64_MAX
    else
      Pow2Monotone(idx + 1, 63);
      if idx < 10 then Pow2Monotone(idx + 1, 10); Pow2(idx + 1)
      else Pow2Monotone(10, idx); Pow2(idx + 1)
  }

  /** Every value from 1024 up lands in a log bucket between 10 and 63 whose
      range contains it; only the last bucket's end is u64::MAX itself. */
  lemma BucketOfValue(v: u64)
    requires v >= LINEAR_BUCKETS
    ensures 10 <= LogBucketIndex(v) <= 63
    ensures BucketStart(LogBucketIndex(v)) <= v
    ensures LogBucketIndex(v) < 63 ==> v < BucketEnd(LogBucketIndex(v))
    ensures v <= BucketEnd(LogBucketIndex(v))
  {
    var k := LogBucketIndex(v);
    assert k == Log2(v);
    Log2Bounds(v);
    Pow2Known();
    Pow2Below(10, k + 1);
    assert BucketStart(k) == Max(Pow2(k), LINEAR_BUCKETS);
    if k < 63 {
      assert BucketEnd(k) == Pow2(k + 1);
    }
  }

  /** Bucket starts never decrease, and each bucket ends where the next may start. */
  lemma BucketsOrdered(i: nat, j: nat)
    requires i < j < LOG_BUCKETS
    ensures BucketStart(i) <= BucketStart(j)
    ensures BucketEnd(i) <= BucketStart(j)
  {
    Pow2Monotone(i, j);
    Pow2Monotone(i + 1, j);
  }

  /** The state after `record(v)`; it keeps the invariant. */
  function RecordState(s: HistState, v: u64): (r: HistState)
    requires Wellformed(s)
    ensures Wellformed(r)
  {
    var lo, hi, sum := Min(s.minValue, v), Max(s.maxValue, v), (s.sum + Min(v, SUM_CAP)) % U64_MODULUS;
    if v < LINEAR_BUCKETS then
      SumIncrement(s.linear, v);
      HistState(s.linear[v := s.linear[v] + 1], s.log, lo, hi, s.totalCount + 1, sum)
    else
      var idx := LogBucketIndex(v);
      SumIncrement(s.log, idx);
      BucketOfValue(v);
      HistState(s.linear, s.log[idx := s.log[idx] + 1], lo, hi, s.totalCount + 1, sum)
  }

  /** `record` raises the count and exactly one bucket by one, keeps the
      invariant (so the count is still the bucket total) and folds v into
      the observed minimum and maximum. */
  lemma {:induction false} RecordKeepsInvariant(s: HistState, v: u64)
    requires Wellformed(s)
    ensures var r := RecordState(s, v);
      && Wellformed(r)
      && r.totalCount == s.totalCount + 1
      && r.minValue == Min(s.minValue, v)
      && r.maxValue == Max(s.maxValue, v)
      && (v < LINEAR_BUCKETS ==> r.log == s.log && r.linear == s.linear[v := s.linear[v] + 1])
      && (v >= LINEAR_BUCKETS ==>
            r.linear == s.linear && 10 <= LogBucketIndex(v) <= 63 &&
            r.log == s.log[LogBucketIndex(v) := s.log[LogBucketIndex(v)] + 1])
  {
    if v < LINEAR_BUCKETS {
      SumIncrement(s.linear, v);
    } else {
      BucketOfValue(v);
      SumIncrement(s.log, LogBucketIndex(v));
    }
  }

  /** The running sum adds min(v, u64::MAX - 1000) and wraps instead of panicking. */
  lemma RecordSum(s: HistState, v: u64)
    requires Wellformed(s)
    ensures RecordState(s, v).sum + (if s.sum + Min(v, SUM_CAP) > U64_MAX then U64_MODULUS else 0)
            == s.sum + Min(v, SUM_CAP)
  {
  }

  /** `min()`: tests the sentinel, not the count.  On a well-formed state
      it is `None` when nothing was recorded, and also when every sample
      was u64::MAX, which leaves every linear bucket empty; a reported
      minimum never exceeds the stored maximum. */
  function MinOpt(s: HistState): (r: Option<u64>)
    ensures Wellformed(s) && s.totalCount == 0 ==> r.None?
    ensures Wellformed(s) && r.None? ==> forall i :: 0 <= i < LINEAR_BUCKETS ==> s.linear[i] == 0
    ensures Wellformed(s) && r.Some? ==> r.value <= s.maxValue
  {
    if s.minValue == U64_MAX then None else Some(s.minValue)
  }

  /** `max()`: tests the count.  On a well-formed state it is `None`
      exactly when every bucket is empty, and a reported maximum is at
      least the stored minimum. */
  function MaxOpt(s: HistState): (r: Option<u64>)
    ensures Wellformed(s) ==> (r.None? <==> Sum(s.linear) + Sum(s.log) == 0)
    ensures Wellformed(s) && r.Some? ==> s.minValue <= r.value
  {
    if s.totalCount == 0 then None else Some(s.maxValue)
  }

  /** After `record(v)` the maximum is always present and is max(old, v);
      the minimum is min(old, v) unless every sample so far was u64::MAX,
      in which case `min()` still reports nothing. */
  lemma RecordedMinMax(s: HistState, v: u64)
    requires Wellformed(s)
    ensures MaxOpt(RecordState(s, v)) == Some(Max(s.maxValue, v))
    ensures MinOpt(RecordState(s, v)).None? <==> (s.minValue == U64_MAX && v == U64_MAX)
    ensures MinOpt(RecordState(s, v)).Some? ==> MinOpt(RecordState(s, v)).value == Min(s.minValue, v)
  {
  }

  /** `record_duration`: nanoseconds above u64::MAX saturate to u64::MAX. */
  function SaturateNanos(nanos: nat): (r: u64)
    ensures nanos <= U64_MAX ==> r == nanos
    ensures nanos > U64_MAX ==> r == U64_MAX
  {
    if nanos > U64_MAX then U64_MAX else nanos
  }

  /** Interpolated value for a rank `position` (1-based) inside log bucket
      `idx` holding `count` samples: start + (position - 1) * width / count,
      computed without overflow and saturated like the u128/u64 code. */
  function Interpolate(idx: nat, position: nat, count: nat): (v: u64)
    requires idx < LOG_BUCKETS
    ensures BucketStart(idx) <= v
    ensures count == 0 || idx < 10 ==> v == BucketStart(idx)
  {
    var start := BucketStart(idx);
    var width := SatSub(BucketEnd(idx), start);
    if count > 0 && width > 0 then
      var offset := Min(MulDiv(SatSub(position, 1), width, count), U64_MAX);
      Min(start + offset, U64_MAX)
    else start
  }

  /** The interpolated offset is strictly below the bucket width, so the
      value stays inside [start, end); an empty-width bucket yields its start. */
  lemma InterpolateInBucket(idx: nat, position: nat, count: nat)
    requires idx < LOG_BUCKETS && 0 < count && position <= count
    ensures BucketStart(idx) <= Interpolate(idx, position, count)
    ensures SatSub(BucketEnd(idx), BucketStart(idx)) > 0 ==>
              Interpolate(idx, position, count) < BucketEnd(idx)
    ensures SatSub(BucketEnd(idx), BucketStart(idx)) == 0 ==>
              Interpolate(idx, position, count) == BucketStart(idx)
  {
    var width := SatSub(BucketEnd(idx), BucketStart(idx));
    if width > 0 {
      ScaledBelow(SatSub(position, 1), width, count);
    }
  }

  lemma InterpolateMonotone(idx: nat, p1: nat, p2: nat, count: nat)
    requires idx < LOG_BUCKETS && p1 <= p2
    ensures Interpolate(idx, p1, count) <= Interpolate(idx, p2, count)
  {
    var width := SatSub(BucketEnd(idx), BucketStart(idx));
    if count > 0 && width > 0 {
      MulMonotone(width, SatSub(p1, 1), SatSub(p2, 1));
      DivMonotone(SatSub(p1, 1) * width, SatSub(p2, 1) * width, count);
    }
  }

  /** Interpolated values of one bucket never exceed the next bucket's start. */
  lemma InterpolateBelowNext(idx: nat, position: nat, count: nat)
    requires idx + 1 < LOG_BUCKETS && 0 < count && position <= count
    ensures Interpolate(idx, position, count) <= BucketStart(idx + 1)
  {
    InterpolateInBucket(idx, position, count);
    BucketsOrdered(idx, idx + 1);
  }

  datatype LinearOutcome = Found(value: nat) | Exhausted(current: nat)

  /** The walk over the linear buckets from bucket `i`, `current` samples
      already passed: stops at the first non-empty bucket whose cumulative
      count reaches the target. */
  function LinearScan(lin: seq<nat>, i: nat, current: nat, target: nat): (r: LinearOutcome)
    requires i <= |lin|
    ensures r.Exhausted? ==> current <= r.current
    ensures r.Exhausted? && current < r.current ==> r.current < target
    decreases |lin| - i
  {
    if i == |lin| then Exhausted(current)
    else if lin[i] == 0 then LinearScan(lin, i + 1, current, target)
    else if current + lin[i] >= target then Found(i)
    else LinearScan(lin, i + 1, current + lin[i], target)
  }

  datatype ScanOutcome = Hit(value: nat) | Miss

  /** The walk over the log buckets, interpolating inside the bucket that
      holds the target rank. */
  function LogScan(lg: seq<nat>, i: nat, current: nat, target: nat): (r: ScanOutcome)
    requires i <= |lg| <= LOG_BUCKETS
    ensures r.Hit? ==> LINEAR_BUCKETS <= r.value
    decreases |lg| - i
  {
    if i == |lg| then Miss
    else if lg[i] == 0 then LogScan(lg, i + 1, current, target)
    else if current + lg[i] >= target then Hit(Interpolate(i, SatSub(target, current), lg[i]))
    else LogScan(lg, i + 1, current + lg[i], target)
  }

  /** Both walks in sequence: the pre-clamp value for a target rank. */
  function Scan(s: HistState, target: nat): (r: ScanOutcome)
    requires Wellformed(s)
    ensures 1 <= target <= s.totalCount ==> r.Hit?
  {
    WalksReach(s, target);
    match LinearScan(s.linear, 0, 0, target)
    case Found(v) => Hit(v)
    case Exhausted(c) => LogScan(s.log, 0, c, target)
  }

  /** `percentile` for a target rank on a non-empty histogram: `None` when
      `min()` is `None`, otherwise the scanned value clamped into
      [min, max], or `max()` when the walk finds nothing. */
  function RankOpt(s: HistState, target: nat): (r: Option<u64>)
    requires Wellformed(s) && s.totalCount > 0
    ensures r.None? <==> s.minValue == U64_MAX
    ensures r.Some? ==> s.minValue <= r.value <= s.maxValue
  {
    if s.minValue == U64_MAX then None
    else match Scan(s, target)
      case Hit(v) => Some(Clamp(v, s.minValue, s.maxValue))
      case Miss => Some(s.maxValue)
  }

  /** `percentile(p)`: `None` on an empty histogram; otherwise every answer
      lies within the observed [min, max], p == 0 answers `min()` and
      p == 1 answers the maximum. */
  function PercentileOf(s: HistState, q: Quantile): (r: Option<u64>)
    requires Wellformed(s)
    ensures s.totalCount == 0 ==> r.None?
    ensures r.Some? ==> s.minValue <= r.value <= s.maxValue
    ensures q.Lowest? ==> r == MinOpt(s)
    ensures q.Highest? && s.totalCount > 0 ==> r == Some(s.maxValue)
  {
    if s.totalCount == 0 then None
    else match q
      case Lowest => MinOpt(s)
      case Highest => MaxOpt(s)
      case Rank(t) => RankOpt(s, t)
  }

  /** An empty histogram answers no query. */
  lemma EmptyAnswersNothing(s: HistState, q: Quantile)
    requires IsFresh(s)
    ensures Wellformed(s)
    ensures s.totalCount == 0 && MinOpt(s) == None && MaxOpt(s) == None
    ensures PercentileOf(s, q) == None
    ensures PercentilesEntry(s, q) == None
  {
    FreshIsWellformed(s);
  }

  // ---- facts about the two walks ----

  lemma {:induction false} LinearScanFacts(lin: seq<nat>, i: nat, current: nat, target: nat)
    requires i <= |lin|
    ensures LinearScan(lin, i, current, target).Found? ==>
              i <= LinearScan(lin, i, current, target).value < |lin|
    ensures LinearScan(lin, i, current, target).Found? ==>
              lin[LinearScan(lin, i, current, target).value] > 0
    decreases |lin| - i
  {
    if i < |lin| {
      LinearScanFacts(lin, i + 1, current, target);
      LinearScanFacts(lin, i + 1, current + lin[i], target);
    }
  }

  /** A larger target stops no earlier, and neither walk stops if the smaller one does not. */
  lemma {:induction false} LinearScanMonotone(lin: seq<nat>, i: nat, current: nat, t1: nat, t2: nat)
    requires i <= |lin| && t1 <= t2
    ensures LinearScan(lin, i, current, t1).Exhausted? ==>
              LinearScan(lin, i, current, t2) == LinearScan(lin, i, current, t1)
    ensures LinearScan(lin, i, current, t1).Found? && LinearScan(lin, i, current, t2).Found? ==>
              LinearScan(lin, i, current, t1).value <= LinearScan(lin, i, current, t2).value
    decreases |lin| - i
  {
    if i < |lin| {
      if lin[i] == 0 {
        LinearScanMonotone(lin, i + 1, current, t1, t2);
      } else if current + lin[i] >= t1 {
        LinearScanFacts(lin, i + 1, current + lin[i], t2);
      } else {
        LinearScanMonotone(lin, i + 1, current + lin[i], t1, t2);
      }
    }
  }

  lemma {:induction false} LogScanHitAbove(lg: seq<nat>, i: nat, current: nat, target: nat)
    requires i < |lg| == LOG_BUCKETS
    ensures LogScan(lg, i, current, target).Hit? ==>
              LogScan(lg, i, current, target).value >= BucketStart(i)
    decreases |lg| - i
  {
    if lg[i] == 0 || current + lg[i] < target {
      var next := if lg[i] == 0 then current else current + lg[i];
      if i + 1 < |lg| {
        LogScanHitAbove(lg, i + 1, next, target);
        BucketsOrdered(i, i + 1);
      }
    } else {
      InterpolateInBucket(i, SatSub(target, current), lg[i]);
    }
  }

  lemma {:induction false} LogScanMonotone(lg: seq<nat>, i: nat, current: nat, t1: nat, t2: nat)
    requires i <= |lg| == LOG_BUCKETS && t1 <= t2
    ensures LogScan(lg, i, current, t1).Miss? ==> LogScan(lg, i, current, t2).Miss?
    ensures LogScan(lg, i, current, t1).Hit? && LogScan(lg, i, current, t2).Hit? ==>
              LogScan(lg, i, current, t1).value <= LogScan(lg, i, current, t2).value
    decreases |lg| - i
  {
    if i < |lg| {
      if lg[i] == 0 {
        LogScanMonotone(lg, i + 1, current, t1, t2);
      } else if current + lg[i] >= t2 {
        InterpolateMonotone(i, SatSub(t1, current), SatSub(t2, current), lg[i]);
      } else if current + lg[i] >= t1 {
        if i + 1 < |lg| {
          InterpolateBelowNext(i, SatSub(t1, current), lg[i]);
          LogScanHitAbove(lg, i + 1, current + lg[i], t2);
        }
      } else {
        LogScanMonotone(lg, i + 1, current + lg[i], t1, t2);
      }
    }
  }

  /** The pre-clamp value is non-decreasing in the target rank. */
  lemma ScanMonotone(s: HistState, t1: nat, t2: nat)
    requires Wellformed(s) && t1 <= t2
    ensures Scan(s, t1).Miss? ==> Scan(s, t2).Miss?
    ensures Scan(s, t1).Hit? && Scan(s, t2).Hit? ==> Scan(s, t1).value <= Scan(s, t2).value
  {
    LinearScanMonotone(s.linear, 0, 0, t1, t2);
    LinearScanFacts(s.linear, 0, 0, t1);
    match LinearScan(s.linear, 0, 0, t1)
    case Found(v1) => {
      match LinearScan(s.linear, 0, 0, t2)
      case Found(_) =>
      case Exhausted(c) =>
        LogScanHitAbove(s.log, 0, c, t2);
    }
    case Exhausted(c) =>
      LogScanMonotone(s.log, 0, c, t1, t2);
  }

  /** `percentile` is monotone in the rank: a larger rank never yields a smaller value. */
  lemma RankMonotone(s: HistState, t1: nat, t2: nat)
    requires Wellformed(s) && s.totalCount > 0 && t1 <= t2
    ensures RankOpt(s, t1).Some? <==> RankOpt(s, t2).Some?
    ensures RankOpt(s, t1).Some? ==> RankOpt(s, t1).value <= RankOpt(s, t2).value
  {
    ScanMonotone(s, t1, t2);
  }

  /** Number of samples in linear buckets 0..u. */
  function CumCount(lin: seq<nat>, u: nat): nat
    requires u < |lin|
  {
    Sum(lin[..u + 1])
  }

  /** In the linear range the answer is exact: the smallest value whose
      cumulative count reaches the rank. */
  lemma {:induction false} LinearRankIsSmallest(lin: seq<nat>, i: nat, target: nat)
    requires i <= |lin| && target > Sum(lin[..i])
    ensures LinearScan(lin, i, Sum(lin[..i]), target).Found? ==>
              var v := LinearScan(lin, i, Sum(lin[..i]), target).value;
              && i <= v < |lin|
              && CumCount(lin, v) >= target
              && forall u :: i <= u < v ==> CumCount(lin, u) < target
    ensures LinearScan(lin, i, Sum(lin[..i]), target).Exhausted? ==>
              LinearScan(lin, i, Sum(lin[..i]), target).current == Sum(lin) < target
    decreases |lin| - i
  {
    if i == |lin| {
      assert lin[..i] == lin;
    } else {
      SumPrefixStep(lin, i);
      if lin[i] == 0 || Sum(lin[..i]) + lin[i] < target {
        LinearRankIsSmallest(lin, i + 1, target);
      }
    }
  }

  /** A rank answered in the linear range is reported exactly as the walk
      finds it: the clamp into [min, max] changes nothing there, so
      `percentile` returns the smallest bucket whose cumulative count
      reaches the rank. */
  lemma LinearAnswerIsExact(s: HistState, t: nat)
    requires Wellformed(s) && LinearScan(s.linear, 0, 0, t).Found?
    ensures var v := LinearScan(s.linear, 0, 0, t).value;
      && v < LINEAR_BUCKETS && s.linear[v] > 0
      && PercentileOf(s, Rank(t)) == Some(v)
      && (1 <= t ==> CumCount(s.linear, v) >= t && forall u :: 0 <= u < v ==> CumCount(s.linear, u) < t)
  {
    var v := LinearScan(s.linear, 0, 0, t).value;
    LinearScanFacts(s.linear, 0, 0, t);
    assert s.linear[v] > 0;
    if 1 <= t {
      assert s.linear[..0] == [];
      LinearRankIsSmallest(s.linear, 0, t);
    }
  }

  /** Walking the linear buckets from the start is the same as resuming at
      bucket i with the prefix total, as long as the target lies beyond it. */
  lemma {:induction false} LinearSkip(lin: seq<nat>, i: nat, target: nat)
    requires i <= |lin| && target > Sum(lin[..i])
    ensures LinearScan(lin, 0, 0, target) == LinearScan(lin, i, Sum(lin[..i]), target)
  {
    if i > 0 {
      SumPrefixStep(lin, i - 1);
      LinearSkip(lin, i - 1, target);
    }
  }

  lemma {:induction false} LogSkip(lg: seq<nat>, i: nat, base: nat, target: nat)
    requires i <= |lg| <= LOG_BUCKETS && target > base + Sum(lg[..i])
    ensures LogScan(lg, 0, base, target) == LogScan(lg, i, base + Sum(lg[..i]), target)
  {
    if i > 0 {
      SumPrefixStep(lg, i - 1);
      LogSkip(lg, i - 1, base, target);
    }
  }

  /** The log walk resumed at bucket i, with the prefix total passed, finds
      every target between that total and the full total. */
  lemma {:induction false} LogScanReaches(lg: seq<nat>, i: nat, base: nat, target: nat)
    requires i <= |lg| <= LOG_BUCKETS
    requires base + Sum(lg[..i]) < target <= base + Sum(lg)
    ensures LogScan(lg, i, base + Sum(lg[..i]), target).Hit?
    decreases |lg| - i
  {
    assert lg[..|lg|] == lg;
    if i < |lg| {
      SumPrefixStep(lg, i);
      if lg[i] == 0 || base + Sum(lg[..i]) + lg[i] < target {
        LogScanReaches(lg, i + 1, base, target);
      }
    }
  }

  /** A rank between 1 and the count is reached by one of the two walks. */
  lemma WalksReach(s: HistState, target: nat)
    requires Wellformed(s)
    ensures 1 <= target <= s.totalCount ==>
              || LinearScan(s.linear, 0, 0, target).Found?
              || LogScan(s.log, 0, LinearScan(s.linear, 0, 0, target).current, target).Hit?
  {
    if 1 <= target <= s.totalCount {
      assert s.linear[..0] == [] && s.log[..0] == [];
      LinearRankIsSmallest(s.linear, 0, target);
      if LinearScan(s.linear, 0, 0, target).Exhausted? {
        LogScanReaches(s.log, 0, Sum(s.linear), target);
      }
    }
  }

  /** A rank beyond every bucket falls through both walks. */
  lemma BeyondTotalMisses(s: HistState, target: nat)
    requires Wellformed(s) && target > s.totalCount
    ensures LinearScan(s.linear, 0, 0, target) == Exhausted(Sum(s.linear))
    ensures Scan(s, target) == Miss
  {
    assert s.linear[..|s.linear|] == s.linear;
    assert s.log[..|s.log|] == s.log;
    LinearSkip(s.linear, |s.linear|, target);
    LogSkip(s.log, |s.log|, Sum(s.linear), target);
  }

  // ---- several quantiles in one pass (`percentiles`) ----

  /** Target rank of a quantile in `percentiles`: 0 for p == 0, the count for p ~ 1. */
  function Target(q: Quantile, n: nat): (r: nat)
    ensures RankFits(q, n) && n > 0 ==> r <= n && (r == 0 <==> q.Lowest?)
  {
    match q
    case Lowest => 0
    case Highest => n
    case Rank(t) => t
  }

  /** A rank that ceil(p * n) can produce for 0 < p < 1: at least 1 and at most the count. */
  predicate RankFits(q: Quantile, n: nat)
  {
    q.Rank? ==> 1 <= q.target && (n > 0 ==> q.target <= n)
  }

  /** The value the single pass assigns to a target rank: `min()` for rank 0,
      `max()` for a rank beyond every bucket, otherwise the same walk as
      `percentile` (with the clamp skipped, giving `None`, when `min()` is `None`). */
  function MultiRank(s: HistState, t: nat): (r: Option<u64>)
    requires Wellformed(s) && s.totalCount > 0
    ensures r.None? ==> s.minValue == U64_MAX
    ensures r.Some? ==> s.minValue <= r.value <= s.maxValue
  {
    if t == 0 then MinOpt(s)
    else if t > s.totalCount then MaxOpt(s)
    else RankOpt(s, t)
  }

  /** One entry of `percentiles`. */
  function PercentilesEntry(s: HistState, q: Quantile): (r: Option<u64>)
    requires Wellformed(s)
    ensures s.totalCount == 0 ==> r.None?
    ensures r.Some? ==> s.minValue <= r.value <= s.maxValue
    ensures q.Highest? && s.totalCount > 0 ==> r == Some(s.maxValue)
  {
    if s.totalCount == 0 then None
    else match q
      case Lowest => MinOpt(s)
      case Highest => MaxOpt(s)
      case Rank(t) => MultiRank(s, t)
  }

  /** Every entry of `percentiles` equals the single `percentile` query for
      the same quantile. */
  lemma PercentilesAgree(s: HistState, q: Quantile)
    requires Wellformed(s) && RankFits(q, s.totalCount)
    ensures PercentilesEntry(s, q) == PercentileOf(s, q)
  {
  }

  /** Entries of `percentiles` are non-decreasing in the rank. */
  lemma PercentilesMonotone(s: HistState, t1: nat, t2: nat)
    requires Wellformed(s) && 1 <= t1 <= t2
    requires RankFits(Rank(t2), s.totalCount)
    ensures PercentilesEntry(s, Rank(t1)).Some? ==> PercentilesEntry(s, Rank(t2)).Some?
    ensures PercentilesEntry(s, Rank(t1)).Some? ==>
              PercentilesEntry(s, Rank(t1)).value <= PercentilesEntry(s, Rank(t2)).value
  {
    if s.totalCount > 0 {
      RankMonotone(s, t1, t2);
    }
  }

  /** The clamp of the single pass, with the missing-minimum case answered by `None`. */
  function ClampObserved(s: HistState, v: nat): Option<u64>
    requires Wellformed(s) && s.totalCount > 0
  {
    if s.minValue == U64_MAX then None else Some(Clamp(v, s.minValue, s.maxValue))
  }

  /** A target first reached in linear bucket i is answered by i. */
  lemma LinearHitAt(s: HistState, i: nat, t: nat)
    requires Wellformed(s) && s.totalCount > 0 && i < LINEAR_BUCKETS && s.linear[i] > 0
    requires Sum(s.linear[..i]) < t <= Sum(s.linear[..i]) + s.linear[i]
    ensures MultiRank(s, t) == ClampObserved(s, i)
  {
    LinearSkip(s.linear, i, t);
    SumPrefixStep(s.linear, i);
    SumPrefixBound(s.linear, i + 1);
  }

  /** A target first reached in log bucket j is answered by interpolation in j. */
  lemma LogHitAt(s: HistState, j: nat, t: nat, current: nat)
    requires Wellformed(s) && s.totalCount > 0 && j < LOG_BUCKETS && s.log[j] > 0
    requires current == Sum(s.linear) + Sum(s.log[..j])
    requires current < t <= current + s.log[j]
    ensures MultiRank(s, t) == ClampObserved(s, Interpolate(j, SatSub(t, current), s.log[j]))
  {
    assert s.linear[..|s.linear|] == s.linear;
    LinearSkip(s.linear, |s.linear|, t);
    LogSkip(s.log, j, Sum(s.linear), t);
    SumPrefixStep(s.log, j);
    SumPrefixBound(s.log, j + 1);
    var v := Interpolate(j, SatSub(t, current), s.log[j]);
    assert LogScan(s.log, j, current, t) == Hit(v);
    assert Scan(s, t) == Hit(v);
  }

  ghost predicate SortedByTarget(ps: seq<(nat, nat)>)
  {
    forall a, b :: 0 <= a < b < |ps| ==> ps[a].1 <= ps[b].1
  }

  /** Inserts p before the first pair whose target is not smaller. */
  function InsertByTarget(p: (nat, nat), ps: seq<(nat, nat)>): (r: seq<(nat, nat)>)
    ensures |r| == |ps| + 1
  {
    if ps == [] || p.1 <= ps[0].1 then [p] + ps
    else [ps[0]] + InsertByTarget(p, ps[1..])
  }

  /** Inserting adds exactly p. */
  lemma {:induction false} InsertByTargetAdds(p: (nat, nat), ps: seq<(nat, nat)>)
    ensures multiset(InsertByTarget(p, ps)) == multiset(ps) + multiset{p}
  {
    if ps == [] || p.1 <= ps[0].1 {
    } else {
      var tail := ps[1..];
      InsertByTargetAdds(p, tail);
      assert ps == [ps[0]] + tail;
      assert InsertByTarget(p, ps) == [ps[0]] + InsertByTarget(p, tail);
    }
  }

  /** Every element of the result is p or comes from ps. */
  lemma {:induction false} InsertByTargetFrom(p: (nat, nat), ps: seq<(nat, nat)>)
    ensures forall x :: x in InsertByTarget(p, ps) ==> x == p || x in ps
  {
    if ps == [] || p.1 <= ps[0].1 {
    } else {
      var tail := ps[1..];
      InsertByTargetFrom(p, tail);
      assert ps == [ps[0]] + tail;
      assert InsertByTarget(p, ps) == [ps[0]] + InsertByTarget(p, tail);
    }
  }

  /** Inserting into a sorted sequence keeps it sorted. */
  lemma {:induction false} InsertByTargetSorted(p: (nat, nat), ps: seq<(nat, nat)>)
    requires SortedByTarget(ps)
    ensures SortedByTarget(InsertByTarget(p, ps))
  {
    if ps == [] || p.1 <= ps[0].1 {
    } else {
      var tail := ps[1..];
      var rest := InsertByTarget(p, tail);
      var r := InsertByTarget(p, ps);
      assert r == [ps[0]] + rest;
      InsertByTargetSorted(p, tail);
      InsertByTargetFrom(p, tail);
      forall k | 0 <= k < |rest|
        ensures ps[0].1 <= rest[k].1
      {
        assert rest[k] in rest;
        if rest[k] != p {
          var i :| 0 <= i < |tail| && tail[i] == rest[k];
          assert ps[i + 1] == rest[k];
        }
      }
      forall a, b | 0 <= a < b < |r|
        ensures r[a].1 <= r[b].1
      {
        assert r[b] == rest[b - 1];
        if a > 0 {
          assert r[a] == rest[a - 1];
        }
      }
    }
  }

  /** `sort_by_key` on the target rank (an insertion sort: the order among
      equal ranks does not affect any entry). */
  function SortByTarget(ps: seq<(nat, nat)>): (r: seq<(nat, nat)>)
    ensures SortedByTarget(r)
    ensures multiset(r) == multiset(ps)
  {
    if ps == [] then []
    else
      assert ps == [ps[0]] + ps[1..];
      var rest := SortByTarget(ps[1..]);
      InsertByTargetSorted(ps[0], rest);
      InsertByTargetAdds(ps[0], rest);
      InsertByTarget(ps[0], rest)
  }

  /** `(index, target)` for each requested quantile, in input order. */
  function TargetPairs(qs: seq<Quantile>, n: nat): (ps: seq<(nat, nat)>)
    ensures |ps| == |qs|
    ensures forall k :: 0 <= k < |qs| ==> ps[k] == (k, Target(qs[k], n))
  {
    seq(|qs|, k requires 0 <= k < |qs| => (k, Target(qs[k], n)))
  }

  /** A rearrangement of the pairs still names every input index exactly with its own target. */
  lemma RearrangedPairs(qs: seq<Quantile>, n: nat, r: seq<(nat, nat)>)
    requires multiset(r) == multiset(TargetPairs(qs, n))
    ensures forall k :: 0 <= k < |r| ==> r[k].0 < |qs| && r[k].1 == Target(qs[r[k].0], n)
    ensures forall j :: 0 <= j < |qs| ==> (j, Target(qs[j], n)) in r
  {
    var ps := TargetPairs(qs, n);
    forall k | 0 <= k < |r|
      ensures r[k].0 < |qs| && r[k].1 == Target(qs[r[k].0], n)
    {
      assert r[k] in multiset(r);
      assert r[k] in ps;
    }
    forall j | 0 <= j < |qs|
      ensures (j, Target(qs[j], n)) in r
    {
      assert ps[j] in multiset(ps);
      assert ps[j] in r;
    }
  }

  /** The sorted `(index, target)` list of a `percentiles` call: sorted by
      target, each pair naming an input index with its own target, and every
      input index present. */
  ghost predicate PairsFor(qs: seq<Quantile>, n: nat, targets: seq<(nat, nat)>)
  {
    && SortedByTarget(targets)
    && (forall k :: 0 <= k < |targets| ==>
          targets[k].0 < |qs| && targets[k].1 == Target(qs[targets[k].0], n))
    && (forall j :: 0 <= j < |qs| ==> (j, Target(qs[j], n)) in targets)
  }

  /** The first `ti` targets of the pass have been answered. */
  ghost predicate Filled(s: HistState, qs: seq<Quantile>, targets: seq<(nat, nat)>,
                         results: seq<Option<u64>>, ti: nat)
  {
    && Wellformed(s) && s.totalCount > 0
    && ti <= |targets| && |results| == |qs|
    && (forall k :: 0 <= k < ti ==>
          targets[k].0 < |qs| &&
          results[targets[k].0] == MultiRank(s, Target(qs[targets[k].0], s.totalCount)))
  }

  /** Answering the next target keeps the earlier answers (a repeated index gets the same answer). */
  lemma FillOne(s: HistState, qs: seq<Quantile>, targets: seq<(nat, nat)>,
                results: seq<Option<u64>>, ti: nat, v: Option<u64>)
    requires PairsFor(qs, s.totalCount, targets) && Filled(s, qs, targets, results, ti)
    requires ti < |targets| && v == MultiRank(s, targets[ti].1)
    ensures Filled(s, qs, targets, results[targets[ti].0 := v], ti + 1)
  {
  }

  /** Once every target is answered, every input position holds its own answer. */
  lemma FilledAll(s: HistState, qs: seq<Quantile>, targets: seq<(nat, nat)>, results: seq<Option<u64>>)
    requires PairsFor(qs, s.totalCount, targets) && Filled(s, qs, targets, results, |targets|)
    ensures forall m :: 0 <= m < |qs| ==> results[m] == MultiRank(s, Target(qs[m], s.totalCount))
  {
    forall m | 0 <= m < |qs|
      ensures results[m] == MultiRank(s, Target(qs[m], s.totalCount))
    {
      assert (m, Target(qs[m], s.totalCount)) in targets;
    }
  }

  /** A `percentiles` entry is the pass's answer for its target, except that p ~ 1 is `max()`. */
  lemma EntryOfTarget(s: HistState, q: Quantile)
    requires Wellformed(s) && s.totalCount > 0
    ensures q.Highest? ==> PercentilesEntry(s, q) == MaxOpt(s)
    ensures !q.Highest? ==> PercentilesEntry(s, q) == MultiRank(s, Target(q, s.totalCount))
  {
  }

  // ---- `percentiles` as written ----

  /** As written, the `percentiles` pass answers every target it reaches
      inside the buckets with `v.clamp(min_v.unwrap(), max_v.unwrap())`; a
      target is reached inside the buckets exactly when the walk hits it, so
      the call panics when that happens while `min()` is `None`. */
  predicate UnwrapPanicsAt(s: HistState, t: nat): (r: bool)
    requires Wellformed(s)
    ensures r ==> LinearScan(s.linear, 0, 0, t).Exhausted?
  {
    LinearNeedsNoUnwrapCheck(s, t);
    s.totalCount > 0 && 1 <= t && Scan(s, t).Hit? && MinOpt(s).None?
  }

  /** The linear pass never meets a missing minimum: a linear bucket it
      stops at holds a sample, so `min()` answers. */
  lemma LinearNeedsNoUnwrapCheck(s: HistState, t: nat)
    requires Wellformed(s)
    ensures LinearScan(s.linear, 0, 0, t).Found? ==> MinOpt(s).Some?
  {
    LinearScanFacts(s.linear, 0, 0, t);
  }

  /** `LogBucketIndex(u64::MAX)` is the last bucket. */
  lemma LastBucketOfMax()
    ensures LogBucketIndex(U64_MAX) == 63
  {
    Pow2Known();
    Log2Bounds(U64_MAX);
    Pow2Below(63, Log2(U64_MAX) + 1);
  }

  /**
   * Recording u64::MAX alone into a fresh histogram: `percentile(1.0)`
   * answers u64::MAX, but the target rank 1 of `percentiles(&[1.0])` is hit
   * in the last log bucket while `min()` is `None`, so the call as written
   * panics; the corrected pass answers u64::MAX for p ~ 1 and `None` for
   * any rank, like `percentile`.
   */
  lemma PercentilesPanicOnlyMax(s: HistState)
    requires IsFresh(s)
    ensures Wellformed(s) && Wellformed(RecordState(s, U64_MAX))
    ensures PercentileOf(RecordState(s, U64_MAX), Highest) == Some(U64_MAX)
    ensures UnwrapPanicsAt(RecordState(s, U64_MAX), Target(Highest, 1))
    ensures PercentilesEntry(RecordState(s, U64_MAX), Highest) == Some(U64_MAX)
    ensures PercentilesEntry(RecordState(s, U64_MAX), Rank(1)) == PercentileOf(RecordState(s, U64_MAX), Rank(1)) == None
  {
    FreshIsWellformed(s);
    RecordKeepsInvariant(s, U64_MAX);
    LastBucketOfMax();
    var r := RecordState(s, U64_MAX);
    assert r.linear == s.linear;
    SumZeros(r.linear);
    assert r.linear[..|r.linear|] == r.linear;
    LinearSkip(r.linear, |r.linear|, 1);
    SumZeros(r.log[..63]);
    LogSkip(r.log, 63, 0, 1);
    assert Scan(r, 1).Hit?;
  }

  /** Recording 100, 200 and 300: count 3, min 100, max 300, median 200. */
  lemma MedianExample(s0: HistState)
    requires IsFresh(s0)
    ensures Wellformed(s0)
    ensures var s3 := RecordState(RecordState(RecordState(s0, 100), 200), 300);
      && Wellformed(s3)
      && s3.totalCount == 3
      && MinOpt(s3) == Some(100) && MaxOpt(s3) == Some(300)
      && PercentileOf(s3, Rank((s3.totalCount + 1) / 2)) == Some(200)
  {
    FreshIsWellformed(s0);
    var s1 := RecordState(s0, 100);
    RecordKeepsInvariant(s0, 100);
    var s2 := RecordState(s1, 200);
    RecordKeepsInvariant(s1, 200);
    var s3 := RecordState(s2, 300);
    RecordKeepsInvariant(s2, 300);
    var lin := s3.linear;
    assert lin[..200] == s0.linear[..200][100 := 0 + 1];
    SumZeros(s0.linear[..200]);
    SumIncrement(s0.linear[..200], 100);
    LinearSkip(lin, 200, 2);
    assert LinearScan(lin, 0, 0, 2) == Found(200);
  }
}
