# benchmark — a verified model of the timing and histogram core

This Dafny project models the core of the `benchmark` crate. The crate is a small Rust library for timing code and collecting latency metrics. The model has seven parts:

- **`Histogram`** (`src/histogram.rs`) is a lock-free latency histogram with 1024 one-nanosecond linear buckets for 0–1023 ns and 64 power-of-two logarithmic buckets above that. It also keeps an observed minimum (u64::MAX stands for "nothing recorded"), an observed maximum, a sample count and a wrapping sum. Queries are `min`, `max`, `count`, `is_empty`, the nearest-rank `percentile` with linear interpolation inside a logarithmic bucket, `median`, the single-pass `percentiles`, and `reset`.
  - `HistogramSpec` states all of this on an immutable `HistState` value.
  - `Histograms.Histogram` is the imperative class over two `array<nat>` bucket arrays. Each of its methods is proved to produce exactly the state or answer the value-level specification gives.
- **`Watch`** (`src/watch.rs`) is a registry from metric name to histogram. Its lower and upper bounds are normalised once at construction, and every recorded value is clamped into them. `snapshot` reports count, min, max and five percentiles per name. `WatchBuilder` is also modelled.
- **`Timer`** (`src/timer.rs`) is a scope timer. It records its elapsed time into a `Watch` exactly once: when stopped early, or otherwise when dropped.
- **`Collector`** (`src/collector.rs`, repeated in `src/lib.rs`) keeps named lists of durations. From a list it derives count, total, min, max and the floor mean.
- **`Duration`** (`src/duration.rs`) is a u128 nanosecond count with unit conversions and its `Display` rendering. Its derived ordering is the order of the counts, so the model compares `nanos` directly.
- **`Measurement`** (`src/measurement.rs`) is a named duration with a timestamp.
- **The crate root** (`src/lib.rs`) holds the disabled-build `measure` and `measure_named`.

Integers are unbounded in Dafny. The model names the source's widths with the subset types `u64` and `u128`, and it writes out every saturation, clamp and wrap-around the source performs, except the wrapping of the histogram's u64 counters (see Left out).

## Model

| member | source | states |
|---|---|---|
| HistogramSpec.Empty | src/histogram.rs:110-119 | a new histogram: every bucket zero, min sentinel u64::MAX, max 0, count 0, sum 0, and the state invariant holds |
| HistogramSpec.FreshIsWellformed | src/histogram.rs:110-119 | any freshly constructed state satisfies the invariant (bucket layout, count equals bucket total, sentinels exactly while empty) |
| HistogramSpec.LogBucketIndex | src/histogram.rs:691-699 | the index of a value's logarithmic bucket is always below 64 |
| HistogramSpec.BucketStart | src/histogram.rs:703-709 | a logarithmic bucket never starts below the 1024 ns linear range |
| HistogramSpec.BucketEnd | src/histogram.rs:713-719 | buckets 0 to 9 end no later than they start (no width inside the linear range); from bucket 10 on a bucket ends above its start |
| HistogramSpec.BucketOfValue | src/histogram.rs:691-719 | every value of at least 1024 falls in a bucket numbered 10 to 63 with bucket_start <= v < bucket_end (v <= u64::MAX for the last bucket) |
| HistogramSpec.BucketsOrdered | src/histogram.rs:703-719 | logarithmic buckets ascend and do not overlap: bucket i ends no later than bucket j starts for i < j |
| HistogramSpec.RecordState | src/histogram.rs:151-173 | recording a value keeps the state invariant, including that every non-empty linear bucket i has min <= i <= max and every non-empty log bucket overlaps [min, max] |
| HistogramSpec.RecordKeepsInvariant | src/histogram.rs:151-173 | `record(v)` adds one to the count, folds v into min and max, and increments exactly one bucket: linear bucket v below 1024, else log bucket `log_bucket_index(v)`; nothing else changes |
| HistogramSpec.RecordSum | src/histogram.rs:156-157 | the sum grows by min(v, u64::MAX − 1000), wrapping modulo 2^64 |
| HistogramSpec.MinOpt | src/histogram.rs:214-221 | `min()` is `None` on an empty histogram, and whenever it is `None` no linear bucket holds a sample; a reported minimum never exceeds the stored maximum |
| HistogramSpec.MaxOpt | src/histogram.rs:234-241 | `max()` is `None` exactly when every bucket is empty; a reported maximum is at least the stored minimum |
| HistogramSpec.RecordedMinMax | src/histogram.rs:214-241 | after `record(v)`, `max()` is the larger of the old max and v; `min()` is `None` only if every sample so far is u64::MAX, and otherwise the smaller of old min and v |
| HistogramSpec.SaturateNanos | src/histogram.rs:191-201 | a u128 nanosecond count saturates to u64::MAX |
| HistogramSpec.Interpolate | src/histogram.rs:404-417 | the interpolated value is never below the bucket start, and is the bucket start itself when the bucket has no samples or lies inside the linear range (buckets 0 to 9, no width) |
| HistogramSpec.InterpolateInBucket | src/histogram.rs:404-417 | an interpolated value lies in its bucket: at least bucket_start, and below bucket_end when the bucket has width |
| HistogramSpec.InterpolateMonotone | src/histogram.rs:404-417 | a higher position inside a bucket never interpolates to a smaller value |
| HistogramSpec.InterpolateBelowNext | src/histogram.rs:404-417 | an interpolated value never exceeds the start of the next bucket |
| HistogramSpec.LinearScan | src/histogram.rs:379-390 | the linear walk only accumulates counts, and falls through with a larger count only when that count is still below the target rank |
| HistogramSpec.LogScan | src/histogram.rs:393-421 | every answer of the logarithmic walk is at least 1024, outside the linear range |
| HistogramSpec.RankOpt | src/histogram.rs:360-424 | for 0 < p < 1 the answer is `None` exactly when `min()` is `None` (every sample is u64::MAX), and otherwise lies within the observed [min, max] |
| HistogramSpec.PercentileOf | src/histogram.rs:342-425 | `None` on an empty histogram; otherwise every answer lies within the observed [min, max], p = 0 answers `min()` and p = 1 answers the stored maximum |
| HistogramSpec.LinearScanFacts | src/histogram.rs:379-390 | the linear scan only stops at a non-empty bucket it has not passed |
| HistogramSpec.LinearScanMonotone | src/histogram.rs:379-390 | a larger target rank is found no earlier in the linear scan |
| HistogramSpec.LogScanHitAbove | src/histogram.rs:393-421 | a hit in the logarithmic scan is at least the start of the bucket where the scan began |
| HistogramSpec.LogScanMonotone | src/histogram.rs:393-421 | a larger target rank is answered no lower by the logarithmic scan, and misses whenever a smaller one misses |
| HistogramSpec.ScanMonotone | src/histogram.rs:379-421 | the whole bucket walk is monotone in the target rank |
| HistogramSpec.RankMonotone | src/histogram.rs:360-424 | for ranks 1 ≤ t1 ≤ t2, `percentile` answers both or neither, and never less for t2 |
| HistogramSpec.LinearRankIsSmallest | src/histogram.rs:379-390 | the value the linear walk stops at (before the clamp) is the smallest value whose cumulative count reaches the target rank (nearest rank); an exhausted scan means the linear total is below the target |
| HistogramSpec.LinearAnswerIsExact | src/histogram.rs:379-390 | "exact to the nanosecond" in the linear range: when the walk stops at linear bucket v, the clamp into [min, max] changes nothing and `percentile` reports v itself, the smallest value whose cumulative count reaches the rank |
| HistogramSpec.LinearSkip | src/histogram.rs:379-390 | skipping buckets whose cumulative count is below the target does not change the scan's answer |
| HistogramSpec.LogSkip | src/histogram.rs:393-421 | the same for logarithmic buckets |
| HistogramSpec.Scan | src/histogram.rs:379-421 | the two walks in sequence reach every rank from 1 to the count, so `percentile`'s final `max()` serves only ranks beyond the count |
| HistogramSpec.LogScanReaches | src/histogram.rs:393-421 | the log walk finds every target between the total already passed and the full total |
| HistogramSpec.WalksReach | src/histogram.rs:379-421 | a rank from 1 to the count is found by the linear walk or, after it, by the log walk |
| HistogramSpec.BeyondTotalMisses | src/histogram.rs:423-424 | a target above the count is never reached in the buckets, so the answer falls back to `max()` |
| HistogramSpec.EmptyAnswersNothing | src/histogram.rs:342-347 | an empty histogram has count 0, `min()` and `max()` are `None`, and every `percentile` and `percentiles` entry is `None` |
| HistogramSpec.PercentilesAgree | src/histogram.rs:502-614 | every `percentiles` entry equals the single `percentile` query for the same `Quantile` (p = 0, p = 1, or a rank ceil(p·n) can produce) |
| HistogramSpec.MultiRank | src/histogram.rs:551-597 | the value `percentiles` assigns to a target rank is `None` only when `min()` is `None`, and otherwise lies within the observed [min, max] |
| HistogramSpec.PercentilesEntry | src/histogram.rs:502-614 | an entry of `percentiles` is `None` on an empty histogram, lies within the observed [min, max] otherwise, and is the stored maximum for p ≈ 1 |
| HistogramSpec.PercentilesMonotone | src/histogram.rs:502-614 | `percentiles` entries are monotone in the rank |
| HistogramSpec.LinearHitAt | src/histogram.rs:551-564 | a target reached inside linear bucket i is answered with i clamped into [min, max] |
| HistogramSpec.LogHitAt | src/histogram.rs:567-597 | a target reached inside log bucket j is answered with the interpolated value clamped into [min, max] |
| HistogramSpec.InsertByTarget | src/histogram.rs:535 | inserting into the target list adds exactly one pair |
| HistogramSpec.InsertByTargetAdds | src/histogram.rs:535 | insertion adds exactly the new pair to the multiset |
| HistogramSpec.InsertByTargetFrom | src/histogram.rs:535 | every element after insertion is the new pair or was already there |
| HistogramSpec.InsertByTargetSorted | src/histogram.rs:535 | insertion into a list sorted by target keeps it sorted |
| HistogramSpec.SortByTarget | src/histogram.rs:535 | `sort_by_key` on the target: the result is sorted by target and is a permutation of its input |
| HistogramSpec.Target | src/histogram.rs:516-529 | the target rank of a p: 0 exactly for p = 0, and never above the count for p = 0, p ≈ 1 or a rank ceil(p·n) can produce |
| HistogramSpec.TargetPairs | src/histogram.rs:511-532 | the (index, target) list has one pair per requested p, in order |
| HistogramSpec.RearrangedPairs | src/histogram.rs:511-535 | after sorting, every pair still carries its own index and target, and every index is present |
| HistogramSpec.FillOne | src/histogram.rs:559-593 | answering the next target keeps every already-answered slot at its specified value |
| HistogramSpec.FilledAll | src/histogram.rs:600-603 | once every target is answered, slot m holds the answer for rank `target(p_m)` |
| HistogramSpec.EntryOfTarget | src/histogram.rs:605-611 | a p of about 1 answers `max()`; every other entry answers its target rank |
| HistogramSpec.LastBucketOfMax | src/histogram.rs:691-699 | u64::MAX falls in logarithmic bucket 63 |
| HistogramSpec.UnwrapPanicsAt | src/histogram.rs:591 | the as-written panic condition of `percentiles`: a target the walk reaches while `min()` is `None`; such a target is never reached in the linear pass, so the panicking `unwrap` is the log pass's |
| HistogramSpec.LinearNeedsNoUnwrapCheck | src/histogram.rs:561 | the linear pass's `min_v.unwrap()` never meets `None`: a linear bucket the walk stops at holds a sample, so `min()` answers |
| HistogramSpec.PercentilesPanicOnlyMax | src/histogram.rs:591 | after recording u64::MAX alone, `percentile(1.0)` answers u64::MAX, but `percentiles(&[1.0])` as written reaches the log pass's `min_v.unwrap()` on `None` (see Findings); the corrected pass answers u64::MAX |
| HistogramSpec.MedianExample | src/histogram.rs:864-877 | recording 100, 200 and 300 gives count 3, min 100, max 300 and median 200 |
| Histograms.Histogram.constructor | src/histogram.rs:110-119 | a new histogram is valid and fresh |
| Histograms.Histogram.UpdateMin | src/histogram.rs:657-670 | the stored minimum becomes min(old, v) |
| Histograms.Histogram.UpdateMax | src/histogram.rs:674-687 | the stored maximum becomes max(old, v) |
| Histograms.Histogram.Record | src/histogram.rs:151-173 | the arrays and fields afterwards equal `RecordState` of the state before |
| Histograms.Histogram.RecordDuration | src/histogram.rs:191-201 | records the u128 duration saturated to u64 |
| Histograms.Histogram.Min | src/histogram.rs:214-221 | answers `HistogramSpec.MinOpt` of the current state: `None` exactly at the u64::MAX sentinel, so `None` when empty (EmptyAnswersNothing) and, after `record(v)`, the smaller of the old minimum and v unless every sample is u64::MAX (RecordedMinMax) |
| Histograms.Histogram.Max | src/histogram.rs:234-241 | answers `HistogramSpec.MaxOpt` of the current state: `None` exactly when nothing was recorded (EmptyAnswersNothing), and after `record(v)` the larger of the old maximum and v (RecordedMinMax) |
| Histograms.Histogram.Count | src/histogram.rs:278-280 | the count equals the total over all buckets |
| Histograms.Histogram.IsEmpty | src/histogram.rs:288-290 | empty exactly when `max()` is `None` and every bucket is zero; then `min()` is `None` too |
| Histograms.Histogram.Percentile | src/histogram.rs:342-425 | the loops over both bucket arrays answer `PercentileOf` of the current state |
| Histograms.Histogram.Median | src/histogram.rs:444-446 | `percentile(0.5)`, that is rank ceil(n/2) |
| Histograms.Histogram.Percentiles | src/histogram.rs:502-614 | one entry per requested p, each equal to `PercentilesEntry` (hence to `percentile`) |
| Histograms.Histogram.FillLowest | src/histogram.rs:540-544 | answers every rank-0 target with `min()` |
| Histograms.Histogram.PassLinear | src/histogram.rs:550-564 | the linear pass answers every target it reaches with its specified value; the rest exceed the linear total |
| Histograms.Histogram.PassLog | src/histogram.rs:566-597 | the log pass answers every target it reaches; the rest exceed the count |
| Histograms.Histogram.FillLogBucket | src/histogram.rs:576-594 | the targets falling inside one log bucket receive their interpolated answers |
| Histograms.Histogram.FillBeyond | src/histogram.rs:599-603 | every remaining target (beyond the count) is answered with `max()` |
| Histograms.Histogram.ForceHighest | src/histogram.rs:605-611 | every p of about 1 is overwritten with `max()` |
| Histograms.Histogram.Reset | src/histogram.rs:637-651 | afterwards the histogram is valid and indistinguishable from a new one |
| Watches.WithBoundsAsWritten | src/watch.rs:159-169 | the written code: lowest = max(l, 1); highest = max(h, lowest + 1) below u64::MAX, but at lowest = u64::MAX the sum wraps to 0 and highest is h unchanged (see Findings) |
| Watches.WithBoundsOverflow | src/watch.rs:161 | below u64::MAX the written code and the corrected one agree; `with_bounds(u64::MAX, 5)` as written yields lowest > highest |
| Watches.NormaliseBounds | src/watch.rs:159-169 | lowest = max(l, 1); highest = max(h, lowest + 1), saturating; so 1 ≤ lowest ≤ highest, and lowest < highest below u64::MAX |
| Watches.NormaliseIdempotent | src/watch.rs:394-398 | normalising already normalised bounds changes nothing, so the double normalisation in `build` is harmless |
| Watches.BuilderNew | src/watch.rs:369-374 | the builder starts at the default bounds 1 and 3_600_000_000_000 |
| Watches.SetLowest | src/watch.rs:379-382 | `lowest(ns)` stores max(ns, 1) and keeps the upper bound |
| Watches.SetHighest | src/watch.rs:387-390 | `highest(ns)` stores ns and keeps the lower bound |
| Watches.BuildBounds | src/watch.rs:394-398 | `build` always produces 1 ≤ lowest ≤ highest |
| Watches.BuilderMatchesWithBounds | src/watch.rs:379-398 | `builder().lowest(a).highest(b).build()` has the bounds of `with_bounds(a, b)`, in either setter order |
| Watches.DefaultBounds | src/watch.rs:131-133 | `builder().build()` and `new()` both have bounds (1, 3_600_000_000_000) |
| Watches.CeilDiv | src/histogram.rs:369 | the ceiling division used for nearest ranks is the least r with r·d ≥ a |
| Watches.RankOf | src/watch.rs:283-287 | the nearest rank for k/1000 of n samples is the least r with r·1000 ≥ n·k; it is at least 1 for k, n > 0 and at most n for k ≤ 1000 |
| Watches.RankOfMonotone | src/watch.rs:283-287 | a larger percentile asks for a rank no smaller |
| Watches.StatsOf | src/watch.rs:261-303 | count equals the histogram count; an empty histogram yields all-zero stats; the reported max never exceeds the stored maximum and the reported min is the stored minimum whenever `min()` answers |
| Watches.StatsOrdered | src/watch.rs:281-287 | for a non-empty histogram, min ≤ p50 ≤ p90 ≤ p95 ≤ p99 ≤ p999 ≤ max |
| Watches.StatsWithinBounds | src/watch.rs:187 | values clamped into the bounds keep a snapshot's max ≤ highest, and min ≥ lowest whenever `min()` answers |
| Watches.SentinelMinReportsZero | src/watch.rs:280-283 | a histogram holding only u64::MAX stays within the bounds, yet `min().unwrap_or(0)` reports min 0, below any lower bound, and p50 falls back to that 0 |
| Watches.Clamped | src/watch.rs:187 | a recorded value lies within [lowest, highest] |
| Watches.DefaultBoundsClampExtremes | src/watch.rs:185-207 | with default bounds, recording 0 and u64::MAX reports count 2, min 1, max 3_600_000_000_000 |
| Watches.EntryOf | src/watch.rs:199-205 | the histogram a name has, or a new empty one when the name is unregistered |
| Watches.Watch.WithBounds | src/watch.rs:159-169 | an empty registry with normalised bounds |
| Watches.Watch.constructor | src/watch.rs:131-133 | an empty registry with the default bounds |
| Watches.Watch.Record | src/watch.rs:185-207 | only this name's histogram changes: it becomes `record` of the clamped value into its old (or a new) histogram; its count rises by one |
| Watches.Watch.RecordInstant | src/watch.rs:221-231 | returns the elapsed time saturated to u64 (unclamped) and records it as `record` does |
| Watches.Watch.Snapshot | src/watch.rs:251-306 | one entry per registered name, each `StatsOf` its histogram, with max ≤ highest and min ≥ lowest whenever `min()` answers (a histogram holding only u64::MAX reports min 0, see SentinelMinReportsZero); the registry is unchanged |
| Watches.Watch.Clear | src/watch.rs:322-325 | removes every name |
| Watches.Watch.ClearName | src/watch.rs:340-343 | removes exactly that name |
| Watches.Build | src/watch.rs:394-398 | a new empty registry with the builder's normalised bounds |
| Timers.Timer.constructor | src/timer.rs:30-36 | a new timer is armed and bound to its watch and name; nothing is recorded |
| Timers.Timer.Stop | src/timer.rs:41-46 | an armed timer records once through `record_instant`, returns that value and disarms; a disarmed one returns 0 and changes nothing |
| Timers.Timer.Drop | src/timer.rs:49-56 | an armed timer records once and disarms; a disarmed one changes nothing |
| Timers.Lifetime | src/timer.rs:41-56 | create, optionally stop, then drop: the name gains exactly one sample, namely the stop time if stopped early, else the drop time |
| Durations.FromNanos | src/duration.rs:21-23 | keeps the nanosecond count |
| Durations.AsMicros | src/duration.rs:33-35 | the whole microseconds: r·1000 ≤ nanos < (r+1)·1000 |
| Durations.AsMillis | src/duration.rs:39-41 | the whole milliseconds: r·10^6 ≤ nanos < (r+1)·10^6 |
| Durations.AsNanos | src/duration.rs:27-29 | the nanosecond count determines the duration: `from_nanos(d.as_nanos())` is `d` |
| Durations.NanosRoundTrip | src/duration.rs:21-29 | `from_nanos` and `as_nanos` are inverse |
| Durations.UnitsOrdered | src/duration.rs:27-41 | millis ≤ micros ≤ nanos, and millis is micros / 1000 |
| Durations.ConversionExample | src/duration.rs:95-100 | 1_234_567_890 ns is 1_234_567 µs and 1_234 ms |
| Durations.NatToString | src/duration.rs:64 | decimal rendering is non-empty digits without a leading zero |
| Durations.DecimalRoundTrip | src/duration.rs:64 | parsing the decimal rendering gives the number back |
| Durations.Display | src/duration.rs:59-88 | below 1 µs and from 1 minute on the text is exact; in between it is a two-decimal value in µs, ms or s whose divisor puts the number in [1, 1000) |
| Durations.DisplayNanos | src/duration.rs:61-65 | below 1 µs the text is the decimal count followed by "ns", and it parses back to the count |
| Durations.DisplayMinutes | src/duration.rs:81-86 | from one minute on the text is "{m}m {s}s" with m ≥ 1, s < 60 and 60·m + s the whole seconds |
| Durations.DisplayExamples | src/duration.rs:105-112 | 0 → "0ns", 123 → "123ns", 1_500 → 1.50 µs, 65·10^9 → "1m 5s" |
| Measurements.New | src/measurement.rs:29-35 | keeps name, duration and timestamp |
| Measurements.Zero | src/measurement.rs:47-53 | the name with zero duration and zero timestamp |
| Measurements.ZeroIsNewWithZeros | src/measurement.rs:69-74 | `zero(name)` is `new(name, ZERO, 0)` |
| Collectors.TotalNanos | src/collector.rs:81 | the exact (unwrapped) sum of the samples' nanoseconds is at least every single sample |
| Collectors.TotalAppend | src/collector.rs:81 | the total of a concatenation is the sum of the totals |
| Collectors.TotalPermutation | src/collector.rs:81 | the total does not depend on the order of the samples |
| Collectors.MinOf | src/collector.rs:82 | the minimum is one of the samples and bounds every sample from below |
| Collectors.MaxOf | src/collector.rs:83 | the maximum is one of the samples and bounds every sample from above |
| Collectors.WrappedTotal | src/collector.rs:81 | the u128 sum wraps modulo 2^128 and is exact whenever the true total fits |
| Collectors.FloorMean | src/collector.rs:84 | the mean is the floor of total / count: m·count ≤ total < (m+1)·count, so it fits in the total's u128 |
| Collectors.StatsOf | src/collector.rs:72-87 | `None` exactly for an empty list; otherwise the count, the u128 total modulo 2^128, a least and a greatest sample, and mean = total / count |
| Collectors.MeanBetween | src/collector.rs:80-84 | without wrap-around the total is exact and min ≤ mean ≤ max |
| Collectors.TotalBetween | src/collector.rs:81 | samples in [lo, hi] total between lo·n and hi·n |
| Collectors.LowerBoundDiv | src/collector.rs:84 | a total of at least lo·n has a floor mean of at least lo |
| Collectors.UpperBoundDiv | src/collector.rs:84 | a total of at most hi·n has a floor mean of at most hi |
| Collectors.OrderIndependent | src/collector.rs:72-87 | the statistics depend only on the multiset of recorded samples |
| Collectors.StatsExample | src/collector.rs:134-148 | 1000, 2000 and 3000 ns give total 6000, min 1000, max 3000 and mean 2000 |
| Collectors.SamplesOf | src/collector.rs:50-52 | a name's list, or the empty list `or_default` creates |
| Collectors.NamesOf | src/collector.rs:96-101 | the names of the returned pairs, in order |
| Collectors.Collector.constructor | src/collector.rs:34-36 | a new collector holds no names, so `stats` is `None` for every name |
| Collectors.Collector.WithCapacity | src/collector.rs:39-41 | a new collector holds no names, so `stats` is `None` for every name; the capacity is only a hint |
| Collectors.Collector.Record | src/collector.rs:48-53 | appends the measurement's duration to its name's list, creating it if absent; other names unchanged |
| Collectors.Collector.RecordDuration | src/collector.rs:60-63 | the same for a name and a duration |
| Collectors.Collector.StatsFor | src/collector.rs:72-87 | `None` for an unknown name or an empty list; otherwise `StatsOf` the list, counting every sample |
| Collectors.Collector.AllStats | src/collector.rs:96-101 | the list is `Listed` over every stored name: no name twice, each pair carrying its name's statistics, and every name with a non-empty list present |
| Collectors.ListedStep | src/collector.rs:98-100 | visiting one more name with samples appends exactly its pair and keeps the list well formed |
| Collectors.AllStatsAgree | src/collector.rs:96-101 | every pair of `all_stats` is what `stats(name)` answers, and the names listed are exactly those for which `stats` answers |
| Collectors.Collector.Clear | src/collector.rs:108-111 | removes every name, so `stats` is `None` for every name |
| Collectors.Collector.ClearName | src/collector.rs:118-121 | removes exactly that name, whose `stats` becomes `None`; every other name keeps its list |
| Collectors.StatsPresent | src/collector.rs:72-79 | a valid collector has statistics exactly for the names it holds |
| Lib.Measure | src/lib.rs:104-108 | the disabled `measure` returns the closure's value with a zero duration |
| Lib.MeasureNamed | src/lib.rs:149-158 | the disabled `measure_named` returns the closure's value and `Measurement::zero(name)` |
| Lib.DurationExample | src/lib.rs:275-281 | 1_500_000_000 ns is 1_500_000 µs and 1_500 ms |
| Lib.CollectorExample | src/lib.rs:301-321 | recording 1000 and 2000 ns gives count 2, min 1000, max 2000, mean 1500 |

## Left out

- Concurrency is not modelled: atomics, memory orderings, `RwLock`/`parking_lot` locks and `Arc` sharing. Every operation is modelled as if it ran alone, and the compare-exchange loops of `update_min`/`update_max` become a single update.
- Clocks are not modelled. `Instant::now`, `elapsed` and `SystemTime` become parameters: the elapsed nanoseconds of `record_instant`, `Timer::stop` and `Timer::drop`.
- The enabled-build `measure` and `measure_named` are left out, because they only read the clock.
- Floating point is left out: `mean`, `as_secs_f64`/`as_secs_f32`, `WatchStats::mean`, and the f64 percentile argument. A percentile query is the `Quantile` after clamping: p = 0, p = 1 (within f64::EPSILON of it for `percentiles`), or the integer rank ceil(p·n).
- HistogramSpec.PercentilesAgree: the two source functions read p ≈ 1 differently. `percentile` answers `max()` only for p == 1.0 exactly (src/histogram.rs:356); `percentiles` does so whenever |p − 1| < f64::EPSILON (src/histogram.rs:518 and 606-611). For p strictly between 1 − EPSILON and 1 they can disagree: `percentile` scans for rank ceil(p·n), `percentiles` reports the maximum. The lemma states agreement for the same `Quantile`, after that float test.
- Watches.StatsOf: the five snapshot ranks are computed exactly as ceil(n·k/1000); the source's f64 product may round differently for some counts.
- Durations.Display: values from 1 µs up to one minute are described as the exact nanoseconds and divisor, not as the digits `{:.2}` prints after f64 rounding.
- The macros (`time!`, `time_named!`, `stopwatch!`), the `hdr` histogram backend, `hist_backend`, `Debug` impls and the benchmark/perf code are not part of this model.
- A `Watch` holds each name's histogram state by value. The source shares `Arc<Histogram>` objects, so a histogram fetched on the fast path is updated in place. Each transition here equals the one `Histograms.Histogram.Record` is proved to perform, but aliasing between clones of a `Watch` is not modelled.
- The registry's fast path (a lookup under the read lock) and its slow path (insertion under the write lock) are modelled as one map update with the same result.
- `HashMap` iteration order is not modelled. `snapshot` returns a map, and `all_stats` returns pairs in an unspecified order.
- HistogramSpec.RecordState: the bucket counters and the count are unbounded; a u64 counter wrapping after 2^64 records is not modelled. The sum is modelled with its wrap-around.
- Collectors.StatsOf: the `count as u128` and the u64 `count` field are unbounded naturals. The u128 total is modelled as wrapping modulo 2^128, as a release build's `sum()` does; a debug build would panic instead.
- `with_capacity`'s allocation hint has no observable effect and is dropped.
- The crate root's copies of `Duration`, `Measurement`, `Stats` and `Collector` (src/lib.rs:16-79 and 209-260) are modelled once, by the collector, duration and measurement modules. Their code matches the module versions: `record`, `stats` and `all_stats` of the crate root's collector are `Collectors.Collector.Record`, `StatsFor` and `AllStats`.

## Findings

| source | as written | input that shows it | evidently intended | confidence | as-written member | corrected member |
|---|---|---|---|---|---|---|
| src/histogram.rs:591 | the log pass of `percentiles` clamps with `min_v.unwrap()`, but `min()` is `None` whenever every sample equals u64::MAX (the min sentinel) | `record(u64::MAX)` then `percentiles(&[1.0])`: the target rank 1 is reached in log bucket 63 and `unwrap` panics, while `percentile(1.0)` answers `Some(u64::MAX)` | answer like `percentile` (u64::MAX for p ≈ 1, `None` when the clamp range is missing) | not executed | HistogramSpec.PercentilesPanicOnlyMax | Histograms.Histogram.Percentiles |
| src/watch.rs:161 | `with_bounds` (and `build`, src/watch.rs:396) computes `lowest + 1`, which overflows at u64::MAX | `with_bounds(u64::MAX, 5)`: a debug build panics; a release build wraps to bounds (u64::MAX, 5), and every later `clamp(lowest, highest)` panics because lowest > highest | saturate, giving bounds (u64::MAX, u64::MAX) | not executed | Watches.WithBoundsOverflow | Watches.NormaliseBounds |
