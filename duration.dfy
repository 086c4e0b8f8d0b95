/**
 * The crate's `Duration`: a single u128 count of nanoseconds with integer
 * unit conversions and the integer-only branches of its `Display` text.
 * The derived ordering compares the nanosecond counts, so the model
 * compares `nanos` directly. (`src/lib.rs` declares a field-for-field copy of the
 * same type; both are modelled by this one datatype.)
 */
module Durations {
  import opened Arith

  datatype Duration = Duration(nanos: u128)

  const ZERO: Duration := Duration(0)

  const NANOS_PER_MICRO: nat := 1_000
  const NANOS_PER_MILLI: nat := 1_000_000
  const NANOS_PER_SEC: nat := 1_000_000_000
  const NANOS_PER_MINUTE: nat := 60_000_000_000

  function FromNanos(n: u128): (d: Duration)
    ensures d.nanos == n
  {
    Duration(n)
  }

  /** The whole nanosecond count: it determines the duration completely. */
  function AsNanos(d: Duration): (r: u128)
    ensures FromNanos(r) == d
  {
    d.nanos
  }

  /** Whole microseconds, rounded down. */
  function AsMicros(d: Duration): (r: u128)
    ensures r * NANOS_PER_MICRO <= d.nanos < (r + 1) * NANOS_PER_MICRO
  {
    d.nanos / NANOS_PER_MICRO
  }

  /** Whole milliseconds, rounded down. */
  function AsMillis(d: Duration): (r: u128)
    ensures r * NANOS_PER_MILLI <= d.nanos < (r + 1) * NANOS_PER_MILLI
  {
    d.nanos / NANOS_PER_MILLI
  }

  /** `from_nanos` and `as_nanos` are inverse to each other. */
  lemma NanosRoundTrip(n: u128, d: Duration)
    ensures AsNanos(FromNanos(n)) == n
    ensures FromNanos(AsNanos(d)) == d
  {
  }

  /** Coarser units never exceed finer ones, and milliseconds are whole thousands of microseconds. */
  lemma UnitsOrdered(d: Duration)
    ensures AsMillis(d) <= AsMicros(d) <= AsNanos(d)
    ensures AsMillis(d) == AsMicros(d) / 1_000
  {
    var n: nat := d.nanos;
    var us: nat := AsMicros(d);
    var ms: nat := AsMillis(d);
    assert us * 1_000 <= n < (us + 1) * 1_000;
    assert ms * 1_000_000 <= n < (ms + 1) * 1_000_000;
    assert ms * 1_000 <= us by {
      BelowProduct(ms * 1_000, us + 1, 1_000);
    }
    assert us < (ms + 1) * 1_000 by {
      BelowProduct(us, (ms + 1) * 1_000, 1_000);
    }
  }

  /** The conversions of 1_234_567_890 ns. */
  lemma ConversionExample()
    ensures AsNanos(FromNanos(1_234_567_890)) == 1_234_567_890
    ensures AsMicros(FromNanos(1_234_567_890)) == 1_234_567
    ensures AsMillis(FromNanos(1_234_567_890)) == 1_234
  {
  }

  // ---- Display ----

  function DigitChar(d: nat): (c: char)
    requires d < 10
    ensures '0' <= c <= '9'
  {
    ['0', '1', '2', '3', '4', '5', '6', '7', '8', '9'][d]
  }

  function DigitValue(c: char): nat
    requires '0' <= c <= '9'
  {
    c as nat - '0' as nat
  }

  predicate IsDecimal(s: string)
  {
    forall i :: 0 <= i < |s| ==> '0' <= s[i] <= '9'
  }

  /** Decimal text of a number, as `{n}` formats it: no sign and no leading zero. */
  function NatToString(n: nat): (s: string)
    ensures |s| >= 1 && IsDecimal(s)
    ensures s[0] == '0' ==> n == 0
  {
    if n < 10 then [DigitChar(n)] else NatToString(n / 10) + [DigitChar(n % 10)]
  }

  /** Reads a run of decimal digits back into a number. */
  function ParseDecimal(s: string): nat
    requires IsDecimal(s)
  {
    if |s| == 0 then 0 else 10 * ParseDecimal(s[..|s| - 1]) + DigitValue(s[|s| - 1])
  }

  lemma DigitRoundTrip(d: nat)
    requires d < 10
    ensures DigitValue(DigitChar(d)) == d
  {
  }

  /** The decimal text of `n` reads back as `n`, so distinct numbers render differently. */
  lemma {:induction false} DecimalRoundTrip(n: nat)
    ensures ParseDecimal(NatToString(n)) == n
  {
    DigitRoundTrip(n % 10);
    if n >= 10 {
      DecimalRoundTrip(n / 10);
      var s := NatToString(n);
      assert s[..|s| - 1] == NatToString(n / 10);
    }
  }

  /**
   * What `Display` produces: either the finished text (the integer branches),
   * or the value divided by `divisor` printed with two decimals followed by
   * `suffix` (the floating-point branches, whose digits are not modelled).
   */
  datatype Rendering = Text(text: string) | TwoDecimals(nanos: nat, divisor: nat, suffix: string)

  /** The branch structure of `Display for Duration`. */
  function Display(d: Duration): (r: Rendering)
    ensures r.Text? <==> d.nanos < NANOS_PER_MICRO || d.nanos >= NANOS_PER_MINUTE
    ensures r.TwoDecimals? ==> r.nanos == d.nanos && r.divisor <= r.nanos < 1000 * r.divisor
  {
    var n := d.nanos;
    if n == 0 then Text("0ns")
    else if n < NANOS_PER_MICRO then Text(NatToString(n) + "ns")
    else if n < NANOS_PER_MILLI then TwoDecimals(n, NANOS_PER_MICRO, "µs")
    else if n < NANOS_PER_SEC then TwoDecimals(n, NANOS_PER_MILLI, "ms")
    else if n < NANOS_PER_MINUTE then TwoDecimals(n, NANOS_PER_SEC, "s")
    else
      var secs := n / NANOS_PER_SEC;
      Text(NatToString(secs / 60) + "m " + NatToString(secs % 60) + "s")
  }

  /** Below one microsecond the text is the exact count followed by "ns", and the count can be read back. */
  lemma DisplayNanos(d: Duration)
    requires d.nanos < NANOS_PER_MICRO
    ensures Display(d) == Text(NatToString(d.nanos) + "ns")
    ensures ParseDecimal(Display(d).text[..|Display(d).text| - 2]) == d.nanos
  {
    var t := Display(d).text;
    assert t[..|t| - 2] == NatToString(d.nanos);
    DecimalRoundTrip(d.nanos);
  }

  /**
   * From one minute up the text is "{m}m {s}s" with s < 60, and m minutes
   * plus s seconds is exactly the whole number of seconds.
   */
  lemma DisplayMinutes(d: Duration)
    requires d.nanos >= NANOS_PER_MINUTE
    ensures exists m: nat, s: nat ::
              s < 60 && m >= 1 && m * 60 + s == d.nanos / NANOS_PER_SEC &&
              Display(d) == Text(NatToString(m) + "m " + NatToString(s) + "s")
  {
    var secs := d.nanos / NANOS_PER_SEC;
    assert secs >= 60 by {
      DivMonotone(NANOS_PER_MINUTE, d.nanos, NANOS_PER_SEC);
    }
    var m, s := secs / 60, secs % 60;
    assert m * 60 + s == secs;
    assert s < 60 && m >= 1;
    assert Display(d) == Text(NatToString(m) + "m " + NatToString(s) + "s");
  }

  lemma DisplayExamples()
    ensures Display(FromNanos(0)) == Text("0ns")
    ensures Display(FromNanos(123)) == Text("123ns")
    ensures Display(FromNanos(1_500)) == TwoDecimals(1_500, 1_000, "µs")
    ensures Display(FromNanos(65_000_000_000)) == Text("1m 5s")
  {
    assert NatToString(123) == NatToString(12) + ['3'];
    assert NatToString(12) == NatToString(1) + ['2'];
  }
}
