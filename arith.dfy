/**
 * Machine-width integer ranges and the small arithmetic vocabulary
 * (powers of two, floor log2, saturating and clamping operations,
 * sums of counters) shared by the histogram, watch and collector models.
 */
module Arith {

  const U64_MAX: nat := 0xFFFF_FFFF_FFFF_FFFF
  const U64_MODULUS: nat := 0x1_0000_0000_0000_0000
  const U128_MAX: nat := 0xFFFF_FFFF_FFFF_FFFF_FFFF_FFFF_FFFF_FFFF

  type u64 = x: nat | x <= U64_MAX
  type u128 = x: nat | x <= U128_MAX

  function Min(a: nat, b: nat): nat { if a <= b then a else b }

  function Max(a: nat, b: nat): nat { if a >= b then a else b }

  /** `v.clamp(lo, hi)`: only defined when `lo <= hi` (Rust asserts it). */
  function Clamp(v: nat, lo: nat, hi: nat): (r: nat)
    requires lo <= hi
    ensures lo <= r <= hi
    ensures lo <= v <= hi ==> r == v
    ensures v < lo ==> r == lo
    ensures hi < v ==> r == hi
  {
    if v < lo then lo else if hi < v then hi else v
  }

  /** `a.saturating_sub(b)` on unsigned integers. */
  function SatSub(a: nat, b: nat): (r: nat)
    ensures r + b >= a
    ensures b <= a ==> r + b == a
    ensures a <= b ==> r == 0
  {
    if a >= b then a - b else 0
  }

  function Pow2(n: nat): (r: nat)
    ensures r >= 1
  {
    if n == 0 then 1 else 2 * Pow2(n - 1)
  }

  lemma {:induction false} Pow2Monotone(a: nat, b: nat)
    requires a <= b
    ensures Pow2(a) <= Pow2(b)
  {
    if a < b {
      Pow2Monotone(a, b - 1);
    }
  }

  lemma {:induction false} Pow2Add(a: nat, b: nat)
    ensures Pow2(a + b) == Pow2(a) * Pow2(b)
  {
    if b > 0 {
      Pow2Add(a, b - 1);
    }
  }

  /** `2^a < 2^b` forces `a < b`. */
  lemma Pow2Below(a: nat, b: nat)
    requires Pow2(a) < Pow2(b)
    ensures a < b
  {
    if b <= a {
      Pow2Monotone(b, a);
    }
  }

  lemma Pow2Known()
    ensures Pow2(10) == 1024
    ensures Pow2(63) == 0x8000_0000_0000_0000
    ensures Pow2(64) == U64_MODULUS
  {
    Pow2Ten();
    Pow2ThirtyTwo();
    assert Pow2(32) == 2 * Pow2(31);
    Pow2Add(32, 31);
    assert Pow2(64) == 2 * Pow2(63);
  }

  lemma Pow2Ten()
    ensures Pow2(8) == 256 && Pow2(10) == 1024
  {
    assert Pow2(1) == 2;
    Pow2Add(1, 1);
    Pow2Add(2, 2);
    Pow2Add(4, 4);
    Pow2Add(8, 2);
  }

  lemma Pow2ThirtyTwo()
    ensures Pow2(32) == 0x1_0000_0000
  {
    Pow2Ten();
    Pow2Add(8, 8);
    Pow2Add(16, 16);
  }

  /** Position of the highest set bit of `v`, i.e. `63 - v.leading_zeros()` for a u64. */
  function Log2(v: nat): nat
    requires v >= 1
  {
    if v < 2 then 0 else 1 + Log2(v / 2)
  }

  lemma {:induction false} Log2Bounds(v: nat)
    requires v >= 1
    ensures Pow2(Log2(v)) <= v < Pow2(Log2(v) + 1)
  {
    if v >= 2 {
      Log2Bounds(v / 2);
    }
  }

  /** Sum of a sequence of counters, taken from the end so that prefix sums unfold one step at a time. */
  function Sum(s: seq<nat>): nat
  {
    if |s| == 0 then 0 else Sum(s[..|s| - 1]) + s[|s| - 1]
  }

  lemma {:induction false} SumAppend(a: seq<nat>, b: seq<nat>)
    ensures Sum(a + b) == Sum(a) + Sum(b)
  {
    if |b| == 0 {
      assert a + b == a;
    } else {
      assert (a + b)[..|a + b| - 1] == a + b[..|b| - 1];
      SumAppend(a, b[..|b| - 1]);
    }
  }

  lemma SumPrefixStep(s: seq<nat>, i: nat)
    requires i < |s|
    ensures Sum(s[..i + 1]) == Sum(s[..i]) + s[i]
  {
    assert s[..i + 1][..i] == s[..i];
  }

  lemma {:induction false} SumPrefixBound(s: seq<nat>, i: nat)
    requires i <= |s|
    ensures Sum(s[..i]) <= Sum(s)
  {
    assert s == s[..i] + s[i..];
    SumAppend(s[..i], s[i..]);
  }

  lemma {:induction false} SumZeros(s: seq<nat>)
    requires forall i :: 0 <= i < |s| ==> s[i] == 0
    ensures Sum(s) == 0
  {
    if |s| > 0 {
      SumZeros(s[..|s| - 1]);
    }
  }

  /** Raising one counter by one raises the total by one. */
  lemma {:induction false} SumIncrement(s: seq<nat>, k: nat)
    requires k < |s|
    ensures Sum(s[k := s[k] + 1]) == Sum(s) + 1
  {
    var t := s[k := s[k] + 1];
    assert t == s[..k] + [s[k] + 1] + s[k + 1..];
    assert s == s[..k] + [s[k]] + s[k + 1..];
    SumAppend(s[..k] + [s[k] + 1], s[k + 1..]);
    SumAppend(s[..k], [s[k] + 1]);
    SumAppend(s[..k] + [s[k]], s[k + 1..]);
    SumAppend(s[..k], [s[k]]);
    assert Sum([s[k] + 1]) == Sum([]) + s[k] + 1;
    assert Sum([s[k]]) == Sum([]) + s[k];
  }

  lemma DivMonotone(a: nat, b: nat, c: nat)
    requires a <= b && c > 0
    ensures a / c <= b / c
  {
    var q := a / c;
    assert c * q <= a;
    assert b < c * (b / c) + c;
    BelowProduct(q, b / c + 1, c);
  }

  /** Dividing by a positive divisor never increases a natural number. */
  lemma DivAtMost(t: nat, n: nat)
    requires n > 0
    ensures t / n <= t
  {
    MulMonotone(t / n, 1, n);
  }

  /** `a * b / c`, the widened multiply-then-divide of the interpolation. */
  function MulDiv(a: nat, b: nat, c: nat): nat
    requires c > 0
  {
    a * b / c
  }

  lemma MulMonotone(c: nat, x: nat, y: nat)
    requires x <= y
    ensures c * x <= c * y
  {
  }

  /** `c * x < c * y` forces `x < y`. */
  lemma BelowProduct(x: nat, y: nat, c: nat)
    requires c * x < c * y
    ensures x < y
  {
    if y <= x {
      MulMonotone(c, y, x);
    }
  }

  /** `(k * w) / c < w` whenever `k < c`: the interpolated offset stays inside the bucket. */
  lemma ScaledBelow(k: nat, w: nat, c: nat)
    requires k < c && w > 0
    ensures k * w / c < w
  {
    var q := k * w / c;
    assert k * w <= (c - 1) * w by { MulMonotone(w, k, c - 1); }
    assert c * q <= k * w;
    assert c * q < c * w;
    BelowProduct(q, w, c);
  }
}

/** The conventional optional value, used where the source returns `Option<T>`. */
module Wrappers {

  datatype Option<+T> = None | Some(value: T) {
    function GetOr(default: T): T
    {
      match this
      case Some(v) => v
      case None => default
    }
  }
}
