// 64-bit division built from the 64-by-32-bit divl instruction, which traps when
// its quotient does not fit 32 bits (Pintos/lib/arithmetic.c).
module Arithmetic {
  import opened Bits

  const B: nat := 0x1_0000_0000             // 2^32
  const U64: nat := 0x1_0000_0000_0000_0000 // 2^64
  const I64_MIN: int := -0x8000_0000_0000_0000

  /** The divl instruction; its precondition is that it does not trap. */
  function Divl(n: nat, d: nat): nat
    requires n < U64 && 0 < d < B
    requires n / d < B
  {
    n / d
  }

  /** Number of leading zero bits of a nonzero 32-bit x. */
  function LeadingZeros(x: nat): (n: nat)
    requires 0 < x < B
    decreases B - x
  {
    if x >= 0x8000_0000 then 0 else 1 + LeadingZeros(2 * x)
  }

  /** nlz: binary search for the leading one; x is shifted within 32 bits. */
  method Nlz(x0: nat) returns (n: nat)
    requires 0 < x0 < B
    ensures n == LeadingZeros(x0)
  {
    hide LeadingZeros;
    var x := x0;
    n := 0;
    if x <= 0x0000_FFFF { Shift16(x); n := n + 16; x := x * 0x1_0000 % B; }
    assert n + LeadingZeros(x) == LeadingZeros(x0) && 0x0000_FFFF < x < B;
    if x <= 0x00FF_FFFF { Shift8(x); n := n + 8; x := x * 0x100 % B; }
    assert n + LeadingZeros(x) == LeadingZeros(x0) && 0x00FF_FFFF < x < B;
    if x <= 0x0FFF_FFFF { Shift4(x); n := n + 4; x := x * 0x10 % B; }
    assert n + LeadingZeros(x) == LeadingZeros(x0) && 0x0FFF_FFFF < x < B;
    if x <= 0x3FFF_FFFF { Shift2(x); n := n + 2; x := x * 4 % B; }
    TopBits(x);
    if x <= 0x7FFF_FFFF { n := n + 1; }
  }

  lemma TopBits(x: nat)
    requires 0x3FFF_FFFF < x < B
    ensures LeadingZeros(x) == if x <= 0x7FFF_FFFF then 1 else 0
  {
  }

  lemma Shift2(x: nat)
    requires 0 < x <= 0x3FFF_FFFF
    ensures LeadingZeros(x) == 2 + LeadingZeros(4 * x)
    ensures 4 * x < B && x * 4 % B == 4 * x
  {
  }

  lemma Shift4(x: nat)
    requires 0 < x <= 0x0FFF_FFFF
    ensures LeadingZeros(x) == 4 + LeadingZeros(16 * x)
    ensures 16 * x < B && x * 16 % B == 16 * x
  {
    Shift2(x);
    Shift2(4 * x);
  }

  lemma Shift8(x: nat)
    requires 0 < x <= 0x00FF_FFFF
    ensures LeadingZeros(x) == 8 + LeadingZeros(256 * x)
    ensures 256 * x < B && x * 256 % B == 256 * x
  {
    Shift4(x);
    Shift4(16 * x);
  }

  lemma Shift16(x: nat)
    requires 0 < x <= 0x0000_FFFF
    ensures LeadingZeros(x) == 16 + LeadingZeros(0x1_0000 * x)
    ensures 0x1_0000 * x < B && x * 0x1_0000 % B == 0x1_0000 * x
  {
    Shift8(x);
    Shift8(256 * x);
  }

  /** Shifting by the number of leading zeros sets the top bit, and loses none. */
  lemma {:induction false} LeadingZerosNormalise(x: nat)
    requires 0 < x < B
    ensures LeadingZeros(x) <= 31
    ensures 0x8000_0000 <= x * Pow2(LeadingZeros(x)) < B
    decreases B - x
  {
    if x < 0x8000_0000 {
      LeadingZerosNormalise(2 * x);
      var s := LeadingZeros(2 * x);
      var p := Pow2(s);
      assert Pow2(s + 1) == 2 * p && LeadingZeros(x) == s + 1;
      Pow2Literals();
      hide Pow2, LeadingZeros;
      assert x * (2 * p) == 2 * x * p;
      MulMonotonic(2, 2 * x, p);
    }
  }

  // ----- The normalised estimate -----

  /** With e = d mod r, dividing n by d - e instead of d is at most one too high, because
      4 (r - 1) <= r * r.  Here r = 2^(32 - nlz) and d / r >= 2^31. */
  lemma EstimateError(n: nat, d: nat, r: nat)
    requires n < U64 && r > 0 && 0x8000_0000 <= d / r
    ensures n * (d % r) < (d / r * r) * d
  {
    var v, e := d / r, d % r;
    var w := v * r;
    assert d == w + e;
    MulMonotonic(0x8000_0000, v, r);
    assert 0x8000_0000 * r <= w;
    MulMonotonic(0x8000_0000 * r, w, w);
    MulMonotonic(0x8000_0000 * r, w, 0x8000_0000 * r);
    MulMonotonic(w, d, w);
    assert (0x8000_0000 * r) * (0x8000_0000 * r) == 0x4000_0000_0000_0000 * (r * r);
    assert 4 * (r - 1) <= r * r by { assert (r - 2) * (r - 2) == r * r - 4 * r + 4; }
    MulMonotonic(n, U64 - 1, e);
    assert n * e <= (U64 - 1) * (r - 1);
  }

  lemma EstimateClose(n: nat, d: nat, w: nat)
    requires 0 < w <= d && n * (d - w) < w * d
    ensures n / d <= n / w <= n / d + 1
  {
    var q := n / d;
    assert q * d <= n < (q + 1) * d by { assert n == q * d + n % d; assert (q + 1) * d == q * d + d; }
    MulMonotonic(w, d, q);
    assert q * w <= n;
    BelowNextButOne(n, d, w, q);
    Cancel(n, (q + 2) * w, d);
    DivBounds(n, q, q + 2, w);
  }

  lemma BelowNextButOne(n: nat, d: nat, w: nat, q: nat)
    requires 0 < w <= d && n * (d - w) < w * d && n < (q + 1) * d
    ensures n * d < (q + 2) * w * d
  {
    var wd := w * d;
    MulMonotonic(n + 1, (q + 1) * d, w);
    assert ((q + 1) * d) * w == (q + 1) * wd by { Distribute(q + 1, d, 0, w); }
    assert (n + 1) * w == n * w + w;
    assert n * (d - w) == n * d - n * w;
    assert (q + 2) * wd == (q + 1) * wd + wd;
    assert (q + 2) * w * d == (q + 2) * wd by { Distribute(q + 2, w, 0, d); }
  }

  lemma Cancel(a: nat, b: nat, d: nat)
    requires a * d < b * d
    ensures a < b
  {
    if a >= b { MulMonotonic(b, a, d); }
  }

  // ----- udiv64 -----

  /** The upper half of d << nlz(d >> 32) is d / 2^(32 - nlz); no bit is shifted out. */
  lemma Normalised(d: nat)
    requires B <= d < U64
    ensures LeadingZeros(d / B) <= 31
    ensures var p, r := Pow2(LeadingZeros(d / B)), Pow2(32 - LeadingZeros(d / B));
      d * p % U64 / B == d / r && 0x8000_0000 <= d / r < B
  {
    var d1, s := d / B, LeadingZeros(d / B);
    LeadingZerosNormalise(d1);
    Pow2Literals();
    Pow2Add(s, 32 - s);
    var p, r := Pow2(s), Pow2(32 - s);
    hide Pow2, LeadingZeros;
    assert p * r == B;
    NormalisedArith(d, d1, d % B, p, r);
  }

  lemma NormalisedArith(d: nat, d1: nat, d0: nat, p: nat, r: nat)
    requires d == d1 * B + d0 && d0 < B && p > 0 && r > 0 && p * r == B
    requires 0x8000_0000 <= d1 * p < B
    ensures d * p < U64 && d * p / B == d / r && 0x8000_0000 <= d / r < B
  {
    Distribute(d1, B, d0, p);
    Cancel(d1, r, p);
    MulMonotonic(d1 + 1, r, p);
    assert (d1 + 1) * p == d1 * p + p;
    MulMonotonic(d0 + 1, B, p);
    assert (d0 + 1) * p == d0 * p + p;
    DivDiv(d * p, p, r);
    ModUnique(d * p, p, d, 0);
    DivBounds(d * p, 0x8000_0000, B, B);
  }

  /** (uint32_t) (d << nlz(d >> 32) >> 32) */
  function NormalisedDivisor(d: nat): (v: nat)
    requires B <= d < U64
    ensures 0x8000_0000 <= v < B
    ensures LeadingZeros(d / B) <= 31 && v == d / Pow2(32 - LeadingZeros(d / B))
  {
    hide Pow2, LeadingZeros;
    Normalised(d);
    d * Pow2(LeadingZeros(d / B)) % U64 / B
  }

  /** The estimate q of udiv64 for a divisor of more than 32 bits; its divl does not trap. */
  function Estimate(n: nat, d: nat): nat
    requires n < U64 && B <= d < U64
  {
    hide Pow2, LeadingZeros, NormalisedDivisor;
    var v := NormalisedDivisor(d);
    DivBounds(n / 2, 0, B, v);
    Divl(n / 2, v) / Pow2(31 - LeadingZeros(d / B))
  }

  /** The estimate is never low and at most one too high. */
  lemma EstimateBounds(n: nat, d: nat)
    requires n < U64 && B <= d < U64
    ensures n / d <= Estimate(n, d) <= n / d + 1
  {
    hide LeadingZeros, NormalisedDivisor;
    var s, v := LeadingZeros(d / B), NormalisedDivisor(d);
    var t, r := Pow2(31 - s), Pow2(32 - s);
    assert r == 2 * t;
    hide Pow2;
    EstimateArith(n, d, v, t);
  }

  lemma EstimateArith(n: nat, d: nat, v: nat, t: nat)
    requires n < U64 && t > 0 && v == d / (2 * t) && 0x8000_0000 <= v
    ensures n / d <= n / 2 / v / t <= n / d + 1
  {
    var r := 2 * t;
    DivDiv(n, 2, v);
    DivDiv(n, 2 * v, t);
    assert 2 * v * t == v * r;
    EstimateError(n, d, r);
    assert d == v * r + d % r;
    MulMonotonic(1, v, r);
    EstimateClose(n, d, v * r);
  }

  /** udiv64; the preconditions of Divl make every divl in it one that does not trap. */
  function Udiv64(n: nat, d: nat): (q: nat)
    requires n < U64 && 0 < d < U64
  {
    if d / B == 0 then
      var n1, n0 := n / B, n % B;
      SmallDivisor(n, d);
      (Divl(B * (n1 % d) + n0, d) + B * (n1 / d)) % U64
    else if n < d then 0
    else
      var q := Estimate(n, d);
      if (n - (q - 1) * d) % U64 < d then (q - 1) % U64 else q
  }

  /** Schoolbook division of two digits n1 n0 by a divisor of one digit. */
  lemma TwoDigits(n: nat, n1: nat, n0: nat, d: nat, a: nat, b: nat, c: nat, e: nat)
    requires d > 0 && n == n1 * B + n0 && n1 == a * d + b && B * b + n0 == c * d + e && e < d
    ensures n / d == c + B * a
  {
    Distribute(c, d, 0, 1);
    assert (c + B * a) * d == c * d + B * (a * d);
    ModUnique(n, d, c + B * a, e);
  }

  lemma SmallDivisor(n: nat, d: nat)
    requires n < U64 && 0 < d < B
    ensures (B * (n / B % d) + n % B) / d < B
    ensures ((B * (n / B % d) + n % B) / d + B * (n / B / d)) % U64 == n / d
  {
    var n1, n0 := n / B, n % B;
    var a, b := n1 / d, n1 % d;
    assert n1 == a * d + b;
    var x := B * b + n0;
    var c, e := x / d, x % d;
    assert x == c * d + e;
    DivBounds(x, 0, B, d);
    TwoDigits(n, n1, n0, d, a, b, c, e);
    QuotientBound(n, d);
    Below(c + B * a, U64);
  }

  lemma Below(x: nat, m: nat)
    requires x < m
    ensures x % m == x
  {
  }

  lemma Udiv64Small(n: nat, d: nat)
    requires n < U64 && 0 < d < B
    ensures Udiv64(n, d) == n / d
  {
    hide Estimate;
    assert d / B == 0;
    SmallDivisor(n, d);
  }

  lemma Udiv64Large(n: nat, d: nat)
    requires n < U64 && B <= d < U64
    ensures Udiv64(n, d) == n / d
  {
    hide Estimate;
    assert d / B >= 1;
    if n >= d {
      EstimateBounds(n, d);
      Correction(n, d, Estimate(n, d));
    } else {
      DivBounds(n, 0, 1, d);
    }
  }

  /** udiv64 is exact division for every 64-bit dividend and nonzero divisor. */
  lemma Udiv64Exact(n: nat, d: nat)
    requires n < U64 && 0 < d < U64
    ensures Udiv64(n, d) == n / d
  {
    hide Udiv64;
    if d < B { Udiv64Small(n, d); } else { Udiv64Large(n, d); }
  }

  /** The final correction of udiv64 tells the two possible estimates apart. */
  lemma Correction(n: nat, d: nat, q: nat)
    requires d <= n < U64 && d > 0 && n / d <= q <= n / d + 1
    ensures (if (n - (q - 1) * d) % U64 < d then (q - 1) % U64 else q) == n / d
  {
    var x := n / d;
    assert n == x * d + n % d;
    assert (x - 1) * d == x * d - d;
    DivBounds(n, 1, U64, d);
  }

  // ----- Remainders and signed division -----

  /** umod64: the remainder is returned in 32 bits. */
  function Umod64(n: nat, d: nat): nat
    requires n < U64 && 0 < d < U64
  {
    (n - d * Udiv64(n, d)) % U64 % B
  }

  lemma Umod64Value(n: nat, d: nat)
    requires n < U64 && 0 < d < U64
    ensures Umod64(n, d) == n % d % B
  {
    hide Udiv64;
    Udiv64Exact(n, d);
    assert n == (n / d) * d + n % d;
  }

  /** umod64 is the remainder for every dividend exactly when the divisor is at most 2^32. */
  lemma Umod64Exact(d: nat)
    requires 0 < d < U64
    ensures (forall n: nat | n < U64 :: Umod64(n, d) == n % d) <==> d <= B
  {
    hide Umod64;
    forall n: nat | n < U64
      ensures Umod64(n, d) == n % d % B && n % d < d
    {
      Umod64Value(n, d);
    }
    if d > B {
      ModUnique(B, d, 0, B);
      assert Umod64(B, d) != B % d;
    }
  }

  predicate IsI64(x: int) { I64_MIN <= x < -I64_MIN }

  /** The two's complement value of the low 64 bits of x. */
  function ToI64(x: int): (y: int)
    ensures IsI64(y)
  {
    if x % U64 < -I64_MIN then x % U64 else x % U64 - U64
  }

  function Abs(x: int): nat { if x >= 0 then x else -x }

  /** sdiv64; negating INT64_MIN wraps to itself. */
  function Sdiv64(n: int, d: int): int
    requires IsI64(n) && IsI64(d) && d != 0
  {
    var q := Udiv64(Abs(n), Abs(d));
    if (n < 0) == (d < 0) then ToI64(q) else ToI64(-ToI64(q))
  }

  /** q is the quotient n / d of C: rounded towards zero. */
  predicate IsQuotient(n: int, d: int, q: int) {
    var r := n - q * d;
    Abs(r) < Abs(d) && (r != 0 ==> (r < 0) == (n < 0))
  }

  lemma SignedQuotient(n: int, d: int, q: int, r: int)
    requires d != 0 && 0 <= r < Abs(d) && Abs(n) == q * Abs(d) + r
    ensures IsQuotient(n, d, if (n < 0) == (d < 0) then q else -q)
  {
    SignedProduct(q, Abs(d));
  }

  lemma SignedProduct(q: int, b: int)
    ensures (-q) * b == -(q * b) && q * (-b) == -(q * b) && (-q) * (-b) == q * b
  {
  }

  lemma QuotientBound(a: nat, b: nat)
    requires b > 0
    ensures a / b <= a && (b > 1 && a > 0 ==> a / b < a)
  {
    assert a == (a / b) * b + a % b;
    MulMonotonic(1, b, a / b);
    if b > 1 { MulMonotonic(2, b, a / b); }
  }

  lemma Quotient(n: int, d: int)
    requires IsI64(n) && IsI64(d) && d != 0
    ensures Abs(n) < U64 && 0 < Abs(d) < U64
    ensures var q := Abs(n) / Abs(d);
      IsQuotient(n, d, if (n < 0) == (d < 0) then q else -q) && 0 <= q <= -I64_MIN &&
      (q == -I64_MIN <==> n == I64_MIN && (d == 1 || d == -1))
  {
    hide IsQuotient;
    var a, b := Abs(n), Abs(d);
    assert a == (a / b) * b + a % b;
    SignedQuotient(n, d, a / b, a % b);
    QuotientBound(a, b);
    if b == 1 { assert a / b == a; }
  }

  /** Casting the unsigned quotient and negating it goes wrong only for 2^63. */
  lemma SignedCast(n: int, d: int, q: int)
    requires 0 <= q <= -I64_MIN && (q == -I64_MIN <==> n == I64_MIN && (d == 1 || d == -1))
    ensures var s := if (n < 0) == (d < 0) then ToI64(q) else ToI64(-ToI64(q));
      if n == I64_MIN && d == -1 then s == I64_MIN else s == if (n < 0) == (d < 0) then q else -q
  {
  }

  /** The only signed division that is not exact is the one whose quotient is 2^63. */
  lemma Sdiv64Exact(n: int, d: int)
    requires IsI64(n) && IsI64(d) && d != 0
    ensures IsQuotient(n, d, Sdiv64(n, d)) <==> !(n == I64_MIN && d == -1)
  {
    hide Udiv64, IsQuotient, Abs, ToI64;
    Quotient(n, d);
    Udiv64Exact(Abs(n), Abs(d));
    SignedCast(n, d, Udiv64(Abs(n), Abs(d)));
    if n == I64_MIN && d == -1 { NotTheQuotient(); }
  }

  lemma NotTheQuotient()
    ensures !IsQuotient(I64_MIN, -1, I64_MIN)
  {
  }

  /** smod64: the remainder is returned in 32 bits. */
  function Smod64(n: int, d: int): int
    requires IsI64(n) && IsI64(d) && d != 0
  {
    var r := (n - d * Sdiv64(n, d)) % B;
    if r < 0x8000_0000 then r else r - B
  }

  lemma Smod64Value(n: int, d: int)
    requires IsI64(n) && IsI64(d) && d != 0
    requires !(n == I64_MIN && d == -1)
    ensures var r := n - Sdiv64(n, d) * d;
      Abs(r) < Abs(d) && (Smod64(n, d) == r <==> -0x8000_0000 <= r < 0x8000_0000)
  {
    hide Sdiv64;
    Sdiv64Exact(n, d);
    var q := Sdiv64(n, d);
    assert d * q == q * d;
    Low32(n - q * d);
  }

  lemma Low32(r: int)
    ensures (if r % B < 0x8000_0000 then r % B else r % B - B) == r <==> -0x8000_0000 <= r < 0x8000_0000
  {
  }

  /** smod64 is the remainder of every signed division that does not overflow exactly
      when the divisor is at most 2^31 in absolute value. */
  lemma Smod64Exact(d: int)
    requires IsI64(d) && d != 0
    ensures (forall n | IsI64(n) && !(n == I64_MIN && d == -1) :: Smod64(n, d) == n - Sdiv64(n, d) * d)
      <==> Abs(d) <= 0x8000_0000
  {
    hide Sdiv64, Smod64;
    forall n | IsI64(n) && !(n == I64_MIN && d == -1)
      ensures var r := n - Sdiv64(n, d) * d;
        Abs(r) < Abs(d) && (Smod64(n, d) == r <==> -0x8000_0000 <= r < 0x8000_0000)
    {
      Smod64Value(n, d);
    }
    if Abs(d) > 0x8000_0000 {
      var n := 0x8000_0000;
      Sdiv64Exact(n, d);
      var q := Sdiv64(n, d);
      SignedProduct(q, d);
      MulBound(q, Abs(d));
      MulBound(-q, Abs(d));
      assert q == 0;
      assert Smod64(n, d) != n - q * d;
    }
  }
}
