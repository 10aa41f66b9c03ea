// Powers of two and the bitwise "and" of natural numbers, defined bit by bit.
// Shared by the ring (toIndex), the hash table (find_bucket, is_power_of_2) and
// the 64-bit division.
module Bits {

  function Pow2(k: nat): (p: nat)
    ensures p >= 1
  {
    if k == 0 then 1 else 2 * Pow2(k - 1)
  }

  predicate IsPow2(n: nat) {
    n == 1 || (n > 1 && n % 2 == 0 && IsPow2(n / 2))
  }

  /** x & y */
  function BitAnd(x: nat, y: nat): (r: nat)
    ensures r <= x && r <= y
    decreases x
  {
    if x == 0 then 0 else 2 * BitAnd(x / 2, y / 2) + (x % 2) * (y % 2)
  }

  /** x | y */
  function BitOr(x: nat, y: nat): nat
    decreases x + y
  {
    if x == 0 && y == 0 then 0 else 2 * BitOr(x / 2, y / 2) + (if x % 2 == 1 || y % 2 == 1 then 1 else 0)
  }

  /** x & ~y */
  function BitAndNot(x: nat, y: nat): (r: nat)
    ensures r <= x
  {
    if x == 0 then 0 else 2 * BitAndNot(x / 2, y / 2) + (if x % 2 == 1 && y % 2 == 0 then 1 else 0)
  }

  /** Bit k of w is set: w & (1 << k) is not zero. */
  predicate HasBit(w: nat, k: nat) {
    BitAnd(w, Pow2(k)) != 0
  }

  lemma {:induction false} HasBitStep(w: nat, k: nat)
    ensures HasBit(w, 0) <==> w % 2 == 1
    ensures HasBit(w, k + 1) <==> HasBit(w / 2, k)
  {
    AndZero(w / 2);
  }

  /** Setting or clearing one bit of a word changes that bit and no other. */
  lemma {:induction false} SetBit(w: nat, a: nat, b: nat)
    ensures HasBit(BitOr(w, Pow2(a)), b) <==> a == b || HasBit(w, b)
    ensures HasBit(BitAndNot(w, Pow2(a)), b) <==> a != b && HasBit(w, b)
  {
    var x, y := BitOr(w, Pow2(a)), BitAndNot(w, Pow2(a));
    assert x / 2 == BitOr(w / 2, Pow2(a) / 2) && x % 2 == (if a == 0 then 1 else w % 2);
    assert y / 2 == BitAndNot(w / 2, Pow2(a) / 2) && y % 2 == (if a == 0 then 0 else w % 2);
    if b == 0 {
      HasBitStep(x, 0);
      HasBitStep(y, 0);
      HasBitStep(w, 0);
    } else {
      HasBitStep(x, b - 1);
      HasBitStep(y, b - 1);
      HasBitStep(w, b - 1);
      if a == 0 {
        OrZero(w / 2);
      } else {
        SetBit(w / 2, a - 1, b - 1);
      }
    }
  }

  lemma {:induction false} OrZero(x: nat)
    ensures BitOr(x, 0) == x && BitAndNot(x, 0) == x
  {
    if x > 0 { OrZero(x / 2); }
  }

  lemma {:induction false} OrBound(w: nat, a: nat, n: nat)
    requires w < Pow2(n) && a < n
    ensures BitOr(w, Pow2(a)) < Pow2(n)
  {
    if a == 0 { OrZero(w / 2); } else { OrBound(w / 2, a - 1, n - 1); }
  }

  lemma {:induction false} Pow2IsPow2(k: nat)
    ensures IsPow2(Pow2(k))
  {
    if k > 0 { Pow2IsPow2(k - 1); }
  }

  lemma {:induction false} IsPow2Exponent(n: nat) returns (k: nat)
    requires IsPow2(n)
    ensures n == Pow2(k)
  {
    if n == 1 {
      k := 0;
    } else {
      var j := IsPow2Exponent(n / 2);
      k := j + 1;
    }
  }

  lemma {:induction false} Pow2Add(j: nat, k: nat)
    ensures Pow2(j + k) == Pow2(j) * Pow2(k)
  {
    if j > 0 {
      Pow2Add(j - 1, k);
      assert (2 * Pow2(j - 1)) * Pow2(k) == 2 * (Pow2(j - 1) * Pow2(k));
    }
  }

  lemma Pow2Square(k: nat, p: nat)
    requires Pow2(k) == p
    ensures Pow2(k + k) == p * p
  {
    Pow2Add(k, k);
  }

  lemma Pow2Literals()
    ensures Pow2(31) == 0x8000_0000 && Pow2(32) == 0x1_0000_0000 && Pow2(64) == 0x1_0000_0000_0000_0000
  {
    assert Pow2(1) == 2;
    assert Pow2(32) == 2 * Pow2(31);
    hide Pow2;
    Pow2Square(1, 2);
    Pow2Square(2, 4);
    Pow2Square(4, 16);
    Pow2Square(8, 256);
    Pow2Square(16, 0x1_0000);
    Pow2Square(32, 0x1_0000_0000);
  }

  lemma {:induction false} Pow2Monotonic(j: nat, k: nat)
    requires j <= k
    ensures Pow2(j) <= Pow2(k)
  {
    if j < k { Pow2Monotonic(j, k - 1); }
  }

  /** Masking with 2^k - 1 is the remainder modulo 2^k. */
  lemma {:induction false} MaskIsMod(x: nat, n: nat)
    requires IsPow2(n)
    ensures BitAnd(x, n - 1) == x % n
    decreases n
  {
    if n > 1 {
      var h := n / 2;
      MaskIsMod(x / 2, h);
      assert (n - 1) / 2 == h - 1 && (n - 1) % 2 == 1;
      HalveMod(x, h);
    } else {
      AndZero(x);
    }
  }

  lemma {:induction false} AndZero(x: nat)
    ensures BitAnd(x, 0) == 0
  {
    if x > 0 { AndZero(x / 2); }
  }

  /** x % 2h is twice (x / 2) % h plus the low bit. */
  lemma HalveMod(x: nat, h: nat)
    requires h > 0
    ensures x % (2 * h) == 2 * ((x / 2) % h) + x % 2
  {
    var y := x / 2;
    var q, r := y / h, y % h;
    assert y == q * h + r;
    assert x == q * (2 * h) + (2 * r + x % 2);
    ModUnique(x, 2 * h, q, 2 * r + x % 2);
  }

  lemma MulBound(d: int, n: nat)
    ensures d >= 1 ==> d * n >= n
    ensures d <= -1 ==> d * n + n <= 0
    ensures d == 0 ==> d * n == 0
  {
  }

  lemma MulMonotonic(a: nat, b: nat, c: nat)
    requires a <= b
    ensures a * c <= b * c
  {
  }

  lemma ModUnique(x: int, n: nat, q: int, r: nat)
    requires n > 0 && r < n && x == q * n + r
    ensures x % n == r && x / n == q
  {
    var d := x / n - q;
    assert x == (x / n) * n + x % n;
    assert d * n == (x / n) * n - q * n;
    MulBound(d, n);
  }

  /** Reducing modulo a multiple of n first does not change the remainder modulo n. */
  lemma ModMultiple(x: nat, n: nat, q: nat)
    requires n > 0 && q > 0
    ensures n * q > 0 && (x % (n * q)) % n == x % n
  {
    MulBound(q, n);
    var m := n * q;
    var d, r := x / m, x % m;
    var e, s := r / n, r % n;
    Regroup(d, n, q, e);
    ModUnique(x, n, d * q + e, s);
  }

  lemma Regroup(d: nat, n: nat, q: nat, e: nat)
    ensures d * (n * q) + e * n == (d * q + e) * n
  {
  }

  /** Two numbers less than n apart have different remainders modulo n. */
  lemma ModDistinct(x: nat, y: nat, n: nat)
    requires x < y < x + n
    ensures x % n != y % n
  {
    var d := y / n - x / n;
    assert x == (x / n) * n + x % n && y == (y / n) * n + y % n;
    assert d * n == (y / n) * n - (x / n) * n;
    MulBound(d, n);
  }

  /** The difference of two counters survives wrap-around when it is small. */
  lemma WrapDifference(x: nat, y: nat, m: nat)
    requires x <= y < x + m
    ensures (y % m - x % m) % m == y - x
  {
    var d := x / m - y / m;
    assert x == (x / m) * m + x % m && y == (y / m) * m + y % m;
    assert d * m == (x / m) * m - (y / m) * m;
    ModUnique(y % m - x % m, m, d, y - x);
  }

  /** Incrementing a counter commutes with reducing it modulo m. */
  lemma WrapIncrement(x: nat, m: nat)
    requires m > 1
    ensures (x % m + 1) % m == (x + 1) % m
  {
    var q, r := x / m, x % m;
    assert x == q * m + r;
    if r + 1 < m {
      ModUnique(x + 1, m, q, r + 1);
    } else {
      assert (q + 1) * m == q * m + m;
      ModUnique(x + 1, m, q + 1, 0);
      ModUnique(m, m, 1, 0);
    }
  }

  lemma DivBounds(x: nat, lo: nat, hi: nat, n: nat)
    requires n > 0 && lo * n <= x < hi * n
    ensures lo <= x / n < hi
  {
    assert x == (x / n) * n + x % n;
    MulBound(lo - x / n, n);
    MulBound(x / n - hi, n);
    assert (lo - x / n) * n == lo * n - (x / n) * n;
    assert (x / n - hi) * n == (x / n) * n - hi * n;
  }

  lemma Distribute(a: int, b: int, c: int, p: int)
    ensures (a * b + c) * p == (a * p) * b + c * p
    ensures (a * b) * p == (a * p) * b == a * (b * p)
  {
    assert (a * b + c) * p == (a * b) * p + c * p;
  }

  lemma DivDiv(x: nat, a: nat, b: nat)
    requires a > 0 && b > 0
    ensures a * b > 0 && x / a / b == x / (a * b)
  {
    MulBound(a, b);
    var y, r := x / a, x % a;
    var z, t := y / b, y % b;
    assert y == z * b + t && x == y * a + r;
    Distribute(z, b, t, a);
    assert (z * a) * b == z * (a * b) by { Distribute(z, a, 0, b); }
    MulMonotonic(t + 1, b, a);
    assert (t + 1) * a == t * a + a;
    ModUnique(x, a * b, z, t * a + r);
  }
}
