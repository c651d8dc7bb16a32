/**
 * Machine integer types and the bit arithmetic the ring buffer relies on.
 *
 * The ring buffer wraps its indices with `index & (size - 1)` instead of
 * `index % size`. `BitAnd` models C's `&` on non-negative integers bit by bit,
 * and `MaskIsMod` proves that masking with `size - 1` is reduction modulo
 * `size` exactly when `size` is a power of two.
 */
module Bits {

  type byte = x: int | 0 <= x < 0x100
  type u16 = x: int | 0 <= x < 0x1_0000
  type u32 = x: int | 0 <= x < 0x1_0000_0000

  const Two32: int := 0x1_0000_0000

  /** `n` is 1, 2, 4, 8, ... */
  ghost predicate IsPow2(n: int)
    decreases if n < 0 then 0 else n
  {
    n == 1 || (n > 1 && n % 2 == 0 && IsPow2(n / 2))
  }

  /** Bitwise AND of two non-negative integers, least significant bit first. */
  function BitAnd(a: nat, b: nat): nat
    decreases a
  {
    if a == 0 || b == 0 then 0
    else 2 * BitAnd(a / 2, b / 2) + (if a % 2 == 1 && b % 2 == 1 then 1 else 0)
  }

  /** The bit pattern of a C `int` (32-bit two's complement) read as unsigned. */
  function Int32Bits(x: int): (r: nat)
    ensures r < Two32
    ensures x >= 0 && x < Two32 ==> r == x
    ensures x < 0 && x >= -Two32 ==> r == x + Two32
  {
    x % Two32
  }

  lemma MulSub(a: int, b: int, m: int)
    ensures a * m - b * m == (a - b) * m
  {}

  lemma MulAtLeast(d: int, m: int)
    requires d >= 1 && m > 0
    ensures d * m >= m
  {
    assert d * m == (d - 1) * m + m;
  }

  /** A quotient below the bound its dividend was below, scaled. */
  lemma DivBound(x: nat, m: int, p: int)
    requires m > 0 && x < m * p
    ensures x / m < p
  {
  }

  /** Division with remainder determines quotient and remainder uniquely. */
  lemma DivModUnique(x: int, m: int, q: int, r: int)
    requires m > 0 && 0 <= r < m && x == q * m + r
    ensures x / m == q && x % m == r
  {
    var q', r' := x / m, x % m;
    assert x == q' * m + r';
    MulSub(q, q', m);
    if q > q' {
      MulAtLeast(q - q', m);
    } else if q < q' {
      MulSub(q', q, m);
      MulAtLeast(q' - q, m);
    }
  }

  /** Reduction modulo `n` of a value less than one period away from `[0, n)`. */
  lemma ModNear(x: int, n: int)
    requires n > 0
    ensures -n <= x < 2 * n ==> x % n == if x < 0 then x + n else if x < n then x else x - n
  {
    if x < -n || x >= 2 * n {
    } else if x < 0 {
      DivModUnique(x, n, -1, x + n);
    } else if x < n {
      DivModUnique(x, n, 0, x);
    } else {
      DivModUnique(x, n, 1, x - n);
    }
  }

  /** Remainder modulo `b * q` split into a digit in base `b` above the remainder modulo `b`. */
  lemma ModMul(a: nat, b: nat, q: nat)
    requires b > 0 && q > 0
    ensures a % (b * q) == b * ((a / b) % q) + a % b
    ensures a / (b * q) == (a / b) / q
  {
    var h := a / b;
    var x, y := h / q, h % q;
    assert h == x * q + y;
    assert a == b * h + a % b;
    assert a == x * (b * q) + (b * y + a % b) by {
      assert b * h == b * (x * q) + b * y;
      assert b * (x * q) == x * (b * q);
    }
    assert b * y + a % b < b * q by {
      MulAtLeast(q - y, b);
      MulSub(q, y, b);
    }
    DivModUnique(a, b * q, x, b * y + a % b);
  }

  /** Masking with `p - 1` reduces modulo `p` when `p` is a power of two. */
  lemma {:induction false} MaskIsMod(a: nat, p: int)
    requires IsPow2(p)
    ensures BitAnd(a, p - 1) == a % p
    decreases p
  {
    if p == 1 {
    } else {
      var q := p / 2;
      assert p == 2 * q;
      if a == 0 {
      } else {
        assert (p - 1) / 2 == q - 1 && (p - 1) % 2 == 1;
        MaskIsMod(a / 2, q);
        ModMul(a, 2, q);
      }
    }
  }

  /** A power of two divides every larger power of two. */
  lemma {:induction false} Pow2Divides(p: int, m: int)
    requires IsPow2(p) && IsPow2(m) && p <= m
    ensures m % p == 0
    decreases m
  {
    if p == 1 {
    } else {
      assert m != 1;
      Pow2Divides(p / 2, m / 2);
      var c := (m / 2) / (p / 2);
      assert m / 2 == c * (p / 2);
      assert m == c * p;
      DivModUnique(m, p, c, 0);
    }
  }

  /** Reducing modulo a multiple of `p` first does not change the remainder modulo `p`. */
  lemma ModOfMod(x: int, p: int, c: int)
    requires p > 0 && c > 0
    ensures (x % (c * p)) % p == x % p
  {
    var m := c * p;
    var q, r := x / m, x % m;
    assert x == q * m + r;
    var s, t := r / p, r % p;
    assert r == s * p + t;
    assert x == (q * c + s) * p + t by {
      assert q * m == (q * c) * p;
      assert (q * c) * p + s * p == (q * c + s) * p;
    }
    DivModUnique(x, p, q * c + s, t);
  }

  lemma Pow2Double(n: int)
    requires IsPow2(n)
    ensures IsPow2(2 * n)
  {
    assert (2 * n) / 2 == n;
  }

  /** The product of two powers of two is a power of two. */
  lemma {:induction false} Pow2Mul(a: int, b: int)
    requires IsPow2(a) && IsPow2(b)
    ensures IsPow2(a * b)
    decreases b
  {
    if b != 1 {
      var h := b / 2;
      Pow2Mul(a, h);
      assert a * b == 2 * (a * h) by { assert b == 2 * h; }
      Pow2Double(a * h);
    }
  }

  lemma Two32IsPow2()
    ensures IsPow2(Two32)
  {
    assert IsPow2(2) && IsPow2(4);
    Pow2Mul(4, 4);
    Pow2Mul(16, 16);
    Pow2Mul(256, 256);
    Pow2Mul(0x1_0000, 0x1_0000);
  }

  /** Every power of two up to 2^32 divides 2^32. */
  lemma Pow2DividesTwo32(p: int)
    requires IsPow2(p) && p <= Two32
    ensures p > 0 && Two32 == (Two32 / p) * p
  {
    Two32IsPow2();
    Pow2Divides(p, Two32);
  }

  /**
   * `x & (p - 1)` on a C `int`, with `p` a power of two no wider than 32 bits,
   * is `x` reduced modulo `p` in the Euclidean sense, negative `x` included.
   */
  lemma Int32MaskIsMod(x: int, p: int)
    requires IsPow2(p) && p <= Two32
    ensures BitAnd(Int32Bits(x), p - 1) == x % p
  {
    MaskIsMod(Int32Bits(x), p);
    Pow2DividesTwo32(p);
    var c := Two32 / p;
    ModOfMod(x, p, c);
  }
}
