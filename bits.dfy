/**
 * Java's 32-bit integer operations used by the hash table's bucket index,
 * stated on unbounded integers: `And` and `Xor` work bit by bit on naturals,
 * `Unsigned` is the two's complement bit pattern of a Java `int`.
 */
module Bits {

  /** 2^32: the number of distinct bit patterns of a Java `int`. */
  const WORD: nat := 0x1_0000_0000

  /** The bit pattern of a Java `int` (or of any integer's low 32 bits), read as an unsigned number. */
  function Unsigned(h: int): (u: nat)
    ensures u < WORD
    ensures 0 <= h < WORD ==> u == h
  {
    h % WORD
  }

  /** Bitwise and of two naturals (Java's `&` on non-negative operands). */
  function And(a: nat, b: nat): nat
    decreases a
  {
    if a == 0 || b == 0 then 0
    else 2 * And(a / 2, b / 2) + (if a % 2 == 1 && b % 2 == 1 then 1 else 0)
  }

  /** Bitwise exclusive or of two naturals (Java's `^` on non-negative operands). */
  function Xor(a: nat, b: nat): nat
    decreases a + b
  {
    if a == 0 then b
    else if b == 0 then a
    else 2 * Xor(a / 2, b / 2) + (a % 2 + b % 2) % 2
  }

  /** `h ^ (h >>> 16)` on the bit pattern `u` of a Java `int`: `>>>` shifts in zeros, so it is division by 2^16. */
  function Spread(u: nat): nat
  {
    Xor(u, u / 0x1_0000)
  }

  /** 2^e. */
  function Pow2(e: nat): (p: nat)
    ensures p >= 1
  {
    if e == 0 then 1 else 2 * Pow2(e - 1)
  }

  /** `n` is 2^e for some `e`, i.e. `n == 1 << e`. */
  ghost predicate IsPowerOfTwo(n: int)
  {
    exists e: nat :: Pow2(e) == n
  }

  /** Masking never produces more bits than the mask has: `a & b <= b`. */
  lemma {:induction false} AndAtMost(a: nat, b: nat)
    ensures And(a, b) <= b
    decreases a
  {
    if a != 0 && b != 0 {
      AndAtMost(a / 2, b / 2);
    }
  }

  /** For a power of two `c`, masking with `c - 1` keeps exactly the remainder modulo `c`. */
  lemma AndLowMaskIsMod(x: nat, c: nat)
    requires IsPowerOfTwo(c)
    ensures And(x, c - 1) == x % c
  {
    var e: nat :| Pow2(e) == c;
    AndLowMaskIsModPow(x, e);
  }

  lemma {:induction false} AndLowMaskIsModPow(x: nat, e: nat)
    ensures And(x, Pow2(e) - 1) == x % Pow2(e)
    decreases e
  {
    var c := Pow2(e);
    if e == 0 {
    } else if x == 0 {
    } else {
      var h := Pow2(e - 1);
      AndLowMaskIsModPow(x / 2, e - 1);
      assert c == 2 * h;
      assert (c - 1) / 2 == h - 1 && (c - 1) % 2 == 1;
      assert And(x, c - 1) == 2 * ((x / 2) % h) + x % 2;
      DivModHalves(x, h);
    }
  }

  /** `x mod 2h` is rebuilt from `x / 2 mod h` and the lowest bit of `x`. */
  lemma DivModHalves(x: nat, h: nat)
    requires h >= 1
    ensures x % (2 * h) == 2 * ((x / 2) % h) + x % 2
  {
    var q, b := x / 2, x % 2;
    var t, r := q / h, q % h;
    assert q == h * t + r;
    assert x == 2 * q + b;
    assert x == (2 * h) * t + (2 * r + b) by {
      assert 2 * (h * t) == (2 * h) * t;
    }
    ModUnique(x, 2 * h, t, 2 * r + b);
  }

  /** The remainder is the only value in `[0, d)` that differs from `x` by a multiple of `d`. */
  lemma ModUnique(x: int, d: int, t: int, r: int)
    requires d > 0 && x == d * t + r && 0 <= r < d
    ensures x % d == r
  {
    var t', r' := x / d, x % d;
    var k := t - t';
    assert d * k == r' - r by {
      assert d * k == d * t - d * t';
    }
    if k >= 1 {
      MulAtLeast(d, k);
    } else if k <= -1 {
      MulAtLeast(d, -k);
    }
  }

  lemma {:induction false} MulAtLeast(d: int, k: int)
    requires d > 0 && k >= 1
    ensures d * k >= d
    decreases k
  {
    if k > 1 {
      MulAtLeast(d, k - 1);
      assert d * k == d * (k - 1) + d;
    }
  }

  /** A larger exponent gives a larger power. */
  lemma {:induction false} Pow2Monotone(a: nat, b: nat)
    requires a <= b
    ensures Pow2(a) <= Pow2(b)
    decreases b
  {
    if a < b {
      Pow2Monotone(a, b - 1);
    }
  }

  /** Twice a power of two is a power of two. */
  lemma DoubleIsPowerOfTwo(p: int)
    requires IsPowerOfTwo(p)
    ensures IsPowerOfTwo(2 * p)
  {
    var e: nat :| Pow2(e) == p;
    assert Pow2(e + 1) == 2 * p;
  }

  /** Doubling a power of two smaller than another power of two never overshoots it. */
  lemma DoubleAtMost(p: int, q: int)
    requires IsPowerOfTwo(p) && IsPowerOfTwo(q) && p < q
    ensures 2 * p <= q
  {
    var a: nat :| Pow2(a) == p;
    var b: nat :| Pow2(b) == q;
    if b <= a {
      Pow2Monotone(b, a);
    } else {
      Pow2Monotone(a + 1, b);
    }
  }

  /** Exponents add when powers multiply. */
  lemma {:induction false} Pow2Add(a: nat, b: nat)
    ensures Pow2(a + b) == Pow2(a) * Pow2(b)
    decreases a
  {
    if a > 0 {
      Pow2Add(a - 1, b);
      assert Pow2(a + b) == 2 * Pow2(a - 1 + b);
    }
  }

  /** 1 << 30, the hash table's largest capacity, is a power of two. */
  lemma Pow30IsPowerOfTwo()
    ensures IsPowerOfTwo(0x4000_0000)
  {
    assert Pow2(10) == 1024;
    Pow2Add(10, 10);
    Pow2Add(20, 10);
    assert Pow2(30) == 0x4000_0000;
  }
}
