/**
 * Integer facts the hash table relies on: powers of two, rounding up to one,
 * the bitwise AND that turns a hash into a bucket index, and the population
 * count used by the table's sanity assertion.
 */
module Bits {

  /** n is 1, 2, 4, 8, ... */
  predicate IsPowerOfTwo(n: nat)
    decreases n
  {
    n == 1 || (n >= 2 && n % 2 == 0 && IsPowerOfTwo(n / 2))
  }

  /** 2 raised to the k. */
  function Pow2(k: nat): (r: nat)
    ensures IsPowerOfTwo(r)
  {
    if k == 0 then 1 else 2 * Pow2(k - 1)
  }

  /** The product of two powers of two is a power of two. */
  lemma {:induction false} PowerOfTwoProduct(p: nat, q: nat)
    requires IsPowerOfTwo(p) && IsPowerOfTwo(q)
    ensures IsPowerOfTwo(p * q)
    decreases q
  {
    if q > 1 {
      PowerOfTwoProduct(p, q / 2);
      assert p * q == 2 * (p * (q / 2));
    }
  }

  /** Two distinct powers of two are at least a factor of two apart. */
  lemma {:induction false} PowersOfTwoApart(p: nat, q: nat)
    requires IsPowerOfTwo(p) && IsPowerOfTwo(q) && p < q
    ensures 2 * p <= q
    decreases q
  {
    if p == 1 {
      assert q >= 2;
    } else {
      PowersOfTwoApart(p / 2, q / 2);
    }
  }

  /**
   * next_power_of_two: the smallest power of two that is at least n
   * (1 for n <= 1).
   */
  function NextPowerOfTwo(n: nat): (r: nat)
    ensures IsPowerOfTwo(r) && n <= r
    ensures r == 1 || r < 2 * n
    decreases n
  {
    if n <= 1 then 1 else 2 * NextPowerOfTwo((n + 1) / 2)
  }

  /** No power of two at least n lies below NextPowerOfTwo(n). */
  lemma {:induction false} NextPowerOfTwoIsLeast(n: nat, p: nat)
    requires IsPowerOfTwo(p) && n <= p
    ensures NextPowerOfTwo(n) <= p
  {
    var r := NextPowerOfTwo(n);
    if p < r {
      PowersOfTwoApart(p, r);
    }
  }

  /** x & y on non-negative integers, bit by bit from the least significant. */
  function And(x: nat, y: nat): (r: nat)
    ensures r <= x && r <= y
    decreases x
  {
    if x == 0 || y == 0 then 0
    else 2 * And(x / 2, y / 2) + (if x % 2 == 1 && y % 2 == 1 then 1 else 0)
  }

  /** A positive multiple of n is at least n. */
  lemma MulAtLeast(a: int, n: int)
    requires a >= 1 && n > 0
    ensures a * n >= n
  {
    assert a * n == n + (a - 1) * n;
  }

  /** Division with remainder has only one answer. */
  lemma ModUnique(x: int, n: int, q: int, m: int)
    requires n > 0 && x == q * n + m && 0 <= m < n
    ensures x % n == m && x / n == q
  {
    var d, r := x / n, x % n;
    assert x == d * n + r;
    assert (q - d) * n == r - m;
    if q > d {
      MulAtLeast(q - d, n);
    } else if q < d {
      MulAtLeast(d - q, n);
    }
  }

  /** Splitting off the lowest bit of x commutes with reducing modulo 2 * h. */
  lemma ModHalves(x: nat, h: nat)
    requires h >= 1
    ensures x % (2 * h) == 2 * ((x / 2) % h) + x % 2
  {
    var q, b := x / 2, x % 2;
    var t, u := q / h, q % h;
    assert q == t * h + u;
    assert x == t * (2 * h) + (2 * u + b) by {
      assert x == 2 * q + b;
      assert 2 * (t * h) == t * (2 * h);
    }
    ModUnique(x, 2 * h, t, 2 * u + b);
  }

  /** Against a mask with its low bit set, x keeps its own low bit. */
  lemma AndOddMask(x: nat, m: nat)
    requires x > 0
    ensures And(x, 2 * m + 1) == 2 * And(x / 2, m) + x % 2
  {
    assert (2 * m + 1) / 2 == m && (2 * m + 1) % 2 == 1;
  }

  /** Masking with n - 1 is reduction modulo n when n is a power of two. */
  lemma {:induction false} MaskIsMod(x: nat, n: nat)
    requires IsPowerOfTwo(n)
    ensures And(x, n - 1) == x % n
    decreases n, 1
  {
    if n == 1 {
      ModUnique(x, 1, x, 0);
    } else if x == 0 {
      ModUnique(0, n, 0, 0);
    } else {
      var h := n / 2;
      assert n == 2 * h && IsPowerOfTwo(h);
      MaskStep(x, h);
    }
  }

  /** One step of MaskIsMod, for the power of two 2 * h. */
  lemma {:induction false} MaskStep(x: nat, h: nat)
    requires x > 0 && IsPowerOfTwo(h)
    ensures And(x, 2 * h - 1) == x % (2 * h)
    decreases 2 * h, 0
  {
    AndOddMask(x, h - 1);
    MaskIsMod(x / 2, h);
    ModHalves(x, h);
  }

  /** Number of one bits of n. */
  function PopCount(n: nat): (c: nat)
    ensures c == 0 <==> n == 0
    decreases n
  {
    if n == 0 then 0 else n % 2 + PopCount(n / 2)
  }

  /** A power of two has exactly one bit set (the intended meaning of the check). */
  lemma {:induction false} PowerOfTwoHasOneBit(n: nat)
    requires IsPowerOfTwo(n)
    ensures PopCount(n) == 1
    decreases n
  {
    if n > 1 {
      PowerOfTwoHasOneBit(n / 2);
    }
  }

  /**
   * __builtin_popcount takes an unsigned int: an i64 argument is first
   * reduced to its low 32 bits.
   */
  function PopCount32(n: nat): (c: nat)
    ensures c == 0 <==> n % 0x1_0000_0000 == 0
  {
    PopCount(n % 0x1_0000_0000)
  }

  /**
   * The check as written rejects the power of two 2^32: its low 32 bits are
   * all zero.
   */
  lemma PopCount32RejectsPowerOfTwo()
    ensures IsPowerOfTwo(0x1_0000_0000) && PopCount32(0x1_0000_0000) == 0
  {
    PowerOfTwoProduct(2, 2);
    PowerOfTwoProduct(4, 4);
    PowerOfTwoProduct(16, 16);
    PowerOfTwoProduct(256, 256);
    PowerOfTwoProduct(0x1_0000, 0x1_0000);
  }
}
