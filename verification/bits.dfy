/**
 Python's integer bit operations on non-negative integers: `&`, `|`, `& ~m`,
 `<<` and `>>`. Each is defined by recursion on the binary representation and
 characterised bit by bit through `Bit`; `BitsEqual` turns a bit-by-bit
 agreement back into an equality of integers.
 */
module Bits {

  /** 2 to the power n, i.e. Python's `1 << n`. */
  function Pow2(n: nat): (r: nat)
    ensures r >= 1
  {
    if n == 0 then 1 else 2 * Pow2(n - 1)
  }

  /** Bit i of x, i.e. Python's `(x >> i) & 1`. */
  function Bit(x: nat, i: nat): (b: nat)
    ensures b < 2
    decreases i
  {
    if i == 0 then x % 2 else Bit(x / 2, i - 1)
  }

  /** Python's `a & b`. */
  function And(a: nat, b: nat): nat
  {
    if a == 0 || b == 0 then 0 else 2 * And(a / 2, b / 2) + (a % 2) * (b % 2)
  }

  /** Python's `a | b`. */
  function Or(a: nat, b: nat): nat
  {
    if a == 0 then b
    else if b == 0 then a
    else 2 * Or(a / 2, b / 2) + (if a % 2 == 1 || b % 2 == 1 then 1 else 0)
  }

  /** Python's `a & ~m`: a with every bit of m cleared. */
  function AndNot(a: nat, m: nat): nat
  {
    if a == 0 then 0 else 2 * AndNot(a / 2, m / 2) + (a % 2) * (1 - m % 2)
  }

  /** Python's `x << k`. */
  function Shl(x: nat, k: nat): nat
  {
    x * Pow2(k)
  }

  /** Python's `x >> k`, one bit at a time. */
  function Shr(x: nat, k: nat): nat
    decreases k
  {
    if k == 0 then x else Shr(x / 2, k - 1)
  }

  /** The bits of 2*y + b: b at position 0, the bits of y above it. */
  lemma BitOfDouble(y: nat, b: nat, i: nat)
    requires b < 2
    ensures Bit(2 * y + b, i) == if i == 0 then b else Bit(y, i - 1)
  {
    assert (2 * y + b) / 2 == y;
  }

  /** Zero has no bit set. */
  lemma {:induction false} BitZero(i: nat)
    ensures Bit(0, i) == 0
    decreases i
  {
    if i > 0 {
      BitZero(i - 1);
    }
  }

  /** Two integers with the same bits are equal. */
  lemma {:induction false} BitsEqual(a: nat, b: nat)
    requires forall i: nat :: Bit(a, i) == Bit(b, i)
    ensures a == b
    decreases a + b
  {
    if a != 0 || b != 0 {
      assert Bit(a, 0) == Bit(b, 0);
      forall i: nat
        ensures Bit(a / 2, i) == Bit(b / 2, i)
      {
        assert Bit(a, i + 1) == Bit(b, i + 1);
      }
      BitsEqual(a / 2, b / 2);
    }
  }

  /** A bit of `a & b` is set iff it is set in both. */
  lemma {:induction false} BitAnd(a: nat, b: nat, i: nat)
    ensures Bit(And(a, b), i) == Bit(a, i) * Bit(b, i)
    decreases a
  {
    if a == 0 || b == 0 {
      BitZero(i);
    } else {
      BitOfDouble(And(a / 2, b / 2), (a % 2) * (b % 2), i);
      if i > 0 {
        BitAnd(a / 2, b / 2, i - 1);
      }
    }
  }

  /** A bit of `a | b` is set iff it is set in either. */
  lemma {:induction false} BitOr(a: nat, b: nat, i: nat)
    ensures Bit(Or(a, b), i) == if Bit(a, i) == 1 || Bit(b, i) == 1 then 1 else 0
    decreases a
  {
    if a == 0 {
      BitZero(i);
    } else if b == 0 {
      BitZero(i);
    } else {
      BitOfDouble(Or(a / 2, b / 2), if a % 2 == 1 || b % 2 == 1 then 1 else 0, i);
      if i > 0 {
        BitOr(a / 2, b / 2, i - 1);
      }
    }
  }

  /** A bit of `a & ~m` is set iff it is set in a and clear in m. */
  lemma {:induction false} BitAndNot(a: nat, m: nat, i: nat)
    ensures Bit(AndNot(a, m), i) == Bit(a, i) * (1 - Bit(m, i))
    decreases a
  {
    if a == 0 {
      BitZero(i);
    } else {
      BitOfDouble(AndNot(a / 2, m / 2), (a % 2) * (1 - m % 2), i);
      if i > 0 {
        BitAndNot(a / 2, m / 2, i - 1);
      }
    }
  }

  /** Shifting left by k moves every bit up by k positions and fills with zeros. */
  lemma {:induction false} BitShl(x: nat, k: nat, i: nat)
    ensures Bit(Shl(x, k), i) == if i < k then 0 else Bit(x, i - k)
    decreases k
  {
    if k > 0 {
      assert Shl(x, k) == 2 * Shl(x, k - 1) + 0 by {
        assert x * (2 * Pow2(k - 1)) == 2 * (x * Pow2(k - 1));
      }
      BitOfDouble(Shl(x, k - 1), 0, i);
      if i > 0 {
        BitShl(x, k - 1, i - 1);
      }
    }
  }

  /** Shifting right by k moves every bit down by k positions. */
  lemma {:induction false} BitShr(x: nat, k: nat, i: nat)
    ensures Bit(Shr(x, k), i) == Bit(x, i + k)
    decreases k
  {
    if k > 0 {
      BitShr(x / 2, k - 1, i);
    }
  }

  /** 2^k has exactly bit k set. */
  lemma {:induction false} BitPow2(k: nat, i: nat)
    ensures Bit(Pow2(k), i) == if i == k then 1 else 0
    decreases k
  {
    if k == 0 {
      if i > 0 {
        BitZero(i - 1);
      }
    } else {
      BitOfDouble(Pow2(k - 1), 0, i);
      if i > 0 {
        BitPow2(k - 1, i - 1);
      }
    }
  }

  /** 2^n - 1 has exactly the bits below n set. */
  lemma {:induction false} BitOnes(n: nat, i: nat)
    ensures Bit(Pow2(n) - 1, i) == if i < n then 1 else 0
    decreases n
  {
    if n == 0 {
      BitZero(i);
    } else {
      BitOfDouble(Pow2(n - 1) - 1, 1, i);
      if i > 0 {
        BitOnes(n - 1, i - 1);
      }
    }
  }

  /** Division with remainder has a unique quotient and remainder. */
  lemma DivModUnique(x: int, d: int, q: int, r: int)
    requires d > 0 && 0 <= r < d && x == q * d + r
    ensures x / d == q && x % d == r
  {
    var t := q - x / d;
    assert x == (x / d) * d + x % d;
    assert t * d == x % d - r;
    if t > 0 {
      MulAtLeast(t, d);
    } else if t < 0 {
      MulAtLeast(-t, d);
    }
  }

  /** A positive multiple of d is at least d. */
  lemma MulAtLeast(t: int, d: int)
    requires t >= 1 && d > 0
    ensures t * d >= d
  {
    var k := t - 1;
    assert t * d == k * d + d;
    assert k * d >= 0;
  }

  /** The remainder modulo 2p in terms of the remainder of x/2 modulo p. */
  lemma ModDouble(x: nat, p: nat)
    requires p > 0
    ensures x % (2 * p) == 2 * ((x / 2) % p) + x % 2
  {
    var q := (x / 2) / p;
    var r := (x / 2) % p;
    assert x / 2 == q * p + r;
    assert x == q * (2 * p) + (2 * r + x % 2);
    DivModUnique(x, 2 * p, q, 2 * r + x % 2);
  }

  /** Reducing modulo 2^n keeps the bits below n and clears the rest. */
  lemma {:induction false} BitMod(x: nat, n: nat, i: nat)
    ensures Bit(x % Pow2(n), i) == if i < n then Bit(x, i) else 0
    decreases n
  {
    if n == 0 {
      BitZero(i);
    } else {
      ModDouble(x, Pow2(n - 1));
      BitOfDouble((x / 2) % Pow2(n - 1), x % 2, i);
      if i > 0 {
        BitMod(x / 2, n - 1, i - 1);
      }
    }
  }

  /** A value below 2^n has no bit set at or above n. */
  lemma BitAbove(x: nat, n: nat, i: nat)
    requires x < Pow2(n)
    requires n <= i
    ensures Bit(x, i) == 0
  {
    BitMod(x, n, i);
  }

  /** `x & (2^n - 1)` keeps the low n bits: it is x modulo 2^n. */
  lemma AndOnes(x: nat, n: nat)
    ensures And(x, Pow2(n) - 1) == x % Pow2(n)
  {
    forall i: nat
      ensures Bit(And(x, Pow2(n) - 1), i) == Bit(x % Pow2(n), i)
    {
      BitAnd(x, Pow2(n) - 1, i);
      BitOnes(n, i);
      BitMod(x, n, i);
    }
    BitsEqual(And(x, Pow2(n) - 1), x % Pow2(n));
  }

  /** When a and b share no bit, `a | b` is their sum. */
  lemma {:induction false} OrDisjoint(a: nat, b: nat)
    requires And(a, b) == 0
    ensures Or(a, b) == a + b
    decreases a
  {
    if a != 0 && b != 0 {
      OrDisjoint(a / 2, b / 2);
    }
  }

  /** `x >> k` is the floor of x / 2^k. */
  lemma {:induction false} ShrDiv(x: nat, k: nat)
    ensures Shr(x, k) == x / Pow2(k)
    decreases k
  {
    if k > 0 {
      ShrDiv(x / 2, k - 1);
      DivDouble(x, Pow2(k - 1));
    }
  }

  /** Dividing by 2p is halving and then dividing by p. */
  lemma DivDouble(x: nat, p: nat)
    requires p > 0
    ensures x / (2 * p) == (x / 2) / p
  {
    var q := (x / 2) / p;
    var r := (x / 2) % p;
    assert x == q * (2 * p) + (2 * r + x % 2);
    DivModUnique(x, 2 * p, q, 2 * r + x % 2);
  }

  /** Shifting left and then right by the same amount gives x back. */
  lemma ShrShl(x: nat, k: nat)
    ensures Shr(Shl(x, k), k) == x
  {
    forall i: nat
      ensures Bit(Shr(Shl(x, k), k), i) == Bit(x, i)
    {
      BitShr(Shl(x, k), k, i);
      BitShl(x, k, i + k);
    }
    BitsEqual(Shr(Shl(x, k), k), x);
  }

  /** Shifting right by a + b is shifting by a, then by b. */
  lemma {:induction false} ShrAdd(x: nat, a: nat, b: nat)
    ensures Shr(x, a + b) == Shr(Shr(x, a), b)
    decreases a
  {
    if a > 0 {
      ShrAdd(x / 2, a - 1, b);
    }
  }
}
