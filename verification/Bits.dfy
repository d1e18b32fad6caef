/**
 Unsigned machine words modelled as natural numbers and read bit by bit.  A word of
 width w is a number below Pow2(w); the C operators |, &, ~, << and a narrowing cast
 are the functions Or, And, Not, Shl and Truncate.
 */
module Bits {

  type byte = x: int | 0 <= x < 256

  function Pow2(k: nat): (r: nat)
    ensures r > 0
  {
    if k == 0 then 1 else 2 * Pow2(k - 1)
  }

  function Pow256(width: nat): (r: nat)
    ensures r > 0
  {
    if width == 0 then 1 else 256 * Pow256(width - 1)
  }

  /** Bit k of n, bit 0 being the least significant one. */
  predicate Bit(n: nat, k: nat)
    decreases k
  {
    if k == 0 then n % 2 == 1 else Bit(n / 2, k - 1)
  }

  function Or(a: nat, b: nat): nat
    decreases a + b
  {
    if a == 0 && b == 0 then 0
    else (if a % 2 == 1 || b % 2 == 1 then 1 else 0) + 2 * Or(a / 2, b / 2)
  }

  function And(a: nat, b: nat): nat
    decreases a + b
  {
    if a == 0 && b == 0 then 0
    else (if a % 2 == 1 && b % 2 == 1 then 1 else 0) + 2 * And(a / 2, b / 2)
  }

  function Shl(n: nat, k: nat): nat
    decreases k
  {
    if k == 0 then n else 2 * Shl(n, k - 1)
  }

  /** The low w bits of n: a cast to an unsigned type of width w. */
  function Truncate(n: nat, w: nat): nat {
    n % Pow2(w)
  }

  /** The complement of the word n of width w. */
  function Not(n: nat, w: nat): nat
    requires n < Pow2(w)
  {
    Pow2(w) - 1 - n
  }

  lemma {:induction false} BitOfZero(k: nat)
    ensures !Bit(0, k)
    decreases k
  {
    if k > 0 {
      BitOfZero(k - 1);
    }
  }

  lemma {:induction false} BitOr(a: nat, b: nat, k: nat)
    ensures Bit(Or(a, b), k) <==> Bit(a, k) || Bit(b, k)
    decreases k
  {
    if a == 0 && b == 0 {
      BitOfZero(k);
    } else {
      assert Or(a, b) / 2 == Or(a / 2, b / 2);
      if k > 0 {
        BitOr(a / 2, b / 2, k - 1);
      }
    }
  }

  lemma {:induction false} BitAnd(a: nat, b: nat, k: nat)
    ensures Bit(And(a, b), k) <==> Bit(a, k) && Bit(b, k)
    decreases k
  {
    if a == 0 && b == 0 {
      BitOfZero(k);
    } else {
      assert And(a, b) / 2 == And(a / 2, b / 2);
      if k > 0 {
        BitAnd(a / 2, b / 2, k - 1);
      }
    }
  }

  lemma {:induction false} BitShl(n: nat, s: nat, k: nat)
    ensures Bit(Shl(n, s), k) <==> s <= k && Bit(n, k - s)
    decreases s
  {
    if s > 0 {
      assert Shl(n, s) / 2 == Shl(n, s - 1);
      if k > 0 {
        BitShl(n, s - 1, k - 1);
      }
    }
  }

  lemma MultipleIsFar(m: int, d: int)
    requires m >= 0
    ensures d >= 1 ==> m * d >= m
    ensures d <= -1 ==> m * d <= -m
  {
    assert m * d == m * (d - 1) + m == m * (d + 1) - m;
    assert d >= 1 ==> m * (d - 1) >= 0;
    assert d <= -1 ==> m * (d + 1) <= 0;
  }

  lemma ModUnique(n: int, m: int, q: int, r: int)
    requires 0 <= r < m && n == m * q + r
    ensures n % m == r && n / m == q
  {
    assert n == m * (n / m) + n % m;
    assert m * (n / m - q) == r - n % m;
    MultipleIsFar(m, n / m - q);
  }

  /** Reduction modulo 2 * p, one bit at a time. */
  lemma ModDouble(n: nat, p: nat)
    requires p > 0
    ensures n % (2 * p) == n % 2 + 2 * ((n / 2) % p)
  {
    var q, r := (n / 2) / p, (n / 2) % p;
    assert n / 2 == p * q + r;
    assert n == (2 * p) * q + (n % 2 + 2 * r) by {
      assert (2 * p) * q == 2 * (p * q);
    }
    ModUnique(n, 2 * p, q, n % 2 + 2 * r);
  }

  lemma TruncateSmall(n: nat, w: nat)
    requires n < Pow2(w)
    ensures Truncate(n, w) == n
  {
    ModUnique(n, Pow2(w), 0, n);
  }

  lemma {:induction false} BitTruncate(n: nat, w: nat, k: nat)
    ensures Bit(Truncate(n, w), k) <==> k < w && Bit(n, k)
    decreases w
  {
    if w == 0 {
      BitOfZero(k);
    } else {
      ModDouble(n, Pow2(w - 1));
      assert Truncate(n, w) / 2 == Truncate(n / 2, w - 1);
      if k > 0 {
        BitTruncate(n / 2, w - 1, k - 1);
      }
    }
  }

  lemma {:induction false} BitNot(n: nat, w: nat, k: nat)
    requires n < Pow2(w)
    ensures Bit(Not(n, w), k) <==> k < w && !Bit(n, k)
    decreases w
  {
    if w == 0 {
      BitOfZero(k);
    } else {
      assert Not(n, w) / 2 == Not(n / 2, w - 1);
      if k > 0 {
        BitNot(n / 2, w - 1, k - 1);
      }
    }
  }

  lemma {:induction false} OrBound(a: nat, b: nat, w: nat)
    requires a < Pow2(w) && b < Pow2(w)
    ensures Or(a, b) < Pow2(w)
    decreases w
  {
    if w > 0 && (a != 0 || b != 0) {
      OrBound(a / 2, b / 2, w - 1);
    }
  }

  /** Two words of width w with the same bits are the same word. */
  lemma {:induction false} SameBits(a: nat, b: nat, w: nat)
    requires a < Pow2(w) && b < Pow2(w)
    requires forall k: nat | k < w :: Bit(a, k) == Bit(b, k)
    ensures a == b
    decreases w
  {
    if w > 0 {
      assert Bit(a, 0) == Bit(b, 0);
      forall k: nat | k < w - 1
        ensures Bit(a / 2, k) == Bit(b / 2, k)
      {
        assert Bit(a, k + 1) == Bit(b, k + 1);
      }
      SameBits(a / 2, b / 2, w - 1);
    }
  }

  /** The bits of (1 << w) - 1. */
  lemma {:induction false} BitOfMask(w: nat, k: nat)
    ensures Bit(Pow2(w) - 1, k) <==> k < w
    decreases w
  {
    if w == 0 {
      BitOfZero(k);
    } else {
      assert (Pow2(w) - 1) / 2 == Pow2(w - 1) - 1;
      if k > 0 {
        BitOfMask(w - 1, k - 1);
      }
    }
  }

  lemma {:induction false} BitOfPow2(w: nat, k: nat)
    ensures Bit(Shl(1, w), k) <==> k == w
    decreases w
  {
    BitShl(1, w, k);
    if k > w {
      BitOfZero(k - w - 1);
    }
  }

  lemma {:induction false} ShlIsProduct(n: nat, k: nat)
    ensures Shl(n, k) == n * Pow2(k)
    decreases k
  {
    if k > 0 {
      ShlIsProduct(n, k - 1);
      assert n * Pow2(k) == 2 * (n * Pow2(k - 1));
    }
  }

  /** Or-ing in bits above everything already set is addition. */
  lemma {:induction false} OrDisjoint(a: nat, b: nat, k: nat)
    requires a < Pow2(k)
    ensures Or(a, Shl(b, k)) == a + Shl(b, k)
    decreases k
  {
    if k == 0 {
      OrZero(b);
    } else if a != 0 || Shl(b, k) != 0 {
      assert Shl(b, k) / 2 == Shl(b, k - 1) && Shl(b, k) % 2 == 0;
      OrDisjoint(a / 2, b, k - 1);
    }
  }

  lemma {:induction false} OrCommutes(a: nat, b: nat)
    ensures Or(a, b) == Or(b, a)
    decreases a + b
  {
    if a != 0 || b != 0 {
      OrCommutes(a / 2, b / 2);
    }
  }

  lemma {:induction false} OrZero(b: nat)
    ensures Or(0, b) == b
    decreases b
  {
    if b > 0 {
      OrZero(b / 2);
    }
  }

  lemma {:induction false} Pow2Sum(a: nat, b: nat)
    ensures Pow2(a + b) == Pow2(a) * Pow2(b)
    decreases a
  {
    if a > 0 {
      Pow2Sum(a - 1, b);
      assert Pow2(a) * Pow2(b) == 2 * (Pow2(a - 1) * Pow2(b));
    }
  }

  lemma {:induction false} Pow2Monotone(a: nat, b: nat)
    requires a <= b
    ensures Pow2(a) <= Pow2(b)
    decreases b
  {
    if a < b {
      Pow2Monotone(a, b - 1);
    }
  }

  /** Powers of two used as word sizes. */
  lemma WordSizes()
    ensures Pow2(7) == 128 && Pow2(8) == 256
    ensures Pow2(28) == 0x1000_0000 && Pow2(31) == 0x8000_0000 && Pow2(32) == 0x1_0000_0000
    ensures Pow2(63) == 0x8000_0000_0000_0000 && Pow2(64) == 0x1_0000_0000_0000_0000
    ensures Pow2(70) == 0x40_0000_0000_0000_0000
  {
    assert Pow2(7) == 128 && Pow2(8) == 256;
    assert Pow2(14) == 0x4000 by {
      Pow2Sum(7, 7);
    }
    assert Pow2(28) == 0x1000_0000 by {
      Pow2Sum(14, 14);
    }
    assert Pow2(56) == 0x100_0000_0000_0000 by {
      Pow2Sum(28, 28);
    }
    assert Pow2(3) == 8;
    Pow2Sum(3, 28);
    Pow2Sum(7, 56);
    Pow2Sum(14, 56);
  }

  lemma Distributes(a: nat, b: nat, s: nat, t: nat)
    ensures a * (b * s + t) == a * b * s + a * t
  {
  }

  lemma {:induction false} BelowProduct(a: nat, b: nat, t: nat, r: nat)
    requires t < b && r < a
    ensures 0 <= a * t + r < a * b
    decreases b
  {
    if t + 1 == b {
      OneMore(a, t);
    } else {
      BelowProduct(a, b - 1, t, r);
      OneMore(a, b - 1);
    }
  }

  lemma OneMore(a: nat, b: nat)
    ensures a * (b + 1) == a * b + a
  {
  }

  lemma Parts(v: nat, a: nat, q: nat, r: nat, b: nat, s: nat, t: nat)
    requires v == a * q + r && r < a && q == b * s + t && t < b
    ensures v == a * b * s + (a * t + r) && 0 <= a * t + r < a * b
  {
    Distributes(a, b, s, t);
    BelowProduct(a, b, t, r);
  }

  lemma Division(v: nat, a: nat) returns (q: nat, r: nat)
    requires a > 0
    ensures q == v / a && v == a * q + r && r < a
  {
    q, r := v / a, v % a;
  }

  /** Dividing twice is dividing by the product. */
  lemma DivideTwice(v: nat, a: nat, b: nat)
    requires a > 0 && b > 0
    ensures a * b > 0 && v / a / b == v / (a * b)
  {
    var q, r := Division(v, a);
    var s, t := Division(q, b);
    Parts(v, a, q, r, b, s, t);
    Quotient(v, a * b, s, a * t + r);
  }

  lemma Quotient(v: nat, m: nat, s: nat, rest: nat)
    requires m > 0 && v == m * s + rest && rest < m
    ensures v / m == s
  {
    ModUnique(v, m, s, rest);
  }
}
