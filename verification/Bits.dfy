/**
  Bit operations on non-negative unbounded integers, as Ruby's Integer performs
  them: `^`, `&`, `|`, `<<` and `>>`. Every operation is defined by recursion on
  the binary representation, and `Bit(x, k)` (the k-th binary digit of x) is the
  vocabulary every other module uses to state and prove facts about them:
  two numbers are equal exactly when all their bits agree (`BitsEqual`).
*/
module Bits {

  /** 2^k, i.e. `1 << k`. */
  function Pow2(k: nat): (r: nat)
    ensures r >= 1
  {
    if k == 0 then 1 else 2 * Pow2(k - 1)
  }

  /** Bit k of x, i.e. `(x >> k) & 1 == 1`. */
  predicate Bit(x: nat, k: nat)
  {
    if k == 0 then x % 2 == 1 else Bit(x / 2, k - 1)
  }

  /** `x << s` */
  function Shl(x: nat, s: nat): nat
  {
    if s == 0 then x else 2 * Shl(x, s - 1)
  }

  /** `x >> s` */
  function Shr(x: nat, s: nat): nat
  {
    if s == 0 then x else Shr(x / 2, s - 1)
  }

  /** `a ^ b` */
  function Xor(a: nat, b: nat): nat
    decreases a + b
  {
    if a == 0 then b
    else if b == 0 then a
    else 2 * Xor(a / 2, b / 2) + (if a % 2 == b % 2 then 0 else 1)
  }

  /** `a & b` */
  function And(a: nat, b: nat): nat
    decreases a + b
  {
    if a == 0 || b == 0 then 0
    else 2 * And(a / 2, b / 2) + (if a % 2 == 1 && b % 2 == 1 then 1 else 0)
  }

  /** `a | b` */
  function Or(a: nat, b: nat): nat
    decreases a + b
  {
    if a == 0 then b
    else if b == 0 then a
    else 2 * Or(a / 2, b / 2) + (if a % 2 == 1 || b % 2 == 1 then 1 else 0)
  }

  /** `(1 << k) - 1`: the k low bits set. */
  function LowMask(k: nat): nat
  {
    Pow2(k) - 1
  }

  /** `(1 << n) - (1 << lo)`: bits lo..n-1 set. */
  function HighMask(n: nat, lo: nat): nat
    requires lo <= n
  {
    Pow2Monotone(lo, n);
    Pow2(n) - Pow2(lo)
  }

  /** A vector of `width` zero axes: the origin of the grid. */
  function Zeros(width: nat): (r: seq<nat>)
    ensures |r| == width
    ensures forall i :: 0 <= i < width ==> r[i] == 0
  {
    seq(width, i => 0)
  }

  // ---------------------------------------------------------------------------
  // Basic facts about single bits

  lemma {:induction false} BitZero(k: nat)
    ensures !Bit(0, k)
  {
    if k > 0 {
      BitZero(k - 1);
    }
  }

  /** A number is bit-for-bit determined: equal bits everywhere means equal numbers. */
  lemma {:induction false} BitsEqual(a: nat, b: nat)
    requires forall k: nat :: Bit(a, k) == Bit(b, k)
    ensures a == b
    decreases a + b
  {
    if a == 0 && b == 0 {
    } else {
      assert Bit(a, 0) == Bit(b, 0);
      forall k: nat
        ensures Bit(a / 2, k) == Bit(b / 2, k)
      {
        assert Bit(a, k + 1) == Bit(b, k + 1);
      }
      BitsEqual(a / 2, b / 2);
    }
  }

  lemma {:induction false} BitXor(a: nat, b: nat, k: nat)
    ensures Bit(Xor(a, b), k) == (Bit(a, k) != Bit(b, k))
    decreases a + b
  {
    if a == 0 {
      BitZero(k);
    } else if b == 0 {
      BitZero(k);
    } else if k > 0 {
      BitXor(a / 2, b / 2, k - 1);
    }
  }

  lemma {:induction false} BitAnd(a: nat, b: nat, k: nat)
    ensures Bit(And(a, b), k) == (Bit(a, k) && Bit(b, k))
    decreases a + b
  {
    if a == 0 || b == 0 {
      BitZero(k);
    } else if k > 0 {
      BitAnd(a / 2, b / 2, k - 1);
    }
  }

  lemma {:induction false} BitOr(a: nat, b: nat, k: nat)
    ensures Bit(Or(a, b), k) == (Bit(a, k) || Bit(b, k))
    decreases a + b
  {
    if a == 0 {
      BitZero(k);
    } else if b == 0 {
      BitZero(k);
    } else if k > 0 {
      BitOr(a / 2, b / 2, k - 1);
    }
  }

  lemma {:induction false} BitShl(x: nat, s: nat, k: nat)
    ensures Bit(Shl(x, s), k) == (k >= s && Bit(x, k - s))
  {
    if s > 0 {
      if k > 0 {
        BitShl(x, s - 1, k - 1);
      }
    }
  }

  lemma {:induction false} BitShr(x: nat, s: nat, k: nat)
    ensures Bit(Shr(x, s), k) == Bit(x, k + s)
  {
    if s > 0 {
      BitShr(x / 2, s - 1, k);
    }
  }

  lemma {:induction false} BitPow2(e: nat, k: nat)
    ensures Bit(Pow2(e), k) == (k == e)
  {
    if e == 0 {
      if k > 0 {
        BitZero(k - 1);
      }
    } else if k > 0 {
      BitPow2(e - 1, k - 1);
    }
  }

  lemma {:induction false} BitLowMask(n: nat, k: nat)
    ensures Bit(LowMask(n), k) == (k < n)
  {
    if n == 0 {
      BitZero(k);
    } else {
      assert LowMask(n) == 2 * LowMask(n - 1) + 1;
      if k > 0 {
        BitLowMask(n - 1, k - 1);
      }
    }
  }

  // ---------------------------------------------------------------------------
  // Powers of two and bounds

  lemma {:induction false} Pow2Add(a: nat, b: nat)
    ensures Pow2(a + b) == Pow2(a) * Pow2(b)
  {
    if a > 0 {
      Pow2Add(a - 1, b);
    }
  }

  lemma {:induction false} Pow2Monotone(a: nat, b: nat)
    requires a <= b
    ensures Pow2(a) <= Pow2(b)
  {
    if a < b {
      Pow2Monotone(a, b - 1);
    }
  }

  lemma {:induction false} ShlIsMul(x: nat, s: nat)
    ensures Shl(x, s) == x * Pow2(s)
  {
    if s > 0 {
      ShlIsMul(x, s - 1);
    }
  }

  lemma {:induction false} ShrDecreases(x: nat, s: nat)
    ensures Shr(x, s) <= x
    ensures s > 0 && x > 0 ==> Shr(x, s) < x
  {
    if s > 0 {
      ShrDecreases(x / 2, s - 1);
    }
  }

  /** Below 2^n means no bit at or above n. */
  lemma {:induction false} BoundedNoHighBit(x: nat, n: nat, k: nat)
    requires x < Pow2(n)
    requires k >= n
    ensures !Bit(x, k)
  {
    if n == 0 {
      BitZero(k);
    } else {
      BoundedNoHighBit(x / 2, n - 1, k - 1);
    }
  }

  /** No bit at or above n means below 2^n. */
  lemma {:induction false} NoHighBitBounded(x: nat, n: nat)
    requires forall k: nat :: k >= n ==> !Bit(x, k)
    ensures x < Pow2(n)
  {
    if n == 0 {
      forall k: nat
        ensures Bit(x, k) == Bit(0, k)
      {
        BitZero(k);
      }
      BitsEqual(x, 0);
    } else {
      forall k: nat | k >= n - 1
        ensures !Bit(x / 2, k)
      {
        assert !Bit(x, k + 1);
      }
      NoHighBitBounded(x / 2, n - 1);
    }
  }

  // ---------------------------------------------------------------------------
  // Derived algebra, each proved bit by bit

  lemma XorSelfInverse(a: nat, t: nat)
    ensures Xor(Xor(a, t), t) == a
  {
    forall k: nat
      ensures Bit(Xor(Xor(a, t), t), k) == Bit(a, k)
    {
      BitXor(Xor(a, t), t, k);
      BitXor(a, t, k);
    }
    BitsEqual(Xor(Xor(a, t), t), a);
  }

  lemma XorCancel(a: nat, b: nat, t: nat)
    ensures Xor(Xor(a, t), Xor(b, t)) == Xor(a, b)
  {
    forall k: nat
      ensures Bit(Xor(Xor(a, t), Xor(b, t)), k) == Bit(Xor(a, b), k)
    {
      BitXor(Xor(a, t), Xor(b, t), k);
      BitXor(a, t, k);
      BitXor(b, t, k);
      BitXor(a, b, k);
    }
    BitsEqual(Xor(Xor(a, t), Xor(b, t)), Xor(a, b));
  }

  lemma XorSelf(a: nat)
    ensures Xor(a, a) == 0
  {
    forall k: nat
      ensures Bit(Xor(a, a), k) == Bit(0, k)
    {
      BitXor(a, a, k);
      BitZero(k);
    }
    BitsEqual(Xor(a, a), 0);
  }

  lemma XorZero(a: nat)
    ensures Xor(a, 0) == a && Xor(0, a) == a
  {
  }

  lemma XorBounded(a: nat, b: nat, n: nat)
    requires a < Pow2(n) && b < Pow2(n)
    ensures Xor(a, b) < Pow2(n)
  {
    forall k: nat | k >= n
      ensures !Bit(Xor(a, b), k)
    {
      BitXor(a, b, k);
      BoundedNoHighBit(a, n, k);
      BoundedNoHighBit(b, n, k);
    }
    NoHighBitBounded(Xor(a, b), n);
  }

  lemma AndBounded(a: nat, b: nat, n: nat)
    requires b < Pow2(n)
    ensures And(a, b) < Pow2(n)
  {
    forall k: nat | k >= n
      ensures !Bit(And(a, b), k)
    {
      BitAnd(a, b, k);
      BoundedNoHighBit(b, n, k);
    }
    NoHighBitBounded(And(a, b), n);
  }

  /** Testing `x & (1 << e) != 0` reads bit e. */
  lemma AndPow2(a: nat, e: nat)
    ensures And(a, Pow2(e)) != 0 <==> Bit(a, e)
  {
    if Bit(a, e) {
      BitAnd(a, Pow2(e), e);
      BitPow2(e, e);
      BitZero(e);
    } else {
      forall k: nat
        ensures Bit(And(a, Pow2(e)), k) == Bit(0, k)
      {
        BitAnd(a, Pow2(e), k);
        BitPow2(e, k);
        BitZero(k);
      }
      BitsEqual(And(a, Pow2(e)), 0);
    }
  }

  /** Masking with the low n bits keeps a number already below 2^n. */
  lemma AndLowMaskIdentity(a: nat, n: nat)
    requires a < Pow2(n)
    ensures And(a, LowMask(n)) == a
  {
    forall k: nat
      ensures Bit(And(a, LowMask(n)), k) == Bit(a, k)
    {
      BitAnd(a, LowMask(n), k);
      BitLowMask(n, k);
      if k >= n {
        BoundedNoHighBit(a, n, k);
      }
    }
    BitsEqual(And(a, LowMask(n)), a);
  }

  lemma HighMaskIsShl(n: nat, lo: nat)
    requires lo <= n
    ensures HighMask(n, lo) == Shl(LowMask(n - lo), lo)
  {
    var a, b := Pow2(n - lo), Pow2(lo);
    Pow2Add(n - lo, lo);
    assert n - lo + lo == n;
    MulPredLeft(a, b);
    assert HighMask(n, lo) == (a - 1) * b;
    ShlIsMul(LowMask(n - lo), lo);
  }

  lemma MulPredLeft(a: nat, b: nat)
    requires a >= 1
    ensures (a - 1) * b == a * b - b
  {
  }

  lemma {:induction false} BitHighMask(n: nat, lo: nat, k: nat)
    requires lo <= n
    ensures Bit(HighMask(n, lo), k) == (lo <= k < n)
  {
    HighMaskIsShl(n, lo);
    BitShl(LowMask(n - lo), lo, k);
    if k >= lo {
      BitLowMask(n - lo, k - lo);
    }
  }

  /** ORing a value below 2^s into `a << s` is addition. */
  lemma {:induction false} OrShlDisjoint(a: nat, s: nat, b: nat)
    requires b < Pow2(s)
    ensures Or(Shl(a, s), b) == a * Pow2(s) + b
  {
    ShlIsMul(a, s);
    if s == 0 {
    } else if b == 0 {
    } else if Shl(a, s) == 0 {
    } else {
      var y := Shl(a, s - 1);
      assert Shl(a, s) == 2 * y;
      assert Or(2 * y, b) == 2 * Or(y, b / 2) + b % 2;
      OrShlDisjoint(a, s - 1, b / 2);
      ShlIsMul(a, s - 1);
    }
  }
}
