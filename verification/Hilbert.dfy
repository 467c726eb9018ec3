/**
  Skilling's transposed Hilbert transform ("Programming the Hilbert curve").
  `Map` turns n ordinal axis coordinates into the transposed Hilbert index (one
  integer per axis, each holding every n-th bit of the Hilbert distance); `Unmap`
  is its inverse. Each loop of the source is one recursive function here.

  The inverse proof is structural: every exchange step is an involution, the
  loops of `Unmap` replay the steps of `Map` in exactly the reverse order, and the
  Gray decode undoes the Gray encode bit by bit.
*/
module Hilbert {
  import opened Bits

  /** Every axis fits in `bits` bits. */
  predicate Bounded(x: seq<nat>, bits: nat)
  {
    forall i :: 0 <= i < |x| ==> x[i] < Pow2(bits)
  }

  /** The exponent of the top plane `1 << (bits - 1)`; with bits <= 1 the plane loops do nothing. */
  function TopPlane(bits: nat): nat
  {
    if bits == 0 then 0 else bits - 1
  }

  // ---------------------------------------------------------------------------
  // The exchange loops

  /**
    One iteration of the exchange loops for plane q = 2^e and axis i: if bit e of
    axis i is set, invert the low bits of axis 0; otherwise swap the low bits of
    axes 0 and i.
  */
  function Exchange(x: seq<nat>, e: nat, i: nat): (r: seq<nat>)
    requires i < |x|
    ensures |r| == |x|
  {
    var q := Pow2(e);
    var p := q - 1;
    if And(x[i], q) != 0 then x[0 := Xor(x[0], p)]
    else
      var t := And(Xor(x[0], x[i]), p);
      var y := x[0 := Xor(x[0], t)];
      y[i := Xor(y[i], t)]
  }

  /** `map`'s inner loop: axes i, i+1, ..., n-1. */
  function ExchangeUp(x: seq<nat>, e: nat, i: nat): (r: seq<nat>)
    requires i <= |x|
    ensures |r| == |x|
    decreases |x| - i
  {
    if i == |x| then x else ExchangeUp(Exchange(x, e, i), e, i + 1)
  }

  /** `unmap`'s inner loop: axes i, i-1, ..., 0. */
  function ExchangeDown(x: seq<nat>, e: nat, i: int): (r: seq<nat>)
    requires -1 <= i < |x|
    ensures |r| == |x|
    decreases i + 1
  {
    if i < 0 then x else ExchangeDown(Exchange(x, e, i), e, i - 1)
  }

  /** `map`'s "inverse undo": planes q = 2^e, 2^(e-1), ..., 2. */
  function InverseUndo(x: seq<nat>, e: nat): (r: seq<nat>)
    ensures |r| == |x|
    decreases e
  {
    if e == 0 then x else InverseUndo(ExchangeUp(x, e, 0), e - 1)
  }

  /** `unmap`'s "undo excess work": planes q = 2^e, 2^(e+1), ... while q != 2^bits. */
  function UndoExcess(x: seq<nat>, e: nat, bits: nat): (r: seq<nat>)
    requires 1 <= e <= bits
    ensures |r| == |x|
    decreases bits - e
  {
    if e == bits then x else UndoExcess(ExchangeDown(x, e, |x| - 1), e + 1, bits)
  }

  // ---------------------------------------------------------------------------
  // Gray encode and decode

  /** `1.upto(n-1) { |i| x[i] ^= x[i-1] }`, continuing from axis i. */
  function PrefixXor(x: seq<nat>, i: nat): (r: seq<nat>)
    requires i >= 1
    ensures |r| == |x|
    decreases |x| - i
  {
    if i >= |x| then x else PrefixXor(x[i := Xor(x[i], x[i - 1])], i + 1)
  }

  /** The `t` loop of `map`: for planes q = 2^e down to 2, `t ^= q - 1` when `v & q != 0`. */
  function GrayMask(v: nat, e: nat, t: nat): nat
    decreases e
  {
    if e == 0 then t
    else GrayMask(v, e - 1, if And(v, Pow2(e)) != 0 then Xor(t, Pow2(e) - 1) else t)
  }

  /** `0.upto(n-1) { |i| x[i] ^= t }` */
  function XorAll(x: seq<nat>, t: nat): (r: seq<nat>)
    ensures |r| == |x|
    ensures forall i :: 0 <= i < |x| ==> r[i] == Xor(x[i], t)
  {
    seq(|x|, i requires 0 <= i < |x| => Xor(x[i], t))
  }

  /** The Gray encode half of `map`. */
  function GrayEncode(x: seq<nat>, bits: nat): (r: seq<nat>)
    ensures |r| == |x|
  {
    var y := PrefixXor(x, 1);
    var t := if |y| == 0 then 0 else GrayMask(y[|y| - 1], TopPlane(bits), 0);
    XorAll(y, t)
  }

  /** `(n-1).downto(1) { |i| x[i] ^= x[i-1] }`, continuing from axis i. */
  function XorDown(x: seq<nat>, i: nat): (r: seq<nat>)
    requires i < |x|
    ensures |r| == |x|
    decreases i
  {
    if i == 0 then x else XorDown(x[i := Xor(x[i], x[i - 1])], i - 1)
  }

  /** The Gray decode half of `unmap`: `t = x[n-1] >> 1`, the downto loop, then `x[0] ^= t`. */
  function GrayDecode(x: seq<nat>): (r: seq<nat>)
    requires |x| > 0
    ensures |r| == |x|
  {
    var t := Shr(x[|x| - 1], 1);
    var y := XorDown(x, |x| - 1);
    y[0 := Xor(y[0], t)]
  }

  // ---------------------------------------------------------------------------
  // The transform

  /**
    `Hilbert.map(axes, bits)`: ordinal axes to transposed Hilbert index. On an
    empty vector the source's `t` loop reads `x[-1]`, which is nil, and `nil & q`
    is false rather than an error, so the empty vector maps to itself.
  */
  function Map(axes: seq<nat>, bits: nat): (r: seq<nat>)
    ensures |r| == |axes|
  {
    GrayEncode(InverseUndo(axes, TopPlane(bits)), bits)
  }

  /**
    `Hilbert.unmap(transposed, bits)`: transposed Hilbert index to ordinal axes.
    The source reads `x[n-1]` unconditionally, and with bits == 0 its loop
    `while q != m` never ends.
  */
  function Unmap(transposed: seq<nat>, bits: nat): (r: seq<nat>)
    requires |transposed| > 0
    requires bits >= 1
    ensures |r| == |transposed|
  {
    UndoExcess(GrayDecode(transposed), 1, bits)
  }

  // ---------------------------------------------------------------------------
  // Exchange steps are involutions, and unmap replays map backwards

  /** XOR with a value below 2^e leaves bit e alone. */
  lemma XorKeepsBit(a: nat, t: nat, e: nat)
    requires t < Pow2(e)
    ensures Bit(Xor(a, t), e) == Bit(a, e)
  {
    BitXor(a, t, e);
    BoundedNoHighBit(t, e, e);
  }

  lemma ExchangeInvolution(x: seq<nat>, e: nat, i: nat)
    requires i < |x|
    ensures Exchange(Exchange(x, e, i), e, i) == x
  {
    AndPow2(x[i], e);
    if Bit(x[i], e) {
      ExchangeFlipTwice(x, e, i);
    } else if i == 0 {
      ExchangeFirstAxis(x, e);
    } else {
      ExchangeSwapTwice(x, e, i);
    }
  }

  /** With bit e of axis i set, the step flips the low e bits of axis 0, and flipping twice restores them. */
  lemma ExchangeFlipTwice(x: seq<nat>, e: nat, i: nat)
    requires i < |x| && Bit(x[i], e)
    ensures Exchange(Exchange(x, e, i), e, i) == x
  {
    var p := Pow2(e) - 1;
    var y := Exchange(x, e, i);
    AndPow2(x[i], e);
    AndPow2(y[i], e);
    XorKeepsBit(x[0], p, e);
    assert Bit(y[i], e);
    XorSelfInverse(x[0], p);
  }

  /** Exchanging axis 0 with itself changes nothing. */
  lemma ExchangeFirstAxis(x: seq<nat>, e: nat)
    requires 0 < |x| && !Bit(x[0], e)
    ensures Exchange(x, e, 0) == x
  {
    AndPow2(x[0], e);
    XorSelf(x[0]);
    XorZero(x[0]);
  }

  /** With bit e of axis i clear, the step swaps the low bits of axes 0 and i, and swapping twice restores them. */
  lemma ExchangeSwapTwice(x: seq<nat>, e: nat, i: nat)
    requires 0 < i < |x| && !Bit(x[i], e)
    ensures Exchange(Exchange(x, e, i), e, i) == x
  {
    var p := Pow2(e) - 1;
    var y := Exchange(x, e, i);
    var t := And(Xor(x[0], x[i]), p);
    AndPow2(x[i], e);
    AndBounded(Xor(x[0], x[i]), p, e);
    assert y[0] == Xor(x[0], t) && y[i] == Xor(x[i], t);
    XorKeepsBit(x[i], t, e);
    assert !Bit(y[i], e);
    AndPow2(y[i], e);
    XorCancel(x[0], x[i], t);
    assert And(Xor(y[0], y[i]), p) == t;
    XorSelfInverse(x[0], t);
    XorSelfInverse(x[i], t);
  }

  lemma {:induction false} ExchangeDownUndoesUp(x: seq<nat>, e: nat, i: nat)
    requires i <= |x|
    ensures ExchangeDown(ExchangeUp(x, e, i), e, |x| - 1) == ExchangeDown(x, e, i - 1)
    decreases |x| - i
  {
    if i < |x| {
      var y := Exchange(x, e, i);
      ExchangeDownUndoesUp(y, e, i + 1);
      ExchangeInvolution(x, e, i);
    }
  }

  lemma {:induction false} ExchangeUpUndoesDown(x: seq<nat>, e: nat, i: int)
    requires -1 <= i < |x|
    ensures ExchangeUp(ExchangeDown(x, e, i), e, 0) == ExchangeUp(x, e, i + 1)
    decreases i + 1
  {
    if i >= 0 {
      var y := Exchange(x, e, i);
      ExchangeUpUndoesDown(y, e, i - 1);
      ExchangeInvolution(x, e, i);
    }
  }

  lemma {:induction false} UndoExcessAfterInverseUndo(x: seq<nat>, e: nat, bits: nat)
    requires e + 1 <= bits
    ensures UndoExcess(InverseUndo(x, e), 1, bits) == UndoExcess(x, e + 1, bits)
    decreases e
  {
    if e > 0 {
      var y := ExchangeUp(x, e, 0);
      UndoExcessAfterInverseUndo(y, e - 1, bits);
      ExchangeDownUndoesUp(x, e, 0);
    }
  }

  lemma {:induction false} InverseUndoAfterUndoExcess(x: seq<nat>, e: nat, bits: nat)
    requires 1 <= e <= bits
    ensures InverseUndo(UndoExcess(x, e, bits), bits - 1) == InverseUndo(x, e - 1)
    decreases bits - e
  {
    if e < bits {
      var z := ExchangeDown(x, e, |x| - 1);
      InverseUndoAfterUndoExcess(z, e + 1, bits);
      ExchangeUpUndoesDown(x, e, |x| - 1);
    }
  }

  // ---------------------------------------------------------------------------
  // Bounds: all XOR masks stay below 2^bits

  lemma ExchangeBounded(x: seq<nat>, e: nat, i: nat, bits: nat)
    requires i < |x|
    requires e < bits
    requires Bounded(x, bits)
    ensures Bounded(Exchange(x, e, i), bits)
  {
    var p := Pow2(e) - 1;
    Pow2Monotone(e, bits);
    if And(x[i], Pow2(e)) != 0 {
      XorBounded(x[0], p, bits);
    } else {
      var t := And(Xor(x[0], x[i]), p);
      AndBounded(Xor(x[0], x[i]), p, bits);
      XorBounded(x[0], t, bits);
      var y := x[0 := Xor(x[0], t)];
      assert Bounded(y, bits);
      XorBounded(y[i], t, bits);
    }
  }

  lemma {:induction false} ExchangeUpBounded(x: seq<nat>, e: nat, i: nat, bits: nat)
    requires i <= |x|
    requires e < bits
    requires Bounded(x, bits)
    ensures Bounded(ExchangeUp(x, e, i), bits)
    decreases |x| - i
  {
    if i < |x| {
      ExchangeBounded(x, e, i, bits);
      ExchangeUpBounded(Exchange(x, e, i), e, i + 1, bits);
    }
  }

  lemma {:induction false} ExchangeDownBounded(x: seq<nat>, e: nat, i: int, bits: nat)
    requires -1 <= i < |x|
    requires e < bits
    requires Bounded(x, bits)
    ensures Bounded(ExchangeDown(x, e, i), bits)
    decreases i + 1
  {
    if i >= 0 {
      ExchangeBounded(x, e, i, bits);
      ExchangeDownBounded(Exchange(x, e, i), e, i - 1, bits);
    }
  }

  lemma {:induction false} InverseUndoBounded(x: seq<nat>, e: nat, bits: nat)
    requires e < bits || e == 0
    requires Bounded(x, bits)
    ensures Bounded(InverseUndo(x, e), bits)
    decreases e
  {
    if e > 0 {
      ExchangeUpBounded(x, e, 0, bits);
      InverseUndoBounded(ExchangeUp(x, e, 0), e - 1, bits);
    }
  }

  lemma {:induction false} UndoExcessBounded(x: seq<nat>, e: nat, bits: nat)
    requires 1 <= e <= bits
    requires Bounded(x, bits)
    ensures Bounded(UndoExcess(x, e, bits), bits)
    decreases bits - e
  {
    if e < bits {
      ExchangeDownBounded(x, e, |x| - 1, bits);
      UndoExcessBounded(ExchangeDown(x, e, |x| - 1), e + 1, bits);
    }
  }

  // ---------------------------------------------------------------------------
  // Gray code facts

  /** XOR of bits lo..hi of v (false when the range is empty). */
  ghost predicate Parity(v: nat, lo: nat, hi: nat)
    decreases hi
  {
    if hi < lo then false
    else if hi == lo then Bit(v, lo)
    else Parity(v, lo, hi - 1) != Bit(v, hi)
  }

  lemma {:induction false} ParityPeel(v: nat, lo: nat, hi: nat)
    requires lo <= hi
    ensures Parity(v, lo, hi) == (Bit(v, lo) != Parity(v, lo + 1, hi))
    decreases hi
  {
    if hi > lo + 1 {
      ParityPeel(v, lo, hi - 1);
    }
  }

  /** Bit k of the `t` mask is the parity of the bits of v above k, up to plane e. */
  lemma {:induction false} GrayMaskBits(v: nat, e: nat, t: nat, k: nat)
    ensures Bit(GrayMask(v, e, t), k) == (Bit(t, k) != Parity(v, k + 1, e))
    decreases e
  {
    if e > 0 {
      var t' := if And(v, Pow2(e)) != 0 then Xor(t, Pow2(e) - 1) else t;
      GrayMaskBits(v, e - 1, t', k);
      AndPow2(v, e);
      BitXor(t, Pow2(e) - 1, k);
      BitLowMask(e, k);
      assert Bit(t', k) == (Bit(t, k) != (Bit(v, e) && k < e));
    }
  }

  /** The parity of the bits of h ^ (h >> 1) telescopes. */
  lemma {:induction false} ParityOfGray(h: nat, lo: nat, hi: nat)
    requires lo <= hi + 1
    ensures Parity(Xor(h, Shr(h, 1)), lo, hi) == (Bit(h, lo) != Bit(h, hi + 1))
    decreases hi
  {
    var g := Xor(h, Shr(h, 1));
    BitXor(h, Shr(h, 1), hi);
    BitShr(h, 1, hi);
    if hi > lo {
      ParityOfGray(h, lo, hi - 1);
    }
  }

  /** `(v ^ t) >> 1 == t` for the mask t computed from v: the Gray decode shift recovers t. */
  lemma GrayMaskShift(v: nat, bits: nat)
    requires bits >= 1
    requires v < Pow2(bits)
    ensures Shr(Xor(v, GrayMask(v, bits - 1, 0)), 1) == GrayMask(v, bits - 1, 0)
  {
    var t := GrayMask(v, bits - 1, 0);
    forall k: nat
      ensures Bit(Shr(Xor(v, t), 1), k) == Bit(t, k)
    {
      GrayMaskShiftBit(v, bits, k);
    }
    BitsEqual(Shr(Xor(v, t), 1), t);
  }

  lemma GrayMaskShiftBit(v: nat, bits: nat, k: nat)
    requires bits >= 1
    requires v < Pow2(bits)
    ensures Bit(Shr(Xor(v, GrayMask(v, bits - 1, 0)), 1), k) == Bit(GrayMask(v, bits - 1, 0), k)
  {
    var t := GrayMask(v, bits - 1, 0);
    BitShr(Xor(v, t), 1, k);
    BitXor(v, t, k + 1);
    GrayMaskBits(v, bits - 1, 0, k + 1);
    GrayMaskBits(v, bits - 1, 0, k);
    BitZero(k);
    BitZero(k + 1);
    if k + 1 <= bits - 1 {
      ParityPeel(v, k + 1, bits - 1);
    } else {
      BoundedNoHighBit(v, bits, k + 1);
    }
  }

  /** The mask computed from h ^ (h >> 1) is h >> 1 itself. */
  lemma GrayMaskOfGray(h: nat, bits: nat)
    requires bits >= 1
    requires h < Pow2(bits)
    ensures GrayMask(Xor(h, Shr(h, 1)), bits - 1, 0) == Shr(h, 1)
  {
    var s := Shr(h, 1);
    var t := GrayMask(Xor(h, s), bits - 1, 0);
    forall k: nat
      ensures Bit(t, k) == Bit(s, k)
    {
      GrayMaskOfGrayBit(h, bits, k);
    }
    BitsEqual(t, s);
  }

  lemma GrayMaskOfGrayBit(h: nat, bits: nat, k: nat)
    requires bits >= 1
    requires h < Pow2(bits)
    ensures Bit(GrayMask(Xor(h, Shr(h, 1)), bits - 1, 0), k) == Bit(Shr(h, 1), k)
  {
    var g := Xor(h, Shr(h, 1));
    var par := Parity(g, k + 1, bits - 1);
    GrayMaskBits(g, bits - 1, 0, k);
    BitZero(k);
    assert Bit(GrayMask(g, bits - 1, 0), k) == par;
    BitShr(h, 1, k);
    assert Bit(Shr(h, 1), k) == Bit(h, k + 1);
    if k + 1 <= bits {
      GrayParityBelowTop(h, bits, k + 1);
    } else {
      assert !par;
      BoundedNoHighBit(h, bits, k + 1);
    }
  }

  /** For h below 2^bits, the parity of Gray bits lo..bits-1 is bit lo of h, since bit `bits` of h is clear. */
  lemma GrayParityBelowTop(h: nat, bits: nat, lo: nat)
    requires bits >= 1 && lo <= bits
    requires h < Pow2(bits)
    ensures Parity(Xor(h, Shr(h, 1)), lo, bits - 1) == Bit(h, lo)
  {
    ParityOfGray(h, lo, bits - 1);
    BoundedNoHighBit(h, bits, bits);
  }

  /** After the prefix loop, each axis is its input XOR the previous output. */
  lemma {:induction false} PrefixXorSpec(x0: seq<nat>, x: seq<nat>, j: nat)
    requires |x| == |x0| > 0
    requires 1 <= j <= |x|
    requires x[0] == x0[0]
    requires forall i :: 1 <= i < j ==> x[i] == Xor(x0[i], x[i - 1])
    requires forall i :: j <= i < |x| ==> x[i] == x0[i]
    ensures PrefixXor(x, j)[0] == x0[0]
    ensures forall i :: 1 <= i < |x| ==> PrefixXor(x, j)[i] == Xor(x0[i], PrefixXor(x, j)[i - 1])
    decreases |x| - j
  {
    if j < |x| {
      PrefixXorSpec(x0, x[j := Xor(x[j], x[j - 1])], j + 1);
    }
  }

  /** After the downto loop, each axis but the first is XOR-ed with its original predecessor. */
  lemma {:induction false} XorDownSpec(x0: seq<nat>, x: seq<nat>, j: nat)
    requires |x| == |x0|
    requires j < |x|
    requires forall i :: 0 <= i <= j ==> x[i] == x0[i]
    requires forall i :: j < i < |x| ==> x[i] == Xor(x0[i], x0[i - 1])
    ensures XorDown(x, j)[0] == x0[0]
    ensures forall i :: 1 <= i < |x| ==> XorDown(x, j)[i] == Xor(x0[i], x0[i - 1])
    decreases j
  {
    if j > 0 {
      XorDownSpec(x0, x[j := Xor(x[j], x[j - 1])], j - 1);
    }
  }

  lemma PrefixXorBounded(x: seq<nat>, bits: nat)
    requires |x| > 0
    requires Bounded(x, bits)
    ensures Bounded(PrefixXor(x, 1), bits)
  {
    var y := PrefixXor(x, 1);
    PrefixXorSpec(x, x, 1);
    forall i | 0 <= i < |y|
      ensures y[i] < Pow2(bits)
    {
      PrefixXorBoundedAt(x, y, i, bits);
    }
  }

  lemma {:induction false} PrefixXorBoundedAt(x: seq<nat>, y: seq<nat>, i: nat, bits: nat)
    requires |x| == |y| > 0
    requires i < |y|
    requires Bounded(x, bits)
    requires y[0] == x[0]
    requires forall j :: 1 <= j < |y| ==> y[j] == Xor(x[j], y[j - 1])
    ensures y[i] < Pow2(bits)
  {
    if i > 0 {
      PrefixXorBoundedAt(x, y, i - 1, bits);
      XorBounded(x[i], y[i - 1], bits);
    }
  }

  lemma {:induction false} GrayMaskBounded(v: nat, e: nat, t: nat, bits: nat)
    requires e < bits
    requires t < Pow2(bits)
    ensures GrayMask(v, e, t) < Pow2(bits)
    decreases e
  {
    if e > 0 {
      Pow2Monotone(e, bits);
      XorBounded(t, Pow2(e) - 1, bits);
      GrayMaskBounded(v, e - 1, if And(v, Pow2(e)) != 0 then Xor(t, Pow2(e) - 1) else t, bits);
    }
  }

  /** Gray decode undoes Gray encode on vectors that fit in `bits` bits. */
  lemma GrayDecodeEncode(y: seq<nat>, bits: nat)
    requires |y| > 0
    requires bits >= 1
    requires Bounded(y, bits)
    ensures GrayDecode(GrayEncode(y, bits)) == y
  {
    var n := |y|;
    var p := PrefixXor(y, 1);
    PrefixXorSpec(y, y, 1);
    PrefixXorBounded(y, bits);
    var t := GrayMask(p[n - 1], bits - 1, 0);
    var g := GrayEncode(y, bits);
    assert g == XorAll(p, t);
    var d := XorDown(g, n - 1);
    XorDownSpec(g, g, n - 1);
    var r := GrayDecode(g);
    assert r == d[0 := Xor(d[0], Shr(g[n - 1], 1))];
    forall i | 0 <= i < n
      ensures r[i] == y[i]
    {
      if i == 0 {
        GrayMaskShift(p[n - 1], bits);
        XorSelfInverse(p[0], t);
      } else {
        XorCancel(p[i], p[i - 1], t);
        assert r[i] == Xor(p[i], p[i - 1]);
        XorSelfInverse(y[i], p[i - 1]);
      }
    }
  }

  /** Gray encode undoes Gray decode on vectors that fit in `bits` bits. */
  lemma GrayEncodeDecode(h: seq<nat>, bits: nat)
    requires |h| > 0
    requires bits >= 1
    requires Bounded(h, bits)
    ensures GrayEncode(GrayDecode(h), bits) == h
  {
    var n := |h|;
    var s := Shr(h[n - 1], 1);
    var z := GrayDecode(h);
    XorDownSpec(h, h, n - 1);
    var p := PrefixXor(z, 1);
    PrefixXorSpec(z, z, 1);
    forall i | 0 <= i < n
      ensures p[i] == Xor(h[i], s)
    {
      PrefixOfDecoded(h, z, p, s, i);
    }
    GrayMaskOfGray(h[n - 1], bits);
    assert GrayMask(p[n - 1], bits - 1, 0) == s;
    forall i | 0 <= i < n
      ensures GrayEncode(z, bits)[i] == h[i]
    {
      XorSelfInverse(h[i], s);
    }
  }

  lemma {:induction false} PrefixOfDecoded(h: seq<nat>, z: seq<nat>, p: seq<nat>, s: nat, i: nat)
    requires |h| == |z| == |p|
    requires i < |p|
    requires z[0] == Xor(h[0], s)
    requires forall j :: 1 <= j < |z| ==> z[j] == Xor(h[j], h[j - 1])
    requires p[0] == z[0]
    requires forall j :: 1 <= j < |p| ==> p[j] == Xor(z[j], p[j - 1])
    ensures p[i] == Xor(h[i], s)
  {
    if i > 0 {
      PrefixOfDecoded(h, z, p, s, i - 1);
      forall k: nat
        ensures Bit(p[i], k) == Bit(Xor(h[i], s), k)
      {
        BitXor(z[i], p[i - 1], k);
        BitXor(h[i], h[i - 1], k);
        BitXor(h[i - 1], s, k);
        BitXor(h[i], s, k);
      }
      BitsEqual(p[i], Xor(h[i], s));
    }
  }

  lemma GrayEncodeBounded(x: seq<nat>, bits: nat)
    requires |x| > 0
    requires bits >= 1
    requires Bounded(x, bits)
    ensures Bounded(GrayEncode(x, bits), bits)
  {
    var p := PrefixXor(x, 1);
    PrefixXorBounded(x, bits);
    var t := GrayMask(p[|p| - 1], bits - 1, 0);
    GrayMaskBounded(p[|p| - 1], bits - 1, 0, bits);
    forall i | 0 <= i < |p|
      ensures GrayEncode(x, bits)[i] < Pow2(bits)
    {
      XorBounded(p[i], t, bits);
    }
  }

  lemma GrayDecodeBounded(h: seq<nat>, bits: nat)
    requires |h| > 0
    requires Bounded(h, bits)
    ensures Bounded(GrayDecode(h), bits)
  {
    var n := |h|;
    var s := Shr(h[n - 1], 1);
    ShrDecreases(h[n - 1], 1);
    XorDownSpec(h, h, n - 1);
    forall i | 0 <= i < n
      ensures GrayDecode(h)[i] < Pow2(bits)
    {
      if i == 0 {
        XorBounded(h[0], s, bits);
      } else {
        XorBounded(h[i], h[i - 1], bits);
      }
    }
  }

  // ---------------------------------------------------------------------------
  // Properties of the transform

  /** If every ordinal axis is below 2^bits, so is every Hilbert axis. */
  lemma MapBounded(axes: seq<nat>, bits: nat)
    requires |axes| > 0
    requires bits >= 1
    requires Bounded(axes, bits)
    ensures Bounded(Map(axes, bits), bits)
  {
    InverseUndoBounded(axes, bits - 1, bits);
    GrayEncodeBounded(InverseUndo(axes, bits - 1), bits);
  }

  /** If every Hilbert axis is below 2^bits, so is every ordinal axis. */
  lemma UnmapBounded(transposed: seq<nat>, bits: nat)
    requires |transposed| > 0
    requires bits >= 1
    requires Bounded(transposed, bits)
    ensures Bounded(Unmap(transposed, bits), bits)
  {
    GrayDecodeBounded(transposed, bits);
    UndoExcessBounded(GrayDecode(transposed), 1, bits);
  }

  /** `unmap(map(x, b), b) == x`. */
  lemma UnmapMap(axes: seq<nat>, bits: nat)
    requires |axes| > 0
    requires bits >= 1
    requires Bounded(axes, bits)
    ensures Unmap(Map(axes, bits), bits) == axes
  {
    var y := InverseUndo(axes, bits - 1);
    InverseUndoBounded(axes, bits - 1, bits);
    GrayDecodeEncode(y, bits);
    UndoExcessAfterInverseUndo(axes, bits - 1, bits);
  }

  /** `map(unmap(h, b), b) == h`. */
  lemma MapUnmap(transposed: seq<nat>, bits: nat)
    requires |transposed| > 0
    requires bits >= 1
    requires Bounded(transposed, bits)
    ensures Map(Unmap(transposed, bits), bits) == transposed
  {
    InverseUndoAfterUndoExcess(GrayDecode(transposed), 1, bits);
    GrayEncodeDecode(transposed, bits);
  }
  // ---------------------------------------------------------------------------
  // The curve starts at the origin

  lemma {:induction false} ExchangeUpOrigin(n: nat, e: nat, i: nat)
    requires i <= n
    ensures ExchangeUp(Zeros(n), e, i) == Zeros(n)
    decreases n - i
  {
    if i < n {
      assert Exchange(Zeros(n), e, i) == Zeros(n);
      ExchangeUpOrigin(n, e, i + 1);
    }
  }

  lemma {:induction false} InverseUndoOrigin(n: nat, e: nat)
    ensures InverseUndo(Zeros(n), e) == Zeros(n)
    decreases e
  {
    if e > 0 {
      ExchangeUpOrigin(n, e, 0);
      InverseUndoOrigin(n, e - 1);
    }
  }

  lemma {:induction false} PrefixXorOrigin(n: nat, i: nat)
    requires i >= 1
    ensures PrefixXor(Zeros(n), i) == Zeros(n)
    decreases n - i
  {
    if i < n {
      assert Zeros(n)[i := Xor(0, 0)] == Zeros(n);
      PrefixXorOrigin(n, i + 1);
    }
  }

  lemma {:induction false} GrayMaskOfZero(e: nat)
    ensures GrayMask(0, e, 0) == 0
    decreases e
  {
    if e > 0 {
      GrayMaskOfZero(e - 1);
    }
  }

  /** The point with every ordinal axis 0 has Hilbert index 0, and back. */
  lemma OriginIsStart(n: nat, bits: nat)
    requires n > 0
    requires bits >= 1
    ensures Map(Zeros(n), bits) == Zeros(n)
    ensures Unmap(Zeros(n), bits) == Zeros(n)
  {
    InverseUndoOrigin(n, bits - 1);
    PrefixXorOrigin(n, 1);
    GrayMaskOfZero(bits - 1);
    assert GrayEncode(Zeros(n), bits) == XorAll(Zeros(n), 0);
    assert Bounded(Zeros(n), bits);
    UnmapMap(Zeros(n), bits);
  }

  /**
    With one bit per axis in two dimensions the curve visits the unit square
    in the order (0,0), (0,1), (1,1), (1,0): the transposed indices of
    distances 0, 1, 2 and 3 are [0,0], [0,1], [1,0] and [1,1].
  */
  lemma FirstOrderSquare()
    ensures Unmap([0, 0], 1) == [0, 0]
    ensures Unmap([0, 1], 1) == [0, 1]
    ensures Unmap([1, 0], 1) == [1, 1]
    ensures Unmap([1, 1], 1) == [1, 0]
  {
    assert Xor(1, 0) == 1 && Xor(0, 1) == 1 && Xor(1, 1) == 0 && Xor(0, 0) == 0;
    assert Shr(0, 1) == 0 && Shr(1, 1) == 0;
  }
  // ---------------------------------------------------------------------------
  // One bit per axis: the plane loops do nothing

  /** With bits == 1, `map` is a running XOR: output axis i is x[0] ^ ... ^ x[i]. */
  lemma MapOneBit(x: seq<nat>)
    requires |x| > 0
    ensures Map(x, 1)[0] == x[0]
    ensures forall i :: 1 <= i < |x| ==> Map(x, 1)[i] == Xor(x[i], Map(x, 1)[i - 1])
  {
    var y := PrefixXor(x, 1);
    PrefixXorSpec(x, x, 1);
    assert GrayMask(y[|y| - 1], 0, 0) == 0;
    forall i | 0 <= i < |x|
      ensures Map(x, 1)[i] == y[i]
    {
      XorZero(y[i]);
    }
  }

  /** With bits == 1, `unmap` XORs each axis with its predecessor. */
  lemma UnmapOneBit(h: seq<nat>)
    requires |h| > 0
    requires Bounded(h, 1)
    ensures Unmap(h, 1)[0] == h[0]
    ensures forall i :: 1 <= i < |h| ==> Unmap(h, 1)[i] == Xor(h[i], h[i - 1])
  {
    XorDownSpec(h, h, |h| - 1);
    assert Shr(h[|h| - 1], 1) == 0;
    XorZero(h[0]);
  }
}
