/**
  Interleave: the bit transposition between a vector of per-axis integers and one
  integer. For n axes, bit j of axis i becomes bit j*n + (n-1-i) of the integer,
  so axis 0 supplies the most significant bit of every n-bit group.
*/
module Interleave {
  import opened Bits

  /** The output bit that bit j of axis i lands on, for n axes. */
  function Position(n: nat, i: nat, j: nat): nat
    requires i < n
  {
    j * n + (n - 1 - i)
  }

  /** The axis an output bit p comes from. */
  function AxisOf(n: nat, p: nat): (i: nat)
    requires n > 0
    ensures i < n
  {
    n - 1 - p % n
  }

  /** The per-axis bit (bit plane) an output bit p comes from. */
  function PlaneOf(n: nat, p: nat): nat
    requires n > 0
  {
    p / n
  }

  lemma DivModUnique(p: nat, n: nat, j: nat, r: nat)
    requires r < n
    requires p == j * n + r
    ensures p / n == j && p % n == r
  {
    var q := p / n;
    var s := p % n;
    assert p == q * n + s;
    if q > j {
      MulMonotone(j + 1, q, n);
      assert false;
    } else if q < j {
      MulMonotone(q + 1, j, n);
      assert false;
    }
  }

  lemma MulMonotone(a: nat, b: nat, n: nat)
    requires a <= b
    ensures a * n <= b * n
  {
  }

  lemma PositionInverse(n: nat, i: nat, j: nat)
    requires i < n
    ensures AxisOf(n, Position(n, i, j)) == i
    ensures PlaneOf(n, Position(n, i, j)) == j
  {
    DivModUnique(Position(n, i, j), n, j, n - 1 - i);
  }

  lemma PositionOfParts(n: nat, p: nat)
    requires n > 0
    ensures Position(n, AxisOf(n, p), PlaneOf(n, p)) == p
  {
  }

  lemma PositionBelow(n: nat, i: nat, j: nat, bits: nat)
    requires i < n
    ensures Position(n, i, j) < n * bits <==> j < bits
  {
    if j < bits {
      assert (j + 1) * n <= bits * n;
    } else {
      assert bits * n <= j * n;
    }
  }

  lemma PositionNext(n: nat, i: nat, j: nat)
    requires i < n
    ensures Position(n, i, j) + n == Position(n, i, j + 1)
  {
  }

  // ---------------------------------------------------------------------------
  // Interleave.map

  /** `Interleave.map(index, bits)`: n axes of `bits` bits each make an integer of n*bits bits. */
  function Map(index: seq<nat>, bits: nat): (r: nat)
    ensures r < Pow2(|index| * bits)
  {
    MapFromBounded(index, bits);
    MapFrom(index, bits, 0, 0)
  }

  /** The `each_with_index` loop over axes i.. of `index`, OR-ing into `result`. */
  function MapFrom(index: seq<nat>, bits: nat, i: nat, result: nat): nat
    requires i <= |index|
    decreases |index| - i
  {
    if i == |index| then result
    else MapFrom(index, bits, i + 1, SpreadAxis(index[i], |index|, |index| - (i + 1), bits, 0, result))
  }

  /**
    The `bits.times` loop for one axis: `x` is the axis shifted right by j; its low
    bit goes to output bit j*n + offset, and the loop stops early once x is 0.
  */
  function SpreadAxis(x: nat, n: nat, offset: nat, bits: nat, j: nat, result: nat): nat
    decreases bits - j
  {
    if j >= bits then result
    else
      var result' := Or(result, Shl(And(x, 1), j * n + offset));
      var x' := Shr(x, 1);
      if x' == 0 then result' else SpreadAxis(x', n, offset, bits, j + 1, result')
  }

  /** The same loop without the `break if x == 0`. */
  function SpreadAxisFull(x: nat, n: nat, offset: nat, bits: nat, j: nat, result: nat): nat
    decreases bits - j
  {
    if j >= bits then result
    else SpreadAxisFull(Shr(x, 1), n, offset, bits, j + 1, Or(result, Shl(And(x, 1), j * n + offset)))
  }

  /** Bit p of `Map(v, bits)`: bit PlaneOf(p) of axis AxisOf(p), if that plane is below `bits`. */
  ghost predicate InterleavedBit(v: seq<nat>, bits: nat, p: nat)
  {
    |v| > 0 && PlaneOf(|v|, p) < bits && Bit(v[AxisOf(|v|, p)], PlaneOf(|v|, p))
  }

  lemma BitOfLowBit(x: nat, t: nat)
    ensures Bit(And(x, 1), t) == (t == 0 && Bit(x, 0))
  {
    BitAnd(x, 1, t);
    BitPow2(0, t);
  }

  /** One pass of the loop sets output bit j*n + offset to the low bit of x and keeps every other bit. */
  lemma SpreadStep(x: nat, n: nat, offset: nat, j: nat, result: nat, p: nat)
    requires offset < n
    ensures Bit(Or(result, Shl(And(x, 1), j * n + offset)), p) ==
            (Bit(result, p) || (p % n == offset && p / n == j && Bit(x, 0)))
  {
    var q := j * n + offset;
    BitOr(result, Shl(And(x, 1), q), p);
    BitShl(And(x, 1), q, p);
    if p >= q {
      BitOfLowBit(x, p - q);
    }
    if p % n == offset && p / n == j {
      assert p == q;
    }
    if p == q {
      DivModUnique(p, n, j, offset);
    }
  }

  lemma {:induction false} SpreadAxisBits(x: nat, n: nat, offset: nat, bits: nat, j: nat, result: nat, p: nat)
    requires offset < n
    ensures Bit(SpreadAxis(x, n, offset, bits, j, result), p) ==
            (Bit(result, p) || (p % n == offset && j <= p / n < bits && Bit(x, p / n - j)))
    decreases bits - j
  {
    if j < bits {
      var result' := Or(result, Shl(And(x, 1), j * n + offset));
      SpreadStep(x, n, offset, j, result, p);
      assert Shr(x, 1) == x / 2;
      var plane := p / n;
      if plane > j {
        assert Bit(x, plane - j) == Bit(x / 2, plane - (j + 1));
      }
      if x / 2 == 0 {
        if plane > j {
          BitZero(plane - (j + 1));
        }
      } else {
        SpreadAxisBits(x / 2, n, offset, bits, j + 1, result', p);
      }
    }
  }

  lemma {:induction false} MapFromBits(index: seq<nat>, bits: nat, i: nat, result: nat, p: nat)
    requires i <= |index|
    requires |index| > 0
    ensures Bit(MapFrom(index, bits, i, result), p) ==
            (Bit(result, p) || (i <= AxisOf(|index|, p) && PlaneOf(|index|, p) < bits
                                && Bit(index[AxisOf(|index|, p)], PlaneOf(|index|, p))))
    decreases |index| - i
  {
    var n := |index|;
    if i < n {
      var result' := SpreadAxis(index[i], n, n - (i + 1), bits, 0, result);
      SpreadAxisBits(index[i], n, n - (i + 1), bits, 0, result, p);
      MapFromBits(index, bits, i + 1, result', p);
    }
  }

  /** Every bit of the interleaved integer, characterized. */
  lemma MapBits(v: seq<nat>, bits: nat, p: nat)
    ensures Bit(Map(v, bits), p) == InterleavedBit(v, bits, p)
  {
    if |v| > 0 {
      MapFromBits(v, bits, 0, 0, p);
      BitZero(p);
    } else {
      assert Map(v, bits) == 0;
      BitZero(p);
    }
  }

  /** Bit j of axis i is written to output bit j*n + (n-1-i), and only the low `bits` bits are read. */
  lemma MapPlacesBits(v: seq<nat>, bits: nat, i: nat, j: nat)
    requires i < |v|
    ensures Bit(Map(v, bits), Position(|v|, i, j)) == (j < bits && Bit(v[i], j))
  {
    MapBits(v, bits, Position(|v|, i, j));
    PositionInverse(|v|, i, j);
  }

  /** The whole `each_with_index` loop sets no bit at or above n*bits. */
  lemma MapFromBounded(v: seq<nat>, bits: nat)
    ensures MapFrom(v, bits, 0, 0) < Pow2(|v| * bits)
  {
    forall p: nat | p >= |v| * bits
      ensures !Bit(MapFrom(v, bits, 0, 0), p)
    {
      BitZero(p);
      if |v| > 0 {
        MapFromBits(v, bits, 0, 0, p);
        PositionOfParts(|v|, p);
        PositionBelow(|v|, AxisOf(|v|, p), PlaneOf(|v|, p), bits);
      }
    }
    NoHighBitBounded(MapFrom(v, bits, 0, 0), |v| * bits);
  }

  /** The interleaved integer has at most n*bits bits. */
  lemma MapBounded(v: seq<nat>, bits: nat)
    ensures Map(v, bits) < Pow2(|v| * bits)
  {
  }

  lemma {:induction false} SpreadAxisFullOfZero(n: nat, offset: nat, bits: nat, j: nat, result: nat)
    ensures SpreadAxisFull(0, n, offset, bits, j, result) == result
    decreases bits - j
  {
    if j < bits {
      ShlIsMul(And(0, 1), j * n + offset);
      SpreadAxisFullOfZero(n, offset, bits, j + 1, result);
    }
  }

  /** The early `break if x == 0` does not change what the axis loop produces. */
  lemma {:induction false} EarlyExitIsHarmless(x: nat, n: nat, offset: nat, bits: nat, j: nat, result: nat)
    ensures SpreadAxis(x, n, offset, bits, j, result) == SpreadAxisFull(x, n, offset, bits, j, result)
    decreases bits - j
  {
    if j < bits {
      var result' := Or(result, Shl(And(x, 1), j * n + offset));
      if Shr(x, 1) == 0 {
        SpreadAxisFullOfZero(n, offset, bits, j + 1, result');
      } else {
        EarlyExitIsHarmless(Shr(x, 1), n, offset, bits, j + 1, result');
      }
    }
  }

  // ---------------------------------------------------------------------------
  // Interleave.unmap

  /**
    `Interleave.unmap(integral, width)`. With width 0 and a non-zero integral the
    source's `while integral != 0` never ends, hence the precondition.
  */
  function Unmap(integral: nat, width: nat): (axes: seq<nat>)
    requires width > 0 || integral == 0
    ensures |axes| == width
    ensures integral == 0 ==> axes == Zeros(width)
  {
    UnmapFrom(integral, width, 0, Zeros(width))
  }

  /** The `while integral != 0` loop; `offset` is the bit of each axis being filled. */
  function UnmapFrom(integral: nat, width: nat, offset: nat, result: seq<nat>): (axes: seq<nat>)
    requires |result| == width
    requires width > 0 || integral == 0
    ensures |axes| == width
    ensures integral == 0 ==> axes == result
    decreases integral
  {
    if integral == 0 then result
    else
      ShrDecreases(integral, width);
      UnmapFrom(Shr(integral, width), width, offset + 1, Deposit(integral, width, offset, result, 0))
  }

  /** The inner `width.times` loop: bit i of `integral` is OR-ed into bit `offset` of axis width-1-i. */
  function Deposit(integral: nat, width: nat, offset: nat, result: seq<nat>, i: nat): (axes: seq<nat>)
    requires |result| == width
    requires i <= width
    ensures |axes| == width
    decreases width - i
  {
    if i == width then result
    else
      var bit := And(Shr(integral, i), 1);
      var a := width - 1 - i;
      Deposit(integral, width, offset, result[a := Or(result[a], Shl(bit, offset))], i + 1)
  }

  lemma {:induction false} DepositBits(integral: nat, width: nat, offset: nat, result: seq<nat>, i: nat, a: nat, k: nat)
    requires |result| == width
    requires i <= width
    requires a < width
    ensures Bit(Deposit(integral, width, offset, result, i)[a], k) ==
            (Bit(result[a], k) || (k == offset && width - 1 - a >= i && Bit(integral, width - 1 - a)))
    decreases width - i
  {
    if i < width {
      var bit := And(Shr(integral, i), 1);
      var b := width - 1 - i;
      var result' := result[b := Or(result[b], Shl(bit, offset))];
      DepositBits(integral, width, offset, result', i + 1, a, k);
      if a == b {
        BitOr(result[b], Shl(bit, offset), k);
        BitShl(bit, offset, k);
        if k >= offset {
          BitOfLowBit(Shr(integral, i), k - offset);
        }
        BitShr(integral, i, 0);
      }
    }
  }

  lemma {:induction false} UnmapFromBits(integral: nat, width: nat, offset: nat, result: seq<nat>, a: nat, k: nat)
    requires |result| == width
    requires width > 0 || integral == 0
    requires a < width
    ensures Bit(UnmapFrom(integral, width, offset, result)[a], k) ==
            (Bit(result[a], k) || (k >= offset && Bit(integral, Position(width, a, k - offset))))
    decreases integral
  {
    if integral == 0 {
      if k >= offset {
        BitZero(Position(width, a, k - offset));
      }
    } else {
      ShrDecreases(integral, width);
      var rest := Shr(integral, width);
      var result' := Deposit(integral, width, offset, result, 0);
      DepositBits(integral, width, offset, result, 0, a, k);
      UnmapFromBits(rest, width, offset + 1, result', a, k);
      assert Bit(UnmapFrom(integral, width, offset, result)[a], k) ==
             (Bit(result'[a], k) || (k >= offset + 1 && Bit(rest, Position(width, a, k - (offset + 1)))));
      if k == offset {
        assert Position(width, a, k - offset) == width - 1 - a;
      } else if k > offset {
        var p := Position(width, a, k - (offset + 1));
        BitShr(integral, width, p);
        PositionNext(width, a, k - (offset + 1));
        assert p + width == Position(width, a, k - offset);
      }
    }
  }

  /** Bit j of axis a of `Unmap(k, w)` is bit j*w + (w-1-a) of k. */
  lemma UnmapBits(integral: nat, width: nat, a: nat, j: nat)
    requires width > 0 || integral == 0
    requires a < width
    ensures Bit(Unmap(integral, width)[a], j) == Bit(integral, Position(width, a, j))
  {
    UnmapFromBits(integral, width, 0, Zeros(width), a, j);
    BitZero(j);
  }

  /** `unmap(map(v, bits), v.size) == v` when every axis fits in `bits` bits. */
  lemma UnmapMap(v: seq<nat>, bits: nat)
    requires forall i :: 0 <= i < |v| ==> v[i] < Pow2(bits)
    ensures |v| > 0 || Map(v, bits) == 0
    ensures Unmap(Map(v, bits), |v|) == v
  {
    var n := |v|;
    if n == 0 {
      assert Map(v, bits) == 0;
    } else {
      var r := Unmap(Map(v, bits), n);
      forall a | 0 <= a < n
        ensures r[a] == v[a]
      {
        forall j: nat
          ensures Bit(r[a], j) == Bit(v[a], j)
        {
          UnmapBits(Map(v, bits), n, a, j);
          MapPlacesBits(v, bits, a, j);
          if j >= bits {
            BoundedNoHighBit(v[a], bits, j);
          }
        }
        BitsEqual(r[a], v[a]);
      }
    }
  }

  /** `map(unmap(k, n), bits) == k` when k has at most n*bits bits. */
  lemma MapUnmap(k: nat, n: nat, bits: nat)
    requires n > 0
    requires k < Pow2(n * bits)
    ensures Map(Unmap(k, n), bits) == k
  {
    var v := Unmap(k, n);
    forall p: nat
      ensures Bit(Map(v, bits), p) == Bit(k, p)
    {
      MapBits(v, bits, p);
      var i := AxisOf(n, p);
      var j := PlaneOf(n, p);
      UnmapBits(k, n, i, j);
      PositionOfParts(n, p);
      PositionBelow(n, i, j, bits);
      if j >= bits {
        BoundedNoHighBit(k, n * bits, p);
      }
    }
    BitsEqual(Map(v, bits), k);
  }
}
