/**
  `Geospatial::Index` and its two subclasses: an n-dimensional point stored as
  one integer per axis with `bits` bits each. A `HilbertIndex` holds a
  transposed Hilbert index, an `OrdinalIndex` holds plain grid coordinates, and
  `to_i` interleaves either into a single integer key.
*/
module Indexes {
  import opened Bits
  import Interleave
  import Hilbert

  /** Which Ruby class the index is an instance of. */
  datatype Kind = PlainIndex | HilbertIndex | OrdinalIndex

  datatype Index = Index(kind: Kind, axes: seq<nat>, bits: nat)

  /** Every axis fits in `bits` bits. */
  predicate WellFormed(ix: Index)
  {
    Hilbert.Bounded(ix.axes, ix.bits)
  }

  /** `bit_length`: the number of bits of the interleaved key. */
  function BitLength(ix: Index): (n: nat)
    ensures WellFormed(ix) ==> ToI(ix) < Pow2(n)
  {
    Interleave.MapBounded(ix.axes, ix.bits);
    |ix.axes| * ix.bits
  }

  /** `to_i`: the interleaved integer key of the index. */
  function ToI(ix: Index): (key: nat)
    ensures forall i: nat, j: nat :: i < |ix.axes| ==>
              (Bit(key, Interleave.Position(|ix.axes|, i, j)) <==> j < ix.bits && Bit(ix.axes[i], j))
  {
    MapPlacesAllBits(ix.axes, ix.bits);
    Interleave.Map(ix.axes, ix.bits)
  }

  lemma MapPlacesAllBits(axes: seq<nat>, bits: nat)
    ensures forall i: nat, j: nat :: i < |axes| ==>
              (Bit(Interleave.Map(axes, bits), Interleave.Position(|axes|, i, j)) <==> j < bits && Bit(axes[i], j))
  {
    forall i: nat, j: nat | i < |axes|
      ensures Bit(Interleave.Map(axes, bits), Interleave.Position(|axes|, i, j)) <==> j < bits && Bit(axes[i], j)
    {
      Interleave.MapPlacesBits(axes, bits, i, j);
    }
  }

  /** `from_integral`: split an integer key into `width` axes, as an index of the given class. */
  function FromIntegral(kind: Kind, integral: nat, width: nat, bits: nat): (ix: Index)
    requires width > 0 || integral == 0
    ensures ix.kind == kind && ix.bits == bits && |ix.axes| == width
    ensures integral < Pow2(width * bits) ==> WellFormed(ix) && ToI(ix) == integral
  {
    UnmapThenMap(integral, width, bits);
    Index(kind, Interleave.Unmap(integral, width), bits)
  }

  lemma UnmapThenMap(integral: nat, width: nat, bits: nat)
    requires width > 0 || integral == 0
    ensures integral < Pow2(width * bits) ==>
              Hilbert.Bounded(Interleave.Unmap(integral, width), bits) &&
              Interleave.Map(Interleave.Unmap(integral, width), bits) == integral
  {
    if integral < Pow2(width * bits) {
      UnmapBounded(integral, width, bits);
      if width > 0 {
        Interleave.MapUnmap(integral, width, bits);
      }
    }
  }

  /** The axes of a key below 2^(width * bits) fit in `bits` bits. */
  lemma UnmapBounded(integral: nat, width: nat, bits: nat)
    requires width > 0 || integral == 0
    requires integral < Pow2(width * bits)
    ensures Hilbert.Bounded(Interleave.Unmap(integral, width), bits)
  {
    var axes := Interleave.Unmap(integral, width);
    forall a | 0 <= a < width
      ensures axes[a] < Pow2(bits)
    {
      forall j: nat | j >= bits
        ensures !Bit(axes[a], j)
      {
        Interleave.UnmapBits(integral, width, a, j);
        Interleave.PositionBelow(width, a, j, bits);
        BoundedNoHighBit(integral, width * bits, Interleave.Position(width, a, j));
      }
      NoHighBitBounded(axes[a], bits);
    }
  }

  /** Splitting the key of a well-formed index gives the index back. */
  lemma FromIntegralToI(ix: Index)
    requires WellFormed(ix)
    requires |ix.axes| > 0
    ensures FromIntegral(ix.kind, ToI(ix), |ix.axes|, ix.bits) == ix
  {
    Interleave.UnmapMap(ix.axes, ix.bits);
  }

  /** `index & mask`: every axis masked, class and bit count kept. */
  function Mask(ix: Index, mask: nat): (r: Index)
    ensures r.kind == ix.kind && r.bits == ix.bits && |r.axes| == |ix.axes|
    ensures forall i :: 0 <= i < |ix.axes| ==> KeepsMaskedBits(ix.axes[i], mask, r.axes[i])
  {
    var masked := seq(|ix.axes|, i requires 0 <= i < |ix.axes| => And(ix.axes[i], mask));
    AndKeepsMaskedBits(ix.axes, mask, masked);
    Index(ix.kind, masked, ix.bits)
  }

  /** y has exactly the bits set in both x and the mask. */
  ghost predicate KeepsMaskedBits(x: nat, mask: nat, y: nat)
  {
    forall k: nat :: Bit(y, k) <==> Bit(x, k) && Bit(mask, k)
  }

  lemma AndKeepsMaskedBits(axes: seq<nat>, mask: nat, masked: seq<nat>)
    requires |masked| == |axes|
    requires forall i :: 0 <= i < |axes| ==> masked[i] == And(axes[i], mask)
    ensures forall i :: 0 <= i < |axes| ==> KeepsMaskedBits(axes[i], mask, masked[i])
  {
    forall i | 0 <= i < |axes|
      ensures KeepsMaskedBits(axes[i], mask, masked[i])
    {
      forall k: nat
        ensures Bit(masked[i], k) <==> Bit(axes[i], k) && Bit(mask, k)
      {
        BitAnd(axes[i], mask, k);
      }
    }
  }

  /** Masking twice with the same mask is masking once. */
  lemma MaskIdempotent(ix: Index, mask: nat)
    ensures Mask(Mask(ix, mask), mask) == Mask(ix, mask)
  {
    var once := Mask(ix, mask);
    var twice := Mask(once, mask);
    forall i | 0 <= i < |ix.axes|
      ensures twice.axes[i] == once.axes[i]
    {
      assert KeepsMaskedBits(ix.axes[i], mask, once.axes[i]);
      assert KeepsMaskedBits(once.axes[i], mask, twice.axes[i]);
      forall k: nat
        ensures Bit(twice.axes[i], k) == Bit(once.axes[i], k)
      {
      }
      BitsEqual(twice.axes[i], once.axes[i]);
    }
  }

  /** Masking a well-formed index with all its low bits changes nothing. */
  lemma MaskLowBitsIdentity(ix: Index)
    requires WellFormed(ix)
    ensures Mask(ix, LowMask(ix.bits)) == ix
  {
    var r := Mask(ix, LowMask(ix.bits));
    forall i | 0 <= i < |ix.axes|
      ensures r.axes[i] == ix.axes[i]
    {
      AndLowMaskIdentity(ix.axes[i], ix.bits);
    }
  }

  /** `eql?`: same class, same axes, same bit count. */
  predicate Eql(a: Index, b: Index)
    ensures Eql(a, b) <==> a == b
  {
    a.kind == b.kind && a.axes == b.axes && a.bits == b.bits
  }

  /** `hash`: the index hashes as its axes do, so only the axes feed the hash. */
  function HashKey(ix: Index): seq<nat>
  {
    ix.axes
  }

  /** `eql?` indices have equal hashes, as Ruby's Hash requires. */
  lemma HashConsistent(a: Index, b: Index)
    requires Eql(a, b)
    ensures HashKey(a) == HashKey(b)
  {
  }

  /** `HilbertIndex#to_ordinal`. */
  function ToOrdinal(ix: Index): (r: Index)
    requires ix.kind == HilbertIndex
    requires |ix.axes| > 0 && ix.bits >= 1
    ensures r.kind == OrdinalIndex && r.bits == ix.bits && |r.axes| == |ix.axes|
    ensures WellFormed(ix) ==> WellFormed(r)
  {
    UnmapKeepsBounds(ix.axes, ix.bits);
    Index(OrdinalIndex, Hilbert.Unmap(ix.axes, ix.bits), ix.bits)
  }

  /** `OrdinalIndex#to_hilbert`. */
  function ToHilbert(ix: Index): (r: Index)
    requires ix.kind == OrdinalIndex
    ensures r.kind == HilbertIndex && r.bits == ix.bits && |r.axes| == |ix.axes|
    ensures WellFormed(ix) && |ix.axes| > 0 && ix.bits >= 1 ==> WellFormed(r)
  {
    MapKeepsBounds(ix.axes, ix.bits);
    Index(HilbertIndex, Hilbert.Map(ix.axes, ix.bits), ix.bits)
  }

  lemma UnmapKeepsBounds(axes: seq<nat>, bits: nat)
    requires |axes| > 0 && bits >= 1
    ensures Hilbert.Bounded(axes, bits) ==> Hilbert.Bounded(Hilbert.Unmap(axes, bits), bits)
  {
    if Hilbert.Bounded(axes, bits) {
      Hilbert.UnmapBounded(axes, bits);
    }
  }

  lemma MapKeepsBounds(axes: seq<nat>, bits: nat)
    ensures Hilbert.Bounded(axes, bits) && |axes| > 0 && bits >= 1 ==> Hilbert.Bounded(Hilbert.Map(axes, bits), bits)
  {
    if Hilbert.Bounded(axes, bits) && |axes| > 0 && bits >= 1 {
      Hilbert.MapBounded(axes, bits);
    }
  }

  lemma ToHilbertToOrdinal(ix: Index)
    requires ix.kind == HilbertIndex
    requires |ix.axes| > 0 && ix.bits >= 1
    requires WellFormed(ix)
    ensures ToHilbert(ToOrdinal(ix)) == ix
  {
    Hilbert.MapUnmap(ix.axes, ix.bits);
  }

  lemma ToOrdinalToHilbert(ix: Index)
    requires ix.kind == OrdinalIndex
    requires |ix.axes| > 0 && ix.bits >= 1
    requires WellFormed(ix)
    ensures ToOrdinal(ToHilbert(ix)) == ix
  {
    Hilbert.UnmapMap(ix.axes, ix.bits);
  }

  /** The Hilbert distance of a grid point: `OrdinalIndex.new(axes, bits).to_hilbert.to_i`. */
  function HilbertDistance(axes: seq<nat>, bits: nat): (d: nat)
    ensures Hilbert.Bounded(axes, bits) ==> d < Pow2(|axes| * bits)
    ensures |axes| == 0 || bits == 0 ==> d == 0
  {
    var h := ToHilbert(Index(OrdinalIndex, axes, bits));
    assert BitLength(h) == |axes| * bits;
    ToI(h)
  }

  /** The grid point at a Hilbert distance: `HilbertIndex.from_integral(d, n, bits).to_ordinal.axes`. */
  function HilbertPoint(d: nat, width: nat, bits: nat): (axes: seq<nat>)
    requires width > 0 && bits >= 1
    ensures |axes| == width
    ensures d < Pow2(width * bits) ==> Hilbert.Bounded(axes, bits)
  {
    ToOrdinal(FromIntegral(HilbertIndex, d, width, bits)).axes
  }

  /** Along the curve, distance and grid point determine each other. */
  lemma HilbertPointDistance(d: nat, width: nat, bits: nat)
    requires width > 0 && bits >= 1
    requires d < Pow2(width * bits)
    ensures HilbertDistance(HilbertPoint(d, width, bits), bits) == d
  {
    var h := FromIntegral(HilbertIndex, d, width, bits);
    ToHilbertToOrdinal(h);
  }

  lemma HilbertDistancePoint(axes: seq<nat>, bits: nat)
    requires |axes| > 0 && bits >= 1
    requires Hilbert.Bounded(axes, bits)
    ensures HilbertPoint(HilbertDistance(axes, bits), |axes|, bits) == axes
  {
    var o := Index(OrdinalIndex, axes, bits);
    var h := ToHilbert(o);
    FromIntegralToI(h);
    ToOrdinalToHilbert(o);
  }
  /**
    In two dimensions with two bits per axis the curve's first four cells, at
    distances 0, 1, 2 and 3, are (0,0), (1,0), (1,1) and (0,1).
  */
  lemma FirstFourCells()
    ensures HilbertPoint(0, 2, 2) == [0, 0]
    ensures HilbertPoint(1, 2, 2) == [1, 0]
    ensures HilbertPoint(2, 2, 2) == [1, 1]
    ensures HilbertPoint(3, 2, 2) == [0, 1]
  {
    CellAt0();
    CellAt1();
    CellAt2();
    CellAt3();
  }

  lemma CellAt0()
    ensures HilbertPoint(0, 2, 2) == [0, 0]
  {
    Hilbert.OriginIsStart(2, 2);
    assert Zeros(2) == [0, 0];
  }

  lemma CellAt1()
    ensures HilbertPoint(1, 2, 2) == [1, 0]
  {
    assert Interleave.Unmap(1, 2) == [0, 1];
  }

  lemma CellAt2()
    ensures HilbertPoint(2, 2, 2) == [1, 1]
  {
    assert Interleave.Unmap(2, 2) == [1, 0];
  }

  lemma CellAt3()
    ensures HilbertPoint(3, 2, 2) == [0, 1]
  {
    assert Interleave.Unmap(3, 2) == [1, 1];
  }
}
