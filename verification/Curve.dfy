/**
  `Geospatial::Hilbert::Curve`: a Hilbert curve of a given order over a set of
  dimensions. Construction multiplies every dimension's scale by 2^order, so a
  coordinate maps to a grid cell with `order` bits per axis; `map` turns a
  coordinate into the cell's Hilbert key and `unmap` turns a key back into the
  coordinate of its cell's lower corner.
*/
module Curves {
  import opened Bits
  import Hilbert
  import Indexes
  import Dimensions

  datatype Curve = Curve(order: nat, scale: nat, dims: seq<Dimensions.Dimension>)

  /**
    `Curve.new(dimensions, order)`. The source raises unless `order >= 1`; here
    that is the precondition.
  */
  function NewCurve(dims: seq<Dimensions.Dimension>, order: nat): (c: Curve)
    requires order >= 1
    ensures c.order == order && c.scale == Pow2(order)
    ensures Dimensions.Origins(c.dims) == Dimensions.Origins(dims)
    ensures Dimensions.Sizes(c.dims) == Dimensions.Sizes(dims)
    ensures |Dimensions.Scales(c.dims)| == |dims|
    ensures forall i :: 0 <= i < |dims| ==> Dimensions.Scales(c.dims)[i] == Dimensions.Scales(dims)[i] * (Pow2(order) as real)
    ensures (forall i :: 0 <= i < |dims| ==> dims[i].scale != 0.0) ==>
              (Dimensions.Invertible(dims) <==> Dimensions.Invertible(c.dims))
  {
    Curve(order, Pow2(order), Dimensions.ScaleAll(dims, Pow2(order) as real))
  }

  /** What the source needs of a curve: positive order, at least one axis, and invertible axes. */
  predicate CurveOk(c: Curve)
  {
    c.order >= 1 && c.scale == Pow2(c.order) && |c.dims| >= 1 && Dimensions.Invertible(c.dims)
  }

  /** `bit_width`: one key bit per axis per level, so a well-formed curve has at least one. */
  function BitWidth(c: Curve): (w: nat)
    ensures w == Dimensions.Count(c.dims)
    ensures CurveOk(c) ==> w >= 1
  {
    |c.dims|
  }

  /** The grid cell of a coordinate: each mapped value floored. */
  function CellOf(c: Curve, coords: seq<real>): (cell: seq<int>)
    requires CurveOk(c)
    requires |coords| >= |c.dims|
    ensures |cell| == |c.dims|
    ensures forall i :: 0 <= i < |cell| ==>
              cell[i] as real <= Dimensions.MapAll(c.dims, coords)[i] < cell[i] as real + 1.0
  {
    var mapped := Dimensions.MapAll(c.dims, coords);
    seq(|c.dims|, i requires 0 <= i < |c.dims| => mapped[i].Floor)
  }

  /** Every axis of the cell is non-negative, i.e. the coordinate is not below the origin. */
  predicate NonNegativeCell(cell: seq<int>)
  {
    forall i :: 0 <= i < |cell| ==> cell[i] >= 0
  }

  function ToNats(cell: seq<int>): (r: seq<nat>)
    requires NonNegativeCell(cell)
    ensures |r| == |cell|
    ensures forall i :: 0 <= i < |cell| ==> r[i] == cell[i]
  {
    seq(|cell|, i requires 0 <= i < |cell| => cell[i] as nat)
  }

  function ToReals(axes: seq<nat>): (r: seq<real>)
    ensures |r| == |axes|
    ensures forall i :: 0 <= i < |axes| ==> r[i] == axes[i] as real
  {
    seq(|axes|, i requires 0 <= i < |axes| => axes[i] as real)
  }

  /**
    `map(coordinates)`: the Hilbert key of the coordinate's cell,
    `OrdinalIndex.new(cell, order).to_hilbert.to_i`. Cells below the origin
    (negative axes) are outside this model.
  */
  function MapCoords(c: Curve, coords: seq<real>): (key: nat)
    requires CurveOk(c)
    requires |coords| >= |c.dims|
    requires NonNegativeCell(CellOf(c, coords))
    ensures Hilbert.Bounded(ToNats(CellOf(c, coords)), c.order) ==> key < Pow2(|c.dims| * c.order)
  {
    Indexes.HilbertDistance(ToNats(CellOf(c, coords)), c.order)
  }

  /**
    `unmap(value)`: the lower corner of the cell at Hilbert distance `value`,
    `dimensions.unmap(HilbertIndex.from_integral(value, n, order).to_ordinal.axes)`.
  */
  function UnmapKey(c: Curve, key: nat): (coords: seq<real>)
    requires CurveOk(c)
    ensures |coords| == |c.dims|
  {
    Dimensions.UnmapAll(c.dims, ToReals(Indexes.HilbertPoint(key, |c.dims|, c.order)))
  }

  /** Mapping the corner of an integral cell gives that cell back. */
  lemma CellOfCorner(c: Curve, axes: seq<nat>)
    requires CurveOk(c)
    requires |axes| == |c.dims|
    ensures CellOf(c, Dimensions.UnmapAll(c.dims, ToReals(axes))) == axes
  {
    Dimensions.MapUnmapAll(c.dims, ToReals(axes));
    assert Dimensions.MapAll(c.dims, Dimensions.UnmapAll(c.dims, ToReals(axes))) == ToReals(axes);
  }

  /** Every key of the curve names a cell whose corner maps back to the key. */
  lemma MapUnmapKey(c: Curve, key: nat)
    requires CurveOk(c)
    requires key < Pow2(|c.dims| * c.order)
    ensures NonNegativeCell(CellOf(c, UnmapKey(c, key)))
    ensures MapCoords(c, UnmapKey(c, key)) == key
  {
    var axes := Indexes.HilbertPoint(key, |c.dims|, c.order);
    CellOfCorner(c, axes);
    assert ToNats(CellOf(c, UnmapKey(c, key))) == axes;
    Indexes.HilbertPointDistance(key, |c.dims|, c.order);
  }

  /**
    The round trip of `hilbert_curve_spec`: for a coordinate inside the curve's
    extent, `unmap(map(x))` is the lower corner of x's cell, so each axis is
    within one cell width `size / scale` below x.
  */
  lemma UnmapMapCoords(c: Curve, coords: seq<real>)
    requires CurveOk(c)
    requires |coords| >= |c.dims|
    requires forall i :: 0 <= i < |c.dims| ==> c.dims[i].size > 0.0 && c.dims[i].scale > 0.0
    requires forall i :: 0 <= i < |c.dims| ==>
               0.0 <= Dimensions.MapValue(c.dims[i], coords[i]) < Pow2(c.order) as real
    ensures NonNegativeCell(CellOf(c, coords))
    ensures forall i :: 0 <= i < |c.dims| ==>
              UnmapKey(c, MapCoords(c, coords))[i] <= coords[i] <
              UnmapKey(c, MapCoords(c, coords))[i] + c.dims[i].size / c.dims[i].scale
  {
    var cell := CellOf(c, coords);
    var axes := ToNats(cell);
    assert Hilbert.Bounded(axes, c.order);
    Indexes.HilbertDistancePoint(axes, c.order);
    var u := UnmapKey(c, MapCoords(c, coords));
    assert u == Dimensions.UnmapAll(c.dims, ToReals(axes));
    forall i | 0 <= i < |c.dims|
      ensures u[i] <= coords[i] < u[i] + c.dims[i].size / c.dims[i].scale
    {
      CornerBelow(c.dims[i], axes[i], coords[i]);
    }
  }

  /** If x maps into [a, a+1), then x lies in [unmap(a), unmap(a) + size/scale). */
  lemma CornerBelow(d: Dimensions.Dimension, a: nat, x: real)
    requires d.size > 0.0 && d.scale > 0.0
    requires a as real <= Dimensions.MapValue(d, x) < a as real + 1.0
    ensures Dimensions.UnmapValue(d, a as real) <= x < Dimensions.UnmapValue(d, a as real) + d.size / d.scale
  {
    var m := Dimensions.MapValue(d, x);
    Dimensions.UnmapMapValue(d, x);
    assert Dimensions.UnmapValue(d, m) == x;
    UnmapMonotone(d, a as real, m);
    UnmapMonotone(d, m, a as real + 1.0);
    assert (a as real + 1.0) / d.scale == a as real / d.scale + 1.0 / d.scale;
    assert ((a as real + 1.0) / d.scale) * d.size == (a as real / d.scale) * d.size + d.size / d.scale;
    assert Dimensions.UnmapValue(d, a as real + 1.0) == Dimensions.UnmapValue(d, a as real) + d.size / d.scale;
  }

  lemma UnmapMonotone(d: Dimensions.Dimension, u: real, v: real)
    requires d.size > 0.0 && d.scale > 0.0
    requires u <= v
    ensures Dimensions.UnmapValue(d, u) <= Dimensions.UnmapValue(d, v)
    ensures u < v ==> Dimensions.UnmapValue(d, u) < Dimensions.UnmapValue(d, v)
  {
    assert u / d.scale <= v / d.scale;
    assert (u / d.scale) * d.size <= (v / d.scale) * d.size;
    if u < v {
      assert u / d.scale < v / d.scale;
      assert (u / d.scale) * d.size < (v / d.scale) * d.size;
    }
  }
}
