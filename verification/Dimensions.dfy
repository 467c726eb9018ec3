/**
  `Geospatial::Dimension` and `Geospatial::Dimensions`: an affine map between a
  continuous interval `[origin, origin + size]` and the interval `[0, scale]`,
  one per axis. Ruby evaluates these in floating point; here they are exact over
  `real`, which makes `map` and `unmap` true inverses.
*/
module Dimensions {
  import opened Wrappers

  datatype Dimension = Dimension(origin: real, size: real, scale: real)

  /** `Dimension.new(origin, size)` with the default scale 1.0. */
  function NewDimension(origin: real, size: real): (d: Dimension)
    ensures Min(d) == origin && Max(d) == origin + size
    ensures size != 0.0 ==> MapValue(d, origin) == 0.0 && MapValue(d, origin + size) == 1.0
  {
    Dimension(origin, size, 1.0)
  }

  /** `min` */
  function Min(d: Dimension): real
  {
    d.origin
  }

  /** `max` */
  function Max(d: Dimension): real
  {
    d.origin + d.size
  }

  /** `integral?` of the older `Dimension` class: these dimensions are never integral. */
  predicate Integral(d: Dimension)
  {
    false
  }

  /** Multiplying and dividing by the same nonzero real cancel, in either order. */
  lemma Cancel(a: real, b: real)
    ensures b != 0.0 ==> (a * b) / b == a && (a / b) * b == a
  {
  }

  /** `map`: normalise into 0..1, then multiply by the scale. */
  function MapValue(d: Dimension, value: real): (u: real)
    requires d.size != 0.0
    ensures value == Min(d) ==> u == 0.0
    ensures value == Max(d) ==> u == d.scale
    ensures d.scale != 0.0 ==> d.origin + (u / d.scale) * d.size == value
  {
    Cancel(value - d.origin, d.size);
    Cancel((value - d.origin) / d.size, d.scale);
    ((value - d.origin) / d.size) * d.scale
  }

  /** `unmap`: the inverse affine map. */
  function UnmapValue(d: Dimension, u: real): (value: real)
    requires d.scale != 0.0
    ensures u == 0.0 ==> value == Min(d)
    ensures u == d.scale ==> value == Max(d)
    ensures d.size != 0.0 ==> ((value - d.origin) / d.size) * d.scale == u
  {
    Cancel(u, d.scale);
    Cancel(u / d.scale, d.size);
    d.origin + (u / d.scale) * d.size
  }

  /** `dimension * factor`: same interval, scale multiplied. */
  function Scaled(d: Dimension, factor: real): (r: Dimension)
    ensures Min(r) == Min(d) && Max(r) == Max(d)
    ensures d.size != 0.0 ==> forall v :: MapValue(r, v) == MapValue(d, v) * factor
  {
    Dimension(d.origin, d.size, d.scale * factor)
  }

  lemma UnmapMapValue(d: Dimension, value: real)
    requires d.size != 0.0 && d.scale != 0.0
    ensures UnmapValue(d, MapValue(d, value)) == value
  {
    var n := (value - d.origin) / d.size;
    assert (n * d.scale) / d.scale == n;
    assert n * d.size == value - d.origin;
  }

  lemma MapUnmapValue(d: Dimension, u: real)
    requires d.size != 0.0 && d.scale != 0.0
    ensures MapValue(d, UnmapValue(d, u)) == u
  {
    var n := u / d.scale;
    assert (n * d.size) / d.size == n;
    assert n * d.scale == u;
  }

  /** The interval's ends map to 0 and to the scale. */
  lemma MapEnds(d: Dimension)
    requires d.size != 0.0
    ensures MapValue(d, Min(d)) == 0.0
    ensures MapValue(d, Max(d)) == d.scale
  {
  }

  /** With a positive size and scale, a value inside the interval maps inside 0..scale, and back. */
  lemma MapInRange(d: Dimension, value: real)
    requires d.size > 0.0 && d.scale > 0.0
    ensures Min(d) <= value <= Max(d) <==> 0.0 <= MapValue(d, value) <= d.scale
  {
    var n := (value - d.origin) / d.size;
    assert n * d.size == value - d.origin;
    if 0.0 <= n <= 1.0 {
      assert n * d.size <= d.size;
    }
    if Min(d) <= value <= Max(d) {
      assert n * d.size <= 1.0 * d.size;
    }
  }

  /** `map` is strictly increasing for positive size and scale. */
  lemma MapMonotone(d: Dimension, a: real, b: real)
    requires d.size > 0.0 && d.scale > 0.0
    requires a < b
    ensures MapValue(d, a) < MapValue(d, b)
  {
    var na := (a - d.origin) / d.size;
    var nb := (b - d.origin) / d.size;
    assert na * d.size < nb * d.size;
  }

  /** `Dimensions::LATITUDE` (also module-level `LATITUDE` in the older file). */
  const Latitude: Dimension := Dimension(-90.0, 180.0, 1.0)

  /** `Dimensions::LONGITUDE` (also module-level `LONGITUDE` in the older file). */
  const Longitude: Dimension := Dimension(-180.0, 360.0, 1.0)

  lemma LongitudeValues()
    ensures MapValue(Longitude, -180.0) == 0.0
    ensures MapValue(Longitude, 0.0) == 0.5
    ensures MapValue(Longitude, 180.0) == 1.0
    ensures UnmapValue(Longitude, 0.0) == -180.0
    ensures UnmapValue(Longitude, 0.5) == 0.0
    ensures UnmapValue(Longitude, 1.0) == 180.0
  {
    assert MapValue(Longitude, 0.0) == (180.0 / 360.0) * 1.0;
    assert MapValue(Longitude, 180.0) == (360.0 / 360.0) * 1.0;
    assert UnmapValue(Longitude, 0.5) == -180.0 + (0.5 / 1.0) * 360.0;
  }

  // ---------------------------------------------------------------------------
  // Dimensions: one Dimension per axis

  /** `count` */
  function Count(dims: seq<Dimension>): nat
  {
    |dims|
  }

  /** `dimensions * factor` */
  function ScaleAll(dims: seq<Dimension>, factor: real): (r: seq<Dimension>)
    ensures Count(r) == Count(dims)
    ensures forall i :: 0 <= i < |dims| ==> r[i] == Scaled(dims[i], factor)
  {
    seq(|dims|, i requires 0 <= i < |dims| => Scaled(dims[i], factor))
  }

  /** `origin`: the origin of each axis, in axis order. */
  function Origins(dims: seq<Dimension>): (r: seq<real>)
    ensures |r| == |dims|
    ensures forall i :: 0 <= i < |dims| ==> r[i] == dims[i].origin
  {
    seq(|dims|, i requires 0 <= i < |dims| => dims[i].origin)
  }

  /** `size`: the size of each axis, in axis order. */
  function Sizes(dims: seq<Dimension>): (r: seq<real>)
    ensures |r| == |dims|
    ensures forall i :: 0 <= i < |dims| ==> r[i] == dims[i].size
  {
    seq(|dims|, i requires 0 <= i < |dims| => dims[i].size)
  }

  /** The error Ruby raises when a method name is not understood. */
  datatype ScaleError = NoMethodError(name: string)

  /**
    `scale` as written: it sends `colect` to the array of dimensions, which no
    Array responds to, so every call raises, whatever the dimensions.
  */
  function ScalesAsWritten(dims: seq<Dimension>): (r: Result<seq<real>, ScaleError>)
    ensures r.Failure? && r.error.name != "collect"
  {
    Failure(NoMethodError("colect"))
  }

  /** `scale` as intended: the scale of each axis, in axis order. */
  function Scales(dims: seq<Dimension>): (r: seq<real>)
    ensures |r| == |dims|
    ensures forall i :: 0 <= i < |dims| ==> r[i] == dims[i].scale
  {
    seq(|dims|, i requires 0 <= i < |dims| => dims[i].scale)
  }

  /** Even with a single unit dimension, `scale` as written fails where the intended one answers `[1.0]`. */
  lemma ScaleRaises(d: Dimension)
    requires d.scale == 1.0
    ensures Scales([d]) == [1.0]
    ensures ScalesAsWritten([d]) != Success(Scales([d]))
  {
  }

  /** `min`: per axis, the lower end, which is the origin. */
  function Mins(dims: seq<Dimension>): (r: seq<real>)
    ensures r == Origins(dims)
  {
    seq(|dims|, i requires 0 <= i < |dims| => Min(dims[i]))
  }

  /** `max`: per axis, the upper end, origin plus size. */
  function Maxs(dims: seq<Dimension>): (r: seq<real>)
    ensures |r| == |dims|
    ensures forall i :: 0 <= i < |dims| ==> r[i] == Origins(dims)[i] + Sizes(dims)[i]
  {
    seq(|dims|, i requires 0 <= i < |dims| => Max(dims[i]))
  }

  /** Every axis has a nonzero size and scale, so `map` and `unmap` are defined. */
  predicate Invertible(dims: seq<Dimension>)
  {
    forall i :: 0 <= i < |dims| ==> dims[i].size != 0.0 && dims[i].scale != 0.0
  }

  /**
    `map(values)`: `dimensions.zip(values)` then map pointwise. Values beyond the
    last dimension are ignored; a missing value would be `nil`, which the source
    cannot subtract from.
  */
  function MapAll(dims: seq<Dimension>, values: seq<real>): (r: seq<real>)
    requires |values| >= |dims|
    requires forall i :: 0 <= i < |dims| ==> dims[i].size != 0.0
    ensures |r| == Count(dims)
    ensures forall i :: 0 <= i < |dims| ==> r[i] == MapValue(dims[i], values[i])
  {
    seq(|dims|, i requires 0 <= i < |dims| => MapValue(dims[i], values[i]))
  }

  /** `unmap(values)`: pointwise inverse. */
  function UnmapAll(dims: seq<Dimension>, values: seq<real>): (r: seq<real>)
    requires |values| >= |dims|
    requires forall i :: 0 <= i < |dims| ==> dims[i].scale != 0.0
    ensures |r| == Count(dims)
    ensures forall i :: 0 <= i < |dims| ==> r[i] == UnmapValue(dims[i], values[i])
  {
    seq(|dims|, i requires 0 <= i < |dims| => UnmapValue(dims[i], values[i]))
  }

  lemma UnmapMapAll(dims: seq<Dimension>, values: seq<real>)
    requires Invertible(dims)
    requires |values| >= |dims|
    ensures UnmapAll(dims, MapAll(dims, values)) == values[..|dims|]
  {
    forall i | 0 <= i < |dims|
      ensures UnmapAll(dims, MapAll(dims, values))[i] == values[i]
    {
      UnmapMapValue(dims[i], values[i]);
    }
  }

  lemma MapUnmapAll(dims: seq<Dimension>, values: seq<real>)
    requires Invertible(dims)
    requires |values| >= |dims|
    ensures MapAll(dims, UnmapAll(dims, values)) == values[..|dims|]
  {
    forall i | 0 <= i < |dims|
      ensures MapAll(dims, UnmapAll(dims, values))[i] == values[i]
    {
      MapUnmapValue(dims[i], values[i]);
    }
  }

  /** Scaling the dimensions scales every mapped value by the same factor. */
  lemma ScaleAllMap(dims: seq<Dimension>, factor: real, values: seq<real>)
    requires |values| >= |dims|
    requires forall i :: 0 <= i < |dims| ==> dims[i].size != 0.0
    ensures forall i :: 0 <= i < |dims| ==>
              MapAll(ScaleAll(dims, factor), values)[i] == MapAll(dims, values)[i] * factor
  {
  }

  /** `Dimensions.for_earth`: longitude then latitude. */
  function ForEarth(): (r: seq<Dimension>)
    ensures Mins(r) == [-180.0, -90.0] && Maxs(r) == [180.0, 90.0]
  {
    [Longitude, Latitude]
  }

  /** `Dimensions.from_ranges(*ranges)`: one unit-scale dimension per `lo..hi` range. */
  function FromRanges(ranges: seq<(real, real)>): (r: seq<Dimension>)
    requires forall i :: 0 <= i < |ranges| ==> ranges[i].0 <= ranges[i].1
    ensures Count(r) == |ranges|
    ensures forall i :: 0 <= i < |ranges| ==> Mins(r)[i] == ranges[i].0 && Maxs(r)[i] == ranges[i].1
    ensures forall i :: 0 <= i < |ranges| ==> r[i].scale == 1.0
  {
    seq(|ranges|, i requires 0 <= i < |ranges| => NewDimension(ranges[i].0, ranges[i].1 - ranges[i].0))
  }
}
