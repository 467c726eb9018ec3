# geospatial — a Dafny model of the Hilbert-curve core

This project models the core of the Ruby library `geospatial`. The library keys
points in n-dimensional space by their distance along a Hilbert curve, filters
objects by key ranges, and does 2D box, polygon and segment geometry. The model
states and proves properties of that core. It covers these modules:

- **Interleave** (`interleave.rb`): the bit transposition between a vector of
  per-axis integers and one integer. Bit j of axis i becomes bit j·n + (n−1−i).
- **Hilbert** (`hilbert.rb`): Skilling's transposed Hilbert transform, from
  "Programming the Hilbert curve". `map` takes ordinal coordinates to a
  transposed Hilbert index and `unmap` inverts it. Each Ruby loop is one
  recursive function. The inverse proof is structural:
  - every exchange step is an involution;
  - `unmap` replays `map`'s steps in reverse;
  - the Gray decode undoes the Gray encode bit by bit.
- **Indexes** (`index.rb`): `Index`, `HilbertIndex` and `OrdinalIndex`.
  - `from_integral` and `to_i` are inverses.
  - `to_ordinal` and `to_hilbert` are inverses.
  - `&` masks every axis.
  - `eql?` agrees with `hash`.
- **Dimensions** (`dimensions.rb`, `dimension.rb`): the affine map between an
  interval and `[0, scale]`, per axis and for a tuple of axes.
- **Curves** (`hilbert/curve.rb`): a curve of order k over some dimensions.
  - `map` floors a coordinate to its grid cell and returns the cell's Hilbert key.
  - `unmap` returns the lower corner of the cell at a given key.
- **CurveTraversal** (`hilbert/curve.rb`, `hilbert/traverse.rb`):
  `traverse_recurse` is modelled as the sequence of nodes it yields. The block is
  a pure predicate `skip`.
  - Prefixes come out in non-decreasing order.
  - Every node's key range nests inside its parent's.
  - A full traversal yields k + k² + … + kᵒʳᵈᵉʳ nodes, where k = 2^bit_width.
  - Skipping a node yields none of its descendants. A node above the leaves that
    is not skipped is followed by all 2^bit_width of its children.
  - Each leaf's prefix is the curve key of the leaf's origin.
- **Filters** (`filter.rb`): closed key ranges built from regions added in key
  order, and `apply`, which selects the objects whose key is covered.
- **GeoMaps** (`map.rb`): points with a memoised key, and `sort!`. The key
  function is a parameter.
- **Boxes**, **Polygons**, **Lines** (`box.rb`, `polygon.rb`, `line.rb`): the
  axis-aligned box with its half-open point test, the winding-number polygon
  test, and the segment intersection test.
- **PolygonExample**: the triangle (0,0), (1,0), (0,1). `include_point?` is
  characterised for every point of the plane.

Integers are unbounded, as Ruby's Integers are; negative values are not modelled
(see Curves.MapCoords). The bit operations in module `Bits` are defined
arithmetically, with per-bit lemmas. Floating-point values are modelled as `real`.

A full traversal of a curve of order o with d axes yields
Σ_{i=1..o} (2^d)^i nodes. That is 4 + 16 = 20 for d = 2 and o = 2, as the
traversal's own test expects. The code yields nodes at levels o−1 down to 0,
so it does not yield the whole curve as a node of its own. The model follows
the code.

## Model

| member | source | states |
|---|---|---|
| Interleave.PositionInverse | lib/geospatial/interleave.rb:34-37 | The output position j·n + (n−1−i) determines both the axis i and the bit plane j, so no two input bits collide. |
| Interleave.PositionOfParts | lib/geospatial/interleave.rb:34-37 | Every output bit position is the position of exactly one (axis, plane) pair. |
| Interleave.SpreadAxisBits | lib/geospatial/interleave.rb:36-42 | After the `bits.times` loop for one axis, the output bits in that axis's residue class hold the axis's bits below `bits`, and every other bit is unchanged. |
| Interleave.MapFromBits | lib/geospatial/interleave.rb:33-43 | After the loop over axes i.., every output bit is characterised: it comes from one of those axes or from the starting value. |
| Interleave.MapPlacesBits | lib/geospatial/interleave.rb:30-46 | Bit j of axis i appears at output bit j·n + (n−1−i) exactly when j < bits. Axis 0 supplies the most significant bit of each group. |
| Interleave.MapBits | lib/geospatial/interleave.rb:30-46 | Every bit of `map(v, bits)` is characterised, including the bits from planes at or above `bits`, which are zero. |
| Interleave.Map | lib/geospatial/interleave.rb:30-46 | `map(index, bits)` of n axes is an integer of at most n·bits bits, whatever the axes hold above `bits`. |
| Interleave.MapBounded | lib/geospatial/interleave.rb:30-46 | The interleaved integer has at most n·bits bits. |
| Interleave.EarlyExitIsHarmless | lib/geospatial/interleave.rb:41 | The `break if x == 0` shortcut gives the same result as running all `bits` iterations. |
| Interleave.Unmap | lib/geospatial/interleave.rb:48-67 | `unmap` returns `width` axes, all zero for the key 0. |
| Interleave.DepositBits | lib/geospatial/interleave.rb:55-58 | The inner `width.times` loop ORs bit i of the key into bit `offset` of axis width−1−i and leaves every other bit as it was. |
| Interleave.UnmapFromBits | lib/geospatial/interleave.rb:53-64 | After the `while integral != 0` loop, bit k of axis a is bit (k−offset)·width + (width−1−a) of the remaining key, for every k ≥ offset. |
| Interleave.UnmapBits | lib/geospatial/interleave.rb:48-67 | Bit j of axis a of `unmap(k, w)` is bit j·w + (w−1−a) of k, the inverse placement of `map`. |
| Interleave.UnmapMap | lib/geospatial/interleave.rb:30-67 | `unmap(map(v, bits), v.size) == v` whenever every axis fits in `bits` bits. |
| Interleave.MapUnmap | lib/geospatial/interleave.rb:30-67 | `map(unmap(k, n), bits) == k` whenever k has at most n·bits bits. |
| Hilbert.ExchangeInvolution | lib/geospatial/hilbert.rb:59-65 | One exchange step applied twice restores the axes. The step either inverts the low bits of axis 0 or swaps the low bits of axes 0 and i. |
| Hilbert.ExchangeDownUndoesUp | lib/geospatial/hilbert.rb:57-68 | `unmap`'s downward loop over the axes undoes `map`'s upward loop over the same plane. |
| Hilbert.ExchangeUpUndoesDown | lib/geospatial/hilbert.rb:92-104 | `map`'s upward loop over the axes undoes `unmap`'s downward loop over the same plane. |
| Hilbert.UndoExcessAfterInverseUndo | lib/geospatial/hilbert.rb:52-71 | The "undo excess work" loop, from plane 2 upward, cancels the "inverse undo" loop, from the top plane downward. |
| Hilbert.InverseUndoAfterUndoExcess | lib/geospatial/hilbert.rb:88-107 | The "inverse undo" loop cancels the "undo excess work" loop. |
| Hilbert.ExchangeBounded | lib/geospatial/hilbert.rb:59-65 | An exchange step keeps every axis below 2^bits. |
| Hilbert.InverseUndoBounded | lib/geospatial/hilbert.rb:88-107 | The "inverse undo" loop keeps every axis below 2^bits. |
| Hilbert.UndoExcessBounded | lib/geospatial/hilbert.rb:52-71 | The "undo excess work" loop keeps every axis below 2^bits. |
| Hilbert.PrefixXorSpec | lib/geospatial/hilbert.rb:110 | After `1.upto(n-1) { x[i] ^= x[i-1] }`, each axis is its input XOR the previous output: a running XOR of the axes. |
| Hilbert.XorDownSpec | lib/geospatial/hilbert.rb:49 | After `(n-1).downto(1) { x[i] ^= x[i-1] }`, each axis is XORed with its original predecessor. |
| Hilbert.ParityOfGray | lib/geospatial/hilbert.rb:112-120 | The parity of bits lo..hi of h ^ (h >> 1) telescopes to bit lo of h XOR bit hi+1 of h. |
| Hilbert.GrayMaskOfGray | lib/geospatial/hilbert.rb:112-120 | The mask `t` computed from the Gray code h ^ (h >> 1) is h >> 1, so the encode's `t` matches the decode's `t`. |
| Hilbert.GrayDecodeEncode | lib/geospatial/hilbert.rb:46-50 | The Gray decode of `unmap` undoes the Gray encode of `map` on vectors within `bits` bits. |
| Hilbert.GrayEncodeDecode | lib/geospatial/hilbert.rb:109-122 | The Gray encode of `map` undoes the Gray decode of `unmap` on vectors within `bits` bits. |
| Hilbert.Map | lib/geospatial/hilbert.rb:83-125 | `map` returns one transposed axis per input axis, and the empty vector maps to the empty vector. |
| Hilbert.Unmap | lib/geospatial/hilbert.rb:41-74 | `unmap` returns one ordinal axis per transposed axis. |
| Hilbert.MapBounded | lib/geospatial/hilbert.rb:83-125 | `map` keeps every axis below 2^bits. |
| Hilbert.UnmapBounded | lib/geospatial/hilbert.rb:41-74 | `unmap` keeps every axis below 2^bits. |
| Hilbert.UnmapMap | lib/geospatial/hilbert.rb:41-125 | `unmap(map(x, b), b) == x` for every non-empty vector within b ≥ 1 bits. |
| Hilbert.MapUnmap | lib/geospatial/hilbert.rb:41-125 | `map(unmap(h, b), b) == h` for every non-empty vector within b ≥ 1 bits, so `map` is a bijection on the grid. |
| Hilbert.OriginIsStart | lib/geospatial/hilbert.rb:41-125 | The origin of the grid is at Hilbert distance 0, in both directions. |
| Hilbert.FirstOrderSquare | lib/geospatial/hilbert.rb:41-74 | With two axes and one bit, the transposed indices 00, 01, 10 and 11 unmap to the cells (0,0), (0,1), (1,1) and (1,0): the U shape of the first-order curve. |
| Hilbert.MapOneBit | lib/geospatial/hilbert.rb:83-125 | With one bit per axis, no exchange happens and `map` is a running XOR of the axes. |
| Hilbert.UnmapOneBit | lib/geospatial/hilbert.rb:41-74 | With one bit per axis, `unmap` XORs each axis with its predecessor. |
| Indexes.BitLength | lib/geospatial/index.rb:57-59 | `bit_length` bounds the key of every well-formed index: `to_i` < 2^bit_length. |
| Indexes.ToI | lib/geospatial/index.rb:53-55 | `to_i` places bit j of axis i at bit j·n + (n−1−i) of the key and sets no other bit. |
| Indexes.FromIntegral | lib/geospatial/index.rb:34-36 | `from_integral` keeps the class and bit count, returns `width` axes, and for every key below 2^(width·bits) returns a well-formed index whose `to_i` is that key. |
| Indexes.FromIntegralToI | lib/geospatial/index.rb:34-55 | Splitting the key of a well-formed index gives back the same index. |
| Indexes.Mask | lib/geospatial/index.rb:41-43 | `&` keeps class and bit count, and each axis keeps exactly the bits set in both the axis and the mask. |
| Indexes.MaskIdempotent | lib/geospatial/index.rb:41-43 | Masking twice with the same mask is the same as masking once. |
| Indexes.MaskLowBitsIdentity | lib/geospatial/index.rb:41-43 | Masking a well-formed index with all of its low bits changes nothing. |
| Indexes.Eql | lib/geospatial/index.rb:49-51 | `eql?` holds exactly when class, axes and bit count all agree. |
| Indexes.HashConsistent | lib/geospatial/index.rb:45-51 | `eql?` indices hash alike, as Ruby's Hash requires of `hash` and `eql?`. |
| Indexes.ToOrdinal | lib/geospatial/index.rb:69-71 | `to_ordinal` yields an `OrdinalIndex` of the same shape and keeps axes within `bits` bits. |
| Indexes.ToHilbert | lib/geospatial/index.rb:76-78 | `to_hilbert` yields a `HilbertIndex` of the same shape and keeps axes within `bits` bits. |
| Indexes.ToHilbertToOrdinal | lib/geospatial/index.rb:69-78 | `to_ordinal` followed by `to_hilbert` gives back the Hilbert index. |
| Indexes.ToOrdinalToHilbert | lib/geospatial/index.rb:69-78 | `to_hilbert` followed by `to_ordinal` gives back the grid point. |
| Indexes.HilbertDistance | lib/geospatial/index.rb:76-78 | The Hilbert distance of a grid point is below 2^(n·bits). It is 0 for a point with no axes and for a width of 0 bits, as in Ruby, where both the Hilbert map and the interleave accept these inputs. |
| Indexes.HilbertPoint | lib/geospatial/index.rb:34-74 | The grid point at a distance has `width` axes, and for a distance below 2^(width·bits) each axis fits in `bits` bits. |
| Indexes.HilbertPointDistance | lib/geospatial/index.rb:34-78 | The grid point at distance d has Hilbert distance d. |
| Indexes.HilbertDistancePoint | lib/geospatial/index.rb:34-78 | The point at a grid point's distance is that grid point: distance and point determine each other. |
| Indexes.FirstFourCells | spec/geospatial/hilbert_traverse_spec.rb:17-20 | On the 4×4 grid, the curve's first four cells, at distances 0 to 3, are (0,0), (1,0), (1,1) and (0,1). |
| Dimensions.NewDimension | lib/geospatial/dimensions.rb:26-30 | A new dimension spans [origin, origin + size], and maps its ends to 0 and 1. |
| Dimensions.MapValue | lib/geospatial/dimensions.rb:57-59 | `map` sends `min` to 0 and `max` to the scale, and the `unmap` formula recovers the value from its image. |
| Dimensions.UnmapValue | lib/geospatial/dimensions.rb:61-63 | `unmap` sends 0 to `min` and the scale to `max`, and the `map` formula recovers the image from the value. |
| Dimensions.Scaled | lib/geospatial/dimensions.rb:40-42 | `dimension * factor` keeps the interval and multiplies every mapped value by the factor. |
| Dimensions.UnmapMapValue | lib/geospatial/dimensions.rb:57-63 | `unmap(map(v)) == v` for a non-degenerate dimension. |
| Dimensions.MapUnmapValue | lib/geospatial/dimensions.rb:57-63 | `map(unmap(u)) == u` for a non-degenerate dimension. |
| Dimensions.MapEnds | lib/geospatial/dimension.rb:53-55 | `map` sends `min` to 0 and `max` to the scale. |
| Dimensions.MapInRange | lib/geospatial/dimensions.rb:57-59 | With positive size and scale, a value lies in [min, max] exactly when its image lies in [0, scale]. |
| Dimensions.MapMonotone | lib/geospatial/dimensions.rb:57-59 | With positive size and scale, `map` is strictly increasing. |
| Dimensions.LongitudeValues | spec/geospatial/dimensions_spec.rb:23-34 | The longitude dimension maps −180, 0 and 180 to 0, 0.5 and 1, and unmaps them back. |
| Dimensions.ScaleAll | lib/geospatial/dimensions.rb:87-89 | `dimensions * factor` scales every axis and keeps the axis count. |
| Dimensions.ScaleAllMap | lib/geospatial/dimensions.rb:87-89 | Scaling the dimensions scales every mapped coordinate by the same factor. |
| Dimensions.Origins | lib/geospatial/dimensions.rb:91-93 | `origin` lists each axis's origin, in axis order. |
| Dimensions.Sizes | lib/geospatial/dimensions.rb:95-97 | `size` lists each axis's size, in axis order. |
| Dimensions.ScalesAsWritten | lib/geospatial/dimensions.rb:99-101 | `scale` as written never answers: it sends `colect`, not `collect`. |
| Dimensions.Scales | lib/geospatial/dimensions.rb:99-101 | `scale` as intended lists each axis's scale, in axis order. |
| Dimensions.ScaleRaises | lib/geospatial/dimensions.rb:99-101 | On a single unit dimension, the intended `scale` is `[1.0]`, and the written one fails. |
| Dimensions.Mins | lib/geospatial/dimensions.rb:103-105 | `min` is the list of origins. |
| Dimensions.Maxs | lib/geospatial/dimensions.rb:107-109 | `max` is origin plus size, per axis. |
| Dimensions.MapAll | lib/geospatial/dimensions.rb:111-113 | `map` answers, for each dimension in order, that dimension's `map` of the value at the same position; values beyond the last dimension are ignored. |
| Dimensions.UnmapAll | lib/geospatial/dimensions.rb:115-117 | `unmap` answers, for each dimension in order, that dimension's `unmap` of the value at the same position. |
| Dimensions.UnmapMapAll | lib/geospatial/dimensions.rb:111-117 | `unmap(map(values))` gives back the values, one per axis. |
| Dimensions.MapUnmapAll | lib/geospatial/dimensions.rb:111-117 | `map(unmap(values))` gives back the values, one per axis. |
| Dimensions.ForEarth | lib/geospatial/dimensions.rb:119-124 | The earth's dimensions are longitude [−180, 180] then latitude [−90, 90]. |
| Dimensions.FromRanges | lib/geospatial/dimensions.rb:126-128 | `from_ranges` makes one unit-scale dimension per range, spanning that range. |
| Curves.NewCurve | lib/geospatial/hilbert/curve.rb:27-37 | A curve of order k keeps the dimensions' origins and sizes, multiplies every axis's scale by 2^k, and keeps invertibility. |
| Curves.BitWidth | lib/geospatial/hilbert/curve.rb:62-64 | `bit_width` is the number of dimensions, at least one on a well-formed curve. |
| Curves.CellOf | lib/geospatial/hilbert/curve.rb:93 | The cell of a coordinate is the floor of each mapped value. |
| Curves.MapCoords | lib/geospatial/hilbert/curve.rb:92-98 | The key of a coordinate inside the curve's extent is below 2^(n·order). |
| Curves.UnmapKey | lib/geospatial/hilbert/curve.rb:100-104 | `unmap` answers one coordinate per axis. |
| Curves.CellOfCorner | lib/geospatial/hilbert/curve.rb:92-104 | Flooring the mapped corner of an integral cell gives back that cell. |
| Curves.MapUnmapKey | lib/geospatial/hilbert/curve.rb:92-104 | Every key below 2^(n·order) names a cell whose corner `map`s back to the key. |
| Curves.UnmapMapCoords | lib/geospatial/hilbert/curve.rb:92-104 | For a coordinate inside the extent, `unmap(map(x))` is the lower corner of x's cell: on every axis it is at most x and more than x − size/scale. |
| Curves.CornerBelow | lib/geospatial/hilbert/curve.rb:100-104 | A value that maps into [a, a+1) lies within one cell width above `unmap(a)`. |
| Curves.UnmapMonotone | lib/geospatial/dimensions.rb:61-63 | With positive size and scale, `unmap` is strictly increasing. |
| CurveTraversal.Halve | lib/geospatial/hilbert/curve.rb:68 | The half size is exactly half of each axis's size. |
| CurveTraversal.Child | lib/geospatial/hilbert/curve.rb:73-80 | Child `prefix` of a node starts at key `child_value`·2^(order·bit_width), carries the loop's order and the half size, and has one origin coordinate per axis. |
| CurveTraversal.Region | lib/geospatial/hilbert/curve.rb:72-88 | One loop iteration yields the child first, at the current order and starting at its own region's first key. |
| CurveTraversal.Children | lib/geospatial/hilbert/curve.rb:71-89 | The loop from child idx on yields at least one node per remaining child. |
| CurveTraversal.TraverseRecurse | lib/geospatial/hilbert/curve.rb:67-90 | `traverse_recurse` yields at least the 2^bit_width children of the node. |
| CurveTraversal.Traverse | lib/geospatial/hilbert/curve.rb:56-60 | `traverse` yields at least 2^bit_width nodes, each at an order below the curve's order. |
| CurveTraversal.ChildValueIsArith | lib/geospatial/hilbert/curve.rb:73 | `(value << bit_width) \| prefix` is value·2^bit_width + prefix, because the child index fits below the shift. |
| CurveTraversal.ChildPrefixIsArith | lib/geospatial/hilbert/curve.rb:73-74 | A child's prefix is its value followed by order·bit_width zero bits. |
| CurveTraversal.ChildPrefixLowBits | lib/geospatial/hilbert/curve.rb:74 | The low order·bit_width bits of a child's prefix are clear. |
| CurveTraversal.RegionRange | lib/geospatial/hilbert/curve.rb:71-89 | One loop iteration yields nodes in prefix order, all inside the yielded child's key range and at its level or below. |
| CurveTraversal.ChildrenRange | lib/geospatial/hilbert/curve.rb:71-89 | The children idx.. of a node, with everything below them, come out in prefix order inside the parent's remaining key range. |
| CurveTraversal.TraverseRange | lib/geospatial/hilbert/curve.rb:67-90 | `traverse_recurse` yields nodes in prefix order, all inside the key range of the value it was given. |
| CurveTraversal.TraverseSorted | spec/geospatial/hilbert_traverse_spec.rb:41-42 | `traverse` yields prefixes in non-decreasing order, all below 2^(bit_width·order). |
| CurveTraversal.RegionCount | lib/geospatial/hilbert/curve.rb:84-88 | Without `:skip`, one child at level o accounts for 1 + k + … + k^o nodes, where k is the fanout. |
| CurveTraversal.ChildrenCount | lib/geospatial/hilbert/curve.rb:71-89 | Without `:skip`, the children idx.. account for (k − idx) times the size of one subtree. |
| CurveTraversal.TraverseCount | lib/geospatial/hilbert/curve.rb:67-90 | Without `:skip`, `traverse_recurse` at level o yields k + k² + … + k^(o+1) nodes. |
| CurveTraversal.FullTraverseCount | lib/geospatial/hilbert/curve.rb:56-60 | A full traversal of a curve of order o yields Σ_{i=1..o} (2^bit_width)^i nodes. |
| CurveTraversal.SquareTraverseCount | spec/geospatial/hilbert_traverse_spec.rb:10-14 | On two axes at order 2, the traversal yields 4 + 16 = 20 nodes. |
| CurveTraversal.RegionPruned | lib/geospatial/hilbert/curve.rb:84-88 | Within one loop iteration, no node lies below a node the block skipped. |
| CurveTraversal.TraversePruned | lib/geospatial/hilbert/traverse.rb:56-60 | No node yielded by `traverse_recurse` lies below a node the block skipped. |
| CurveTraversal.SkipPrunesSubtree | lib/geospatial/hilbert/curve.rb:84-88 | Returning `:skip` for a node means nothing inside its key range at a lower level is yielded. |
| CurveTraversal.RecurseLevel | lib/geospatial/hilbert/curve.rb:67-89 | The first level of `traverse_recurse` for a region is its 2^bit_width children in index order, and all of them lie inside the region's key range. |
| CurveTraversal.RegionDescends | lib/geospatial/hilbert/curve.rb:72-88 | A node above the leaves for which the block does not return `:skip` is followed, one level down, by exactly its 2^bit_width children in index order, each inside the node's key range. |
| CurveTraversal.PrefixMaskStep | lib/geospatial/hilbert/curve.rb:69 | `(1 << order) \| mask` adds bit plane `order` to the mask of the planes above it. |
| CurveTraversal.HalfSizes | lib/geospatial/hilbert/curve.rb:68 | Halving a level's size gives the next level's size, which is the full extent over 2^(order − level). |
| CurveTraversal.TraverseOk | lib/geospatial/hilbert/curve.rb:67-90 | Every node `traverse_recurse` yields has the size of its level. Its origin is the unmapped grid cell of its prefix, masked to the planes above its level. |
| CurveTraversal.TraverseNodes | lib/geospatial/hilbert/curve.rb:56-60 | Every node `traverse` yields is well formed in that sense. |
| CurveTraversal.LeafOrigin | lib/geospatial/hilbert/curve.rb:76-80 | At level 0 the mask keeps every plane, so a leaf's origin is `unmap` of its prefix. |
| CurveTraversal.LeafKeys | spec/geospatial/hilbert_traverse_spec.rb:52-61 | For every leaf the traversal yields, `map` of its origin is its prefix. |
| CurveTraversal.AtLevel | lib/geospatial/hilbert/curve.rb:84 | Selecting one level's nodes keeps only nodes at that level. |
| CurveTraversal.RegionLevel | lib/geospatial/hilbert/curve.rb:84-88 | Within one loop iteration, the only node at the child's level is the child. |
| CurveTraversal.ChildrenLevel | lib/geospatial/hilbert/curve.rb:71-89 | The nodes at the children's level are exactly the children, in index order. |
| CurveTraversal.TopLevel | lib/geospatial/hilbert/curve.rb:56-60 | The top level of `traverse` is the 2^bit_width children of the whole curve, in key order, each with half the extent. |
| Filters.NewRange | lib/geospatial/filter.rb:24-27 | A new range starts at the prefix and is never empty. |
| Filters.Includes | lib/geospatial/filter.rb:43-45 | A range includes keys only when it is non-empty, and a non-empty range includes both of its ends. |
| Filters.Expand | lib/geospatial/filter.rb:37-41 | `expand!` succeeds exactly when the region starts right after the range, and then keeps the range's start and covers the region's start. |
| Filters.Add | lib/geospatial/filter.rb:61-69 | `add` raises exactly when the prefix is not past the last range's maximum. Otherwise it extends the last range when the region is adjacent and appends a new range when it is not. |
| Filters.AddKeepsGapped | lib/geospatial/filter.rb:61-69 | `add` keeps the ranges non-empty, ordered and non-adjacent. |
| Filters.GappedOrdered | lib/geospatial/filter.rb:61-69 | In ranges built by `add`, every earlier range ends before every later one begins. |
| Filters.RangesDisjoint | lib/geospatial/filter.rb:43-45 | In ranges built by `add`, a key is included by at most one range. |
| Filters.AddCovers | lib/geospatial/filter.rb:61-69 | After `add`, the covered keys are the previously covered keys plus exactly the region [prefix, prefix \| (2^(2·order) − 1)]. |
| Filters.AddRejectsOverlap | lib/geospatial/filter.rb:62-64 | A prefix at or below the last range's maximum raises. |
| Filters.RegionSpan | lib/geospatial/filter.rb:49-52 | A region whose low 2·order bits are clear spans exactly 2^(2·order) keys. |
| Filters.Apply | lib/geospatial/filter.rb:71-74 | `apply` returns no more objects than it was given. |
| Filters.ApplyMembers | lib/geospatial/filter.rb:71-74 | `apply` keeps an object exactly when it was given and some range includes its key. |
| Filters.ApplyConcat | lib/geospatial/filter.rb:71-74 | `apply` works object by object: filtering a concatenation concatenates the results. |
| Filters.ApplyIdempotent | lib/geospatial/filter.rb:71-74 | Applying the filter to its own result changes nothing. |
| Filters.AdjacentRegionsMerge | lib/geospatial/filter.rb:61-69 | Adjacent regions merge into one range, a gap starts a new range, and an overlapping prefix is refused. |
| GeoMaps.NewPoint | lib/geospatial/map.rb:30-33 | A new point has no key computed yet. |
| GeoMaps.Hash | lib/geospatial/map.rb:37-39 | `hash` answers the location's key and leaves the point with that key memoised. |
| GeoMaps.HashMemoised | lib/geospatial/map.rb:37-39 | The key is computed at most once: asking again answers the same and changes nothing. |
| GeoMaps.NewMap | lib/geospatial/map.rb:44-51 | A new map has no points and 2^order cells on each of its two axes. |
| GeoMaps.Append | lib/geospatial/map.rb:61-63 | `<<` appends one point for the location at the end and keeps the others. |
| GeoMaps.Count | lib/geospatial/map.rb:65-67 | `count` is the number of points added, repeats included, and is zero exactly for a map with no points. |
| GeoMaps.AppendKeepsCaches | lib/geospatial/map.rb:61-63 | Appending keeps every memoised key correct. |
| GeoMaps.Fill | lib/geospatial/map.rb:69-71 | Evaluating `hash` on every point fills every memo and keeps every location. |
| GeoMaps.SortPoints | lib/geospatial/map.rb:69-71 | Sorting by key yields a permutation of the points in non-decreasing key order. |
| GeoMaps.Sort | lib/geospatial/map.rb:69-71 | `sort!` keeps the count, the order and the scale. |
| GeoMaps.SortOrdersByHash | spec/geospatial/map_spec.rb:52-60 | After `sort!`, the points are the same points with their keys memoised, and the memoised keys never decrease. |
| GeoMaps.KeysFitIn60Bits | lib/geospatial/map.rb:26-27 | With ORDER = 30 and two axes, every Hilbert key fits in 60 bits. |
| Boxes.FromBounds | lib/geospatial/box.rb:26-28 | `from_bounds(min, max)` has those corners, and origin + size is max. |
| Boxes.NewBox | lib/geospatial/box.rb:52-56 | A box made from origin and size has its maximum at origin + size. |
| Boxes.Max | lib/geospatial/box.rb:52-56 | `max` is the supplied maximum when one was given, and otherwise lies `size` beyond the minimum. |
| Boxes.Corners | lib/geospatial/box.rb:80-89 | `corners` yields four points: the minimum, (max.x, min.y), the maximum, then (min.x, max.y), going round the box. |
| Boxes.CornersAreDistinct | lib/geospatial/box.rb:80-89 | For a box with area, the four corners are pairwise distinct, and each lies in the closed box. |
| Boxes.Midpoints | lib/geospatial/box.rb:96-105 | `midpoints` yields four points. |
| Boxes.MidpointsBetweenCorners | lib/geospatial/box.rb:96-105 | Midpoint k lies halfway between corner k and corner k+1, going round the box. |
| Boxes.CenterIsMidpoint | lib/geospatial/box.rb:91-93 | The center is halfway between the minimum and maximum corners. |
| Boxes.Center | lib/geospatial/box.rb:91-93 | The center lies half of `size` beyond the origin, and for a box whose maximum is origin + size it is equally far from both corners. |
| Boxes.EnclosingPoints | lib/geospatial/box.rb:32-49 | `enclosing_points` is nil exactly for no points. |
| Boxes.EncloseBounds | lib/geospatial/box.rb:38-46 | The running bounds only widen, and they contain every point seen. |
| Boxes.EncloseAttained | lib/geospatial/box.rb:38-46 | Each running bound is either the starting bound or a coordinate of some point. |
| Boxes.EnclosingPointsTight | lib/geospatial/box.rb:32-49 | The box around non-empty points is ordered, holds every point (closed), and each of its four bounds is a coordinate of some point. |
| Boxes.IncludePoint | lib/geospatial/box.rb:107-113 | `include_point?` holds exactly for points in the half-open box [min, max) on both axes. |
| Boxes.Includes | lib/geospatial/box.rb:115-117 | `include?` holds exactly when both corners of the other box lie in [min, max) on both axes. |
| Boxes.Intersects | lib/geospatial/box.rb:119-128 | `intersect?` holds exactly when, on both axes, the other box starts at or before this one's maximum and ends at or after its minimum. |
| Boxes.MaxNotIncluded | lib/geospatial/box.rb:107-113 | A box's maximum corner is never one of its points. |
| Boxes.NeverIncludesItself | lib/geospatial/box.rb:115-117 | As written, `include?` rejects every box as a part of itself. |
| Boxes.ContainsIsOrder | lib/geospatial/box.rb:115-117 | Closed containment is reflexive and transitive, and it accepts whatever `include?` accepts. |
| Boxes.IntersectsSymmetric | lib/geospatial/box.rb:119-128 | `intersect?` gives the same answer whichever box asks. |
| Boxes.IntersectsIffCommonPoint | lib/geospatial/box.rb:119-128 | Two ordered boxes intersect exactly when some point lies in both closed boxes, so touching boxes intersect. |
| Polygons.Edges | lib/geospatial/polygon.rb:49-57 | `edges` yields one edge per vertex. |
| Polygons.IsLeft | lib/geospatial/polygon.rb:59-64 | `is_left` is zero when any two of the three points coincide, and measuring from p1 instead of p0 gives the same cross product. |
| Polygons.EdgesFormCycle | lib/geospatial/polygon.rb:49-57 | Edge i ends at vertex i, and each edge ends where the next one starts, wrapping from the last to the first. |
| Polygons.IsLeftAntisymmetric | lib/geospatial/polygon.rb:59-64 | Swapping the last two points negates `is_left`. |
| Polygons.IsLeftDegenerate | lib/geospatial/polygon.rb:59-64 | `is_left` is zero when the third point is one of the first two. |
| Polygons.Crossing | lib/geospatial/polygon.rb:73-81 | One edge moves the winding count by −1, 0 or +1. |
| Polygons.WindingNumber | lib/geospatial/polygon.rb:69-86 | The winding number is at most the vertex count in absolute value. |
| Polygons.BoundingBox | lib/geospatial/polygon.rb:38-40 | The bounding box is absent exactly for no vertices; otherwise it is ordered, holds every vertex, and each of its bounds is a vertex coordinate. |
| Polygons.WindingSumOutsideBand | lib/geospatial/polygon.rb:69-86 | A point strictly above or strictly below every edge has winding number 0. |
| Polygons.VertexNotCrossed | lib/geospatial/polygon.rb:73-81 | An edge never counts its own endpoints. |
| Polygons.HorizontalEdgeNotCrossed | lib/geospatial/polygon.rb:73-81 | A horizontal edge never changes the winding count. |
| Polygons.InPolygon | lib/geospatial/polygon.rb:88-92 | `include_point?` fails exactly for the empty polygon. A point it includes lies in the bounding box and has winding number 1. |
| Polygons.InPolygonIff | lib/geospatial/polygon.rb:88-92 | `include_point?` holds exactly when the bounding box includes the point and the winding number is 1. |
| Polygons.OutsideBoxExcluded | lib/geospatial/polygon.rb:88-89 | A point outside the bounding box is never included. |
| PolygonExample.TriangleBox | lib/geospatial/polygon.rb:38-40 | The bounding box of the triangle (0,0), (1,0), (0,1) has corners (0,0) and (1,1). |
| PolygonExample.TriangleWindingValue | lib/geospatial/polygon.rb:69-86 | Inside the triangle's box, the winding number is 1 strictly below the hypotenuse and 0 elsewhere. |
| PolygonExample.TriangleIncludesExactly | spec/geospatial/polygon_spec.rb:43-55 | The triangle includes exactly the points with x ≥ 0, y ≥ 0 and x + y < 1. So (0,0) and (0.2,0.2) are in, and (1,0.5) is out. |
| Lines.Offset | lib/geospatial/line.rb:33-35 | `offset` is the vector that carries `a` to `b`. |
| Lines.EndpointsOnSegment | lib/geospatial/line.rb:33-35 | The segment is at `a` at time 0 and at `b` at time 1. |
| Lines.Intersect | lib/geospatial/line.rb:37-62 | Any time `intersect?` reports is within [0, 1]. |
| Lines.TimesMeet | lib/geospatial/line.rb:41-55 | For non-parallel segments, the times na/d and nb/d reach the same point on both lines. |
| Lines.MeetingTimesUnique | lib/geospatial/line.rb:41-55 | For non-parallel segments, na/d and nb/d are the only times at which the lines meet. |
| Lines.IntersectIff | lib/geospatial/line.rb:37-62 | `intersect?` reports s exactly when the segments are not parallel and meet at time s on this one and at some time in [0, 1] on the other. |
| Lines.IntersectSymmetric | lib/geospatial/line.rb:37-62 | Either segment finds the crossing, and both reported times name the same point. |
| Lines.OverlapNotReported | lib/geospatial/line.rb:43 | Collinear overlapping segments share points yet are never reported, because d is zero. |
| Lines.DiagonalsCross | lib/geospatial/line.rb:37-62 | The diagonals of the unit square cross halfway along. |

## Left out

- Floating point: coordinates, sizes and scales are exact `real`s. Ruby evaluates them in IEEE doubles (`to_f`, `fdiv`, `* 0.5`), so rounding is not modelled. That is why `map`/`unmap` round trips are exact here. Box `center` and `midpoints` divide by 2, which is integer division for integer vectors in Ruby; here it is always real division.
- Curves.MapCoords: requires the coordinate's cell to be non-negative on every axis. A point below the curve's origin gives Ruby negative integers with two's-complement bit behaviour, which `nat` does not model.
- Curves.CurveOk: requires at least one dimension, and every curve member assumes it. On a curve with no dimensions Ruby's `map` answers 0, the interleave of no axes. `unmap` and `traverse` raise there, because `Hilbert.unmap` reads `x[n-1]` of an empty vector.
- Curves.NewCurve: `order >= 1` is a precondition. Ruby raises on smaller orders; that call is `ArgumentError(...)`, which in fact raises a NoMethodError. Orders are not bounded above, as the code does not bound them.
- Interleave.Unmap: requires `width > 0` unless the key is 0. With width 0 and a non-zero key the Ruby `while integral != 0` loop never ends.
- Hilbert.Unmap: requires at least one axis and `bits >= 1`. With no axes Ruby fails on `x[n-1] >> 1`; with `bits == 0` the `while q != m` loop never ends.
- Dimensions.MapAll: requires at least one value per dimension. A missing value is `nil` in the Ruby `zip`, and `nil` arithmetic raises.
- Dimensions.MapValue / UnmapValue: `map` requires a nonzero size and `unmap` a nonzero scale. `Dimensions.Invertible` and `Curves.CurveOk` require both. Ruby divides in Float here (`to_f`, and a Float default scale), so a zero divisor gives ±Infinity or NaN rather than an error. `real` has no such values.
- Dimensions.FromRanges: requires `lo <= hi` for every range. On an empty Ruby range, `range.min` is nil and `nil - nil` raises NoMethodError; that error is not modelled.
- Errors become values. A raise in `Filter#add` is `Failure`. Ruby's `false`/`nil` from `Line#intersect?` and `Box.enclosing_points` is `None`. The empty polygon, on which `include_point?` fails calling a method on `nil`, is `None`.
- Mutation is modelled as returning new values: the `@ranges` of a filter, the `@points` of a map, and the memoised `@hash` of a point. Freezing (`freeze`) is not modelled.
- GeoMaps: `location_hash` is not modelled. It needs `AlignedBox#integral_offset` and `Hilbert.hash`, which are not part of this model, so the key of a location is the parameter `key`.
- GeoMaps: `Map#query` is not modelled; its body is unfinished and computes nothing.
- GeoMaps.Sort: the order among points with equal keys is not stated. Ruby's `sort_by!` does not promise one.
- CurveTraversal: the block is a pure predicate on the yielded node (true for `:skip`). The `origin` argument of `traverse_recurse` is passed down but never read, so it is not modelled. `lib/geospatial/hilbert/traverse.rb` repeats the traversal of `curve.rb` line for line; one model serves both. The `to_enum` form without a block is not modelled.
- Indexes: `hash` is modelled as the axes it hashes (`HashKey`). Ruby's hash values are not modelled.
- Output only, not modelled: `inspect` and `to_s` of every class.
- Dimensions: `Dimension#integral?` is modelled as the constant predicate `Integral` and needs no property.
- `lib/geospatial/location.rb`, `circle.rb`, `tiles.rb`, `distance.rb`, `aligned_box.rb`, `histogram.rb` and `map/index.rb` are not part of this model. They are geodesy on the sphere (transcendental functions) or callers of the core.
- `Hilbert.rotate`, `Hilbert.hash`, `Hilbert.unhash` and `Hilbert.traverse`, used by `map.rb` and some tests, are not defined in `hilbert.rb` and are not part of this model.

## Findings

| source | as written | input that shows it | evidently intended | confidence | as-written member | corrected member |
|---|---|---|---|---|---|---|
| lib/geospatial/box.rb:115-117 | `include?` tests both corners of the other box with the half-open `include_point?`, so the other box's maximum corner must lie strictly below this box's maximum | any box `b`: `b.include?(b)` is false, because its maximum corner fails `point[i] >= max[i]` | closed containment: `min <= other.min` and `other.max <= max` on both axes | not executed | Boxes.NeverIncludesItself | Boxes.ContainsIsOrder |
| lib/geospatial/dimensions.rb:99-101 | `scale` sends `colect`, which Array does not define | `Dimensions.new([Dimension.new(0.0, 1.0)]).scale` raises NoMethodError | `@dimensions.collect(&:scale)`, the scale of each axis | not executed | Dimensions.ScaleRaises | Dimensions.Scales |
