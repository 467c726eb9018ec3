/**
  `Geospatial::Polygon`: a closed 2D polygon given by its vertices, with a
  winding-number point-inclusion test guarded by the bounding box.
*/
module Polygons {
  import opened Wrappers
  import opened Boxes

  /** `edges`: (last, first), then each consecutive pair of vertices. */
  function Edges(points: seq<Vec2>): (r: seq<(Vec2, Vec2)>)
    ensures |r| == |points|
  {
    seq(|points|, i requires 0 <= i < |points| => (if i == 0 then points[|points| - 1] else points[i - 1], points[i]))
  }

  /** `Polygon.is_left(p0, p1, p2)`: the cross product of p1 - p0 and p2 - p0, the same from whichever end of the edge it is measured. */
  function IsLeft(p0: Vec2, p1: Vec2, p2: Vec2): (r: real)
    ensures p2 == p0 || p2 == p1 || p1 == p0 ==> r == 0.0
    ensures r == (p1.x - p0.x) * (p2.y - p1.y) - (p2.x - p1.x) * (p1.y - p0.y)
  {
    (p1.x - p0.x) * (p2.y - p0.y) - (p2.x - p0.x) * (p1.y - p0.y)
  }

  /** How one edge (pa, pb) changes the winding count around p. */
  function Crossing(pa: Vec2, pb: Vec2, p: Vec2): (w: int)
    ensures -1 <= w <= 1
  {
    if pa.y <= p.y then
      (if pb.y >= p.y && IsLeft(pa, pb, p) > 0.0 then 1 else 0)
    else
      (if pb.y <= p.y && IsLeft(pa, pb, p) < 0.0 then -1 else 0)
  }

  /** The sum of the crossings of the edges. */
  function WindingSum(edges: seq<(Vec2, Vec2)>, p: Vec2): int
  {
    if |edges| == 0 then 0
    else WindingSum(edges[..|edges| - 1], p) + Crossing(edges[|edges| - 1].0, edges[|edges| - 1].1, p)
  }

  /** `winding_number(p)` */
  function WindingNumber(points: seq<Vec2>, p: Vec2): (w: int)
    ensures -|points| <= w <= |points|
  {
    WindingSumBounded(Edges(points), p);
    WindingSum(Edges(points), p)
  }

  /** `bounding_box`: the tightest closed box around the vertices; none for no vertices. */
  function BoundingBox(points: seq<Vec2>): (r: Option<Box>)
    ensures r.None? <==> |points| == 0
    ensures r.Some? ==> Ordered(r.value) && Encloses(points, Min(r.value), Max(r.value))
    ensures r.Some? ==> Attained(points, Min(r.value), Max(r.value))
  {
    if |points| == 0 then None
    else
      EnclosingPointsTight(points);
      EnclosingPoints(points)
  }

  /**
    `include_point?`: false outside the bounding box, otherwise whether the
    polygon winds exactly once around the point. An empty polygon has no
    bounding box and the Ruby call fails; that is `None`.
  */
  function InPolygon(points: seq<Vec2>, p: Vec2): (r: Option<bool>)
    ensures r.None? <==> |points| == 0
    ensures r == Some(true) ==> IncludePoint(BoundingBox(points).value, p) && WindingNumber(points, p) == 1
  {
    match BoundingBox(points)
    case None => None
    case Some(box) =>
      if !IncludePoint(box, p) then Some(false)
      else Some(WindingNumber(points, p) == 1)
  }

  // ---------------------------------------------------------------------------
  // Properties

  /** The edges form one closed cycle: each edge ends where the next one starts. */
  lemma EdgesFormCycle(points: seq<Vec2>)
    requires |points| > 0
    ensures forall i :: 0 <= i < |points| ==> Edges(points)[i].1 == points[i]
    ensures forall i :: 0 <= i < |points| ==> Edges(points)[i].1 == Edges(points)[(i + 1) % |points|].0
  {
    var e := Edges(points);
    forall i | 0 <= i < |points|
      ensures e[i].1 == e[(i + 1) % |points|].0
    {
      NextIndex(i, |points|);
    }
  }

  /** The index after i, wrapping around after the last vertex. */
  lemma NextIndex(i: nat, n: nat)
    requires i < n
    ensures (i + 1) % n == if i + 1 < n then i + 1 else 0
  {
    if i + 1 == n {
      assert (i + 1) % n == n % n;
    }
  }

  /** Swapping the last two arguments negates `is_left`. */
  lemma IsLeftAntisymmetric(p0: Vec2, p1: Vec2, p2: Vec2)
    ensures IsLeft(p0, p2, p1) == -IsLeft(p0, p1, p2)
  {
  }

  /** `is_left` vanishes when p2 is p0 or p1: the three points are collinear. */
  lemma IsLeftDegenerate(p0: Vec2, p1: Vec2)
    ensures IsLeft(p0, p1, p0) == 0.0 && IsLeft(p0, p1, p1) == 0.0
  {
  }

  /** Each edge moves the count by at most one, so the winding number is bounded by the edge count. */
  lemma {:induction false} WindingSumBounded(edges: seq<(Vec2, Vec2)>, p: Vec2)
    ensures -|edges| <= WindingSum(edges, p) <= |edges|
  {
    if |edges| > 0 {
      WindingSumBounded(edges[..|edges| - 1], p);
    }
  }

  /** A point strictly above or strictly below every vertex is crossed by no edge. */
  lemma {:induction false} WindingSumOutsideBand(edges: seq<(Vec2, Vec2)>, p: Vec2)
    requires (forall k :: 0 <= k < |edges| ==> edges[k].0.y < p.y && edges[k].1.y < p.y)
          || (forall k :: 0 <= k < |edges| ==> edges[k].0.y > p.y && edges[k].1.y > p.y)
    ensures WindingSum(edges, p) == 0
  {
    if |edges| > 0 {
      var init := edges[..|edges| - 1];
      assert forall k :: 0 <= k < |init| ==> init[k] == edges[k];
      WindingSumOutsideBand(init, p);
    }
  }

  /** A point outside the half-open bounding box is never included. */
  lemma OutsideBoxExcluded(points: seq<Vec2>, p: Vec2)
    requires |points| > 0
    requires !IncludePoint(BoundingBox(points).value, p)
    ensures InPolygon(points, p) == Some(false)
  {
  }

  /** Inclusion holds exactly when the bounding box holds the point and the winding number is one. */
  lemma InPolygonIff(points: seq<Vec2>, p: Vec2)
    requires |points| > 0
    ensures InPolygon(points, p) == Some(IncludePoint(BoundingBox(points).value, p) && WindingNumber(points, p) == 1)
  {
  }

  /** An edge never counts its own endpoints as crossed: `is_left` is zero there. */
  lemma VertexNotCrossed(pa: Vec2, pb: Vec2)
    ensures Crossing(pa, pb, pa) == 0 && Crossing(pa, pb, pb) == 0
  {
    IsLeftDegenerate(pa, pb);
  }

  /** A horizontal edge never changes the winding count. */
  lemma HorizontalEdgeNotCrossed(pa: Vec2, pb: Vec2, p: Vec2)
    requires pa.y == pb.y
    ensures Crossing(pa, pb, p) == 0
  {
    if pa.y <= p.y && pb.y >= p.y {
      assert p.y - pa.y == 0.0;
      assert IsLeft(pa, pb, p) == 0.0;
    }
  }
}
