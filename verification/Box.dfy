/**
  `Geospatial::Box`: an axis-aligned 2D box given by its origin (minimum
  corner) and size, with an optional explicitly supplied maximum corner
  (`from_bounds` passes one; otherwise `max` is `origin + size`). Coordinates
  are reals; Ruby's `Vector` of two numbers is `Vec2`.
*/
module Boxes {
  import opened Wrappers

  datatype Vec2 = Vec2(x: real, y: real)

  function Plus(a: Vec2, b: Vec2): Vec2
  {
    Vec2(a.x + b.x, a.y + b.y)
  }

  function Minus(a: Vec2, b: Vec2): Vec2
  {
    Vec2(a.x - b.x, a.y - b.y)
  }

  function Scale(a: Vec2, k: real): Vec2
  {
    Vec2(a.x * k, a.y * k)
  }

  /** `v[i]` for the two axes. */
  function At(v: Vec2, i: nat): real
    requires i < 2
  {
    if i == 0 then v.x else v.y
  }

  datatype Box = Box(origin: Vec2, size: Vec2, given: Option<Vec2>)

  /** `Box.from_bounds(min, max)` */
  function FromBounds(min: Vec2, max: Vec2): (b: Box)
    ensures Min(b) == min && Max(b) == max
    ensures Plus(b.origin, b.size) == max
  {
    Box(min, Minus(max, min), Some(max))
  }

  /** `Box.new(origin, size)` */
  function NewBox(origin: Vec2, size: Vec2): (b: Box)
    ensures Min(b) == origin && Max(b) == Plus(origin, size)
  {
    Box(origin, size, None)
  }

  function Min(b: Box): Vec2
  {
    b.origin
  }

  /** `max`: the supplied maximum, or `origin + size`. */
  function Max(b: Box): (r: Vec2)
    ensures b.given.Some? ==> r == b.given.value
    ensures b.given.None? ==> Minus(r, Min(b)) == b.size
  {
    match b.given
    case Some(m) => m
    case None => Plus(b.origin, b.size)
  }

  /** The maximum corner is not below the minimum on either axis. */
  predicate Ordered(b: Box)
  {
    Min(b).x <= Max(b).x && Min(b).y <= Max(b).y
  }

  /** `corners`: origin, (max.x, origin.y), max, (origin.x, max.y). */
  function Corners(b: Box): (r: seq<Vec2>)
    ensures |r| == 4
    ensures r[0] == Min(b) && r[1] == Vec2(Max(b).x, Min(b).y)
    ensures r[2] == Max(b) && r[3] == Vec2(Min(b).x, Max(b).y)
  {
    var max := Max(b);
    [b.origin, Vec2(max.x, b.origin.y), max, Vec2(b.origin.x, max.y)]
  }

  /** `center`: `origin + size / 2`. */
  function Center(b: Box): (r: Vec2)
    ensures Plus(Minus(r, b.origin), Minus(r, b.origin)) == b.size
    ensures b.given.None? ==> Minus(Max(b), r) == Minus(r, Min(b))
  {
    Plus(b.origin, Scale(b.size, 0.5))
  }

  /** `midpoints`: the midpoints of the bottom, right, top and left sides, computed from `origin` and `size`. */
  function Midpoints(b: Box): (r: seq<Vec2>)
    ensures |r| == 4
  {
    var o, s := b.origin, b.size;
    [Vec2(o.x + s.x / 2.0, o.y), Vec2(o.x + s.x, o.y + s.y / 2.0),
     Vec2(o.x + s.x / 2.0, o.y + s.y), Vec2(o.x, o.y + s.y / 2.0)]
  }

  /** One axis of `include_point?`: the point is neither below the minimum nor at or past the maximum. */
  predicate InAxis(b: Box, p: Vec2, i: nat)
    requires i < 2
  {
    !(At(p, i) < At(Min(b), i) || At(p, i) >= At(Max(b), i))
  }

  /** `include_point?`: `2.times` over the axes, answering false at the first axis that fails. */
  predicate IncludePoint(b: Box, p: Vec2)
    ensures IncludePoint(b, p) <==>
              Min(b).x <= p.x < Max(b).x && Min(b).y <= p.y < Max(b).y
  {
    InAxis(b, p, 0) && InAxis(b, p, 1)
  }

  /** `include?`: both corners of the other box are points of this one. */
  predicate Includes(b: Box, other: Box)
    ensures Includes(b, other) <==>
              && Min(b).x <= Min(other).x < Max(b).x && Min(b).y <= Min(other).y < Max(b).y
              && Min(b).x <= Max(other).x < Max(b).x && Min(b).y <= Max(other).y < Max(b).y
  {
    IncludePoint(b, Min(other)) && IncludePoint(b, Max(other))
  }

  /** One axis of `intersect?`: the other box neither starts past this one's maximum nor ends before its minimum. */
  predicate OverlapsOn(b: Box, other: Box, i: nat)
    requires i < 2
  {
    !(At(Min(other), i) > At(Max(b), i) || At(Max(other), i) < At(Min(b), i))
  }

  /** `intersect?`: no axis separates the boxes. */
  predicate Intersects(b: Box, other: Box)
    ensures Intersects(b, other) <==>
              && Min(other).x <= Max(b).x && Min(b).x <= Max(other).x
              && Min(other).y <= Max(b).y && Min(b).y <= Max(other).y
  {
    OverlapsOn(b, other, 0) && OverlapsOn(b, other, 1)
  }

  // ---------------------------------------------------------------------------
  // `enclosing_points`

  /**
    The running minimum and maximum after the points, starting from (lo, hi):
    per axis, a value below the minimum lowers it, else a value above the
    maximum raises it.
  */
  function Enclose(points: seq<Vec2>, lo: Vec2, hi: Vec2): (r: (Vec2, Vec2))
  {
    if |points| == 0 then (lo, hi)
    else
      var p := points[0];
      var lo' := Vec2(if p.x < lo.x then p.x else lo.x, if p.y < lo.y then p.y else lo.y);
      var hi' := Vec2(if p.x < lo.x then hi.x else if p.x > hi.x then p.x else hi.x,
                      if p.y < lo.y then hi.y else if p.y > hi.y then p.y else hi.y);
      Enclose(points[1..], lo', hi')
  }

  /** `Box.enclosing_points`: nil for no points. */
  function EnclosingPoints(points: seq<Vec2>): (r: Option<Box>)
    ensures r.None? <==> |points| == 0
  {
    if |points| == 0 then None
    else
      var bounds := Enclose(points, points[0], points[0]);
      Some(FromBounds(bounds.0, bounds.1))
  }

  /** All points lie in the closed box [lo, hi]. */
  ghost predicate Encloses(points: seq<Vec2>, lo: Vec2, hi: Vec2)
  {
    forall k :: 0 <= k < |points| ==> lo.x <= points[k].x <= hi.x && lo.y <= points[k].y <= hi.y
  }

  /** Each bound is a coordinate of one of the points. */
  ghost predicate Attained(points: seq<Vec2>, lo: Vec2, hi: Vec2)
  {
    && (exists k :: 0 <= k < |points| && points[k].x == lo.x)
    && (exists k :: 0 <= k < |points| && points[k].y == lo.y)
    && (exists k :: 0 <= k < |points| && points[k].x == hi.x)
    && (exists k :: 0 <= k < |points| && points[k].y == hi.y)
  }

  lemma {:induction false} EncloseBounds(points: seq<Vec2>, lo: Vec2, hi: Vec2)
    requires lo.x <= hi.x && lo.y <= hi.y
    ensures var r := Enclose(points, lo, hi);
            r.0.x <= lo.x && r.0.y <= lo.y && hi.x <= r.1.x && hi.y <= r.1.y
            && Encloses(points, r.0, r.1)
  {
    if |points| > 0 {
      var p := points[0];
      var lo' := Vec2(if p.x < lo.x then p.x else lo.x, if p.y < lo.y then p.y else lo.y);
      var hi' := Vec2(if p.x < lo.x then hi.x else if p.x > hi.x then p.x else hi.x,
                      if p.y < lo.y then hi.y else if p.y > hi.y then p.y else hi.y);
      EncloseBounds(points[1..], lo', hi');
      var r := Enclose(points, lo, hi);
      forall k | 0 <= k < |points|
        ensures r.0.x <= points[k].x <= r.1.x && r.0.y <= points[k].y <= r.1.y
      {
        if k > 0 {
          assert points[k] == points[1..][k - 1];
        }
      }
    }
  }

  /** Every final bound is either the starting bound or some point's coordinate. */
  lemma {:induction false} EncloseAttained(points: seq<Vec2>, lo: Vec2, hi: Vec2)
    requires lo.x <= hi.x && lo.y <= hi.y
    ensures var r := Enclose(points, lo, hi);
            && (r.0.x == lo.x || exists k :: 0 <= k < |points| && points[k].x == r.0.x)
            && (r.0.y == lo.y || exists k :: 0 <= k < |points| && points[k].y == r.0.y)
            && (r.1.x == hi.x || exists k :: 0 <= k < |points| && points[k].x == r.1.x)
            && (r.1.y == hi.y || exists k :: 0 <= k < |points| && points[k].y == r.1.y)
  {
    if |points| > 0 {
      var p := points[0];
      var lo' := Vec2(if p.x < lo.x then p.x else lo.x, if p.y < lo.y then p.y else lo.y);
      var hi' := Vec2(if p.x < lo.x then hi.x else if p.x > hi.x then p.x else hi.x,
                      if p.y < lo.y then hi.y else if p.y > hi.y then p.y else hi.y);
      EncloseAttained(points[1..], lo', hi');
      forall k | 0 <= k < |points| - 1
        ensures points[1..][k] == points[k + 1]
      {
      }
    }
  }

  /**
    The box around a non-empty list of points contains every point (closed on
    both sides) and each of its four bounds is a coordinate of some point.
  */
  lemma EnclosingPointsTight(points: seq<Vec2>)
    requires |points| > 0
    ensures Ordered(EnclosingPoints(points).value)
    ensures Encloses(points, Min(EnclosingPoints(points).value), Max(EnclosingPoints(points).value))
    ensures Attained(points, Min(EnclosingPoints(points).value), Max(EnclosingPoints(points).value))
  {
    EncloseBounds(points, points[0], points[0]);
    EncloseAttained(points, points[0], points[0]);
  }

  // ---------------------------------------------------------------------------
  // Properties of the predicates

  /** The maximum corner is never a point of its own box. */
  lemma MaxNotIncluded(b: Box)
    ensures !IncludePoint(b, Max(b))
  {
  }

  /** As written, `include?` rejects the box itself: its maximum corner is excluded. */
  lemma NeverIncludesItself(b: Box)
    ensures !Includes(b, b)
  {
    MaxNotIncluded(b);
  }

  /** Closed containment: the other box's corners lie within [min, max]; the evident intent of `include?`. */
  predicate Contains(b: Box, other: Box)
  {
    && Min(b).x <= Min(other).x && Min(b).y <= Min(other).y
    && Max(other).x <= Max(b).x && Max(other).y <= Max(b).y
  }

  /** Closed containment is reflexive and transitive, and accepts whatever `include?` accepts. */
  lemma ContainsIsOrder(a: Box, b: Box, c: Box)
    ensures Contains(a, a)
    ensures Contains(a, b) && Contains(b, c) ==> Contains(a, c)
    ensures Ordered(b) && Includes(a, b) ==> Contains(a, b)
  {
  }

  /** `intersect?` does not depend on which box asks. */
  lemma IntersectsSymmetric(a: Box, b: Box)
    ensures Intersects(a, b) <==> Intersects(b, a)
  {
  }

  /** The point lies in the closed box [min, max]. */
  predicate InClosed(b: Box, p: Vec2)
  {
    Min(b).x <= p.x <= Max(b).x && Min(b).y <= p.y <= Max(b).y
  }

  /**
    Separating axis theorem: two ordered boxes intersect exactly when some point
    lies in both closed boxes, so boxes that only touch intersect.
  */
  lemma IntersectsIffCommonPoint(a: Box, b: Box)
    requires Ordered(a) && Ordered(b)
    ensures Intersects(a, b) <==> exists p :: InClosed(a, p) && InClosed(b, p)
  {
    if Intersects(a, b) {
      var p := Vec2(if Min(a).x < Min(b).x then Min(b).x else Min(a).x,
                    if Min(a).y < Min(b).y then Min(b).y else Min(a).y);
      assert InClosed(a, p) && InClosed(b, p);
    }
    if exists p :: InClosed(a, p) && InClosed(b, p) {
      var p :| InClosed(a, p) && InClosed(b, p);
    }
  }

  /** The center is the midpoint of the two corners of a box built from its origin and size. */
  lemma CenterIsMidpoint(origin: Vec2, size: Vec2)
    ensures Scale(Plus(Min(NewBox(origin, size)), Max(NewBox(origin, size))), 0.5) == Center(NewBox(origin, size))
  {
  }

  /**
    When the maximum corner is `origin + size` (always so for `new` and
    `from_bounds`), midpoint k lies halfway between corner k and corner k + 1,
    going round the box.
  */
  lemma MidpointsBetweenCorners(b: Box)
    requires Max(b) == Plus(b.origin, b.size)
    ensures forall k :: 0 <= k < 4 ==> Midpoints(b)[k] == Scale(Plus(Corners(b)[k], Corners(b)[(k + 1) % 4]), 0.5)
  {
    var m, c := Midpoints(b), Corners(b);
    assert m[0] == Scale(Plus(c[0], c[1]), 0.5);
    assert m[1] == Scale(Plus(c[1], c[2]), 0.5);
    assert m[2] == Scale(Plus(c[2], c[3]), 0.5);
    assert m[3] == Scale(Plus(c[3], c[0]), 0.5);
  }

  /** When the box has area, the four corners are pairwise distinct, and each lies in the closed box. */
  lemma CornersAreDistinct(b: Box)
    requires Min(b).x < Max(b).x && Min(b).y < Max(b).y
    ensures forall i, j :: 0 <= i < j < 4 ==> Corners(b)[i] != Corners(b)[j]
    ensures forall i :: 0 <= i < 4 ==> InClosed(b, Corners(b)[i])
  {
  }
}
