/**
  A worked example of `Polygon#include_point?`: the right triangle with
  vertices (0, 0), (1, 0), (0, 1), whose inclusion test is characterised for
  every point of the plane.
*/
module PolygonExample {
  import opened Wrappers
  import opened Boxes
  import opened Polygons

  function Triangle(): seq<Vec2>
  {
    [Vec2(0.0, 0.0), Vec2(1.0, 0.0), Vec2(0.0, 1.0)]
  }

  /** The bounding box of the triangle has corners (0, 0) and (1, 1). */
  lemma TriangleBox()
    ensures BoundingBox(Triangle()) == Some(Box(Vec2(0.0, 0.0), Vec2(1.0, 1.0), Some(Vec2(1.0, 1.0))))
  {
    var t := Triangle();
    assert t[1..] == [Vec2(1.0, 0.0), Vec2(0.0, 1.0)];
    assert t[1..][1..] == [Vec2(0.0, 1.0)];
    assert Enclose(t, t[0], t[0]) == Enclose(t[1..], Vec2(0.0, 0.0), Vec2(0.0, 0.0));
    assert Enclose(t[1..], Vec2(0.0, 0.0), Vec2(0.0, 0.0)) == Enclose(t[1..][1..], Vec2(0.0, 0.0), Vec2(1.0, 0.0));
    assert Enclose(t[1..][1..], Vec2(0.0, 0.0), Vec2(1.0, 0.0)) == (Vec2(0.0, 0.0), Vec2(1.0, 1.0));
  }

  /** A box with corners (0, 0) and (1, 1) holds exactly the half-open unit square. */
  lemma UnitBoxIncludes(b: Box, p: Vec2)
    requires Min(b).x == 0.0 && Min(b).y == 0.0 && Max(b).x == 1.0 && Max(b).y == 1.0
    ensures IncludePoint(b, p) <==> 0.0 <= p.x < 1.0 && 0.0 <= p.y < 1.0
  {
  }

  lemma InTriangleBox(p: Vec2)
    requires 0.0 <= p.x < 1.0 && 0.0 <= p.y < 1.0
    ensures IncludePoint(BoundingBox(Triangle()).value, p)
  {
    TriangleBox();
    UnitBoxIncludes(BoundingBox(Triangle()).value, p);
  }

  lemma OutsideTriangleBox(p: Vec2)
    requires !(0.0 <= p.x < 1.0 && 0.0 <= p.y < 1.0)
    ensures !IncludePoint(BoundingBox(Triangle()).value, p)
  {
    TriangleBox();
    UnitBoxIncludes(BoundingBox(Triangle()).value, p);
  }

  /** The winding number is the sum of the crossings of the edges (0, 1)-(0, 0), (0, 0)-(1, 0), (1, 0)-(0, 1). */
  lemma TriangleWinding(p: Vec2)
    ensures WindingNumber(Triangle(), p)
            == Crossing(Vec2(0.0, 1.0), Vec2(0.0, 0.0), p)
             + Crossing(Vec2(0.0, 0.0), Vec2(1.0, 0.0), p)
             + Crossing(Vec2(1.0, 0.0), Vec2(0.0, 1.0), p)
  {
    var t := Triangle();
    var e := Edges(t);
    assert e == [(t[2], t[0]), (t[0], t[1]), (t[1], t[2])];
    assert e[..2] == [(t[2], t[0]), (t[0], t[1])];
    assert e[..2][..1] == [(t[2], t[0])];
    assert e[..2][..1][..0] == [];
    assert WindingSum(e, p) == WindingSum(e[..2], p) + Crossing(t[1], t[2], p);
    assert WindingSum(e[..2], p) == WindingSum(e[..2][..1], p) + Crossing(t[0], t[1], p);
    assert WindingSum(e[..2][..1], p) == WindingSum(e[..2][..1][..0], p) + Crossing(t[2], t[0], p);
  }

  /**
    Inside the bounding box only the upward hypotenuse can count, and it
    counts exactly the points strictly below it: the winding number is one
    there and zero elsewhere in the box.
  */
  lemma TriangleWindingValue(p: Vec2)
    requires 0.0 <= p.x < 1.0 && 0.0 <= p.y < 1.0
    ensures WindingNumber(Triangle(), p) == if p.x + p.y < 1.0 then 1 else 0
  {
    TriangleWinding(p);
  }

  lemma BelowHypotenuseIncluded(p: Vec2)
    requires 0.0 <= p.x < 1.0 && 0.0 <= p.y < 1.0 && p.x + p.y < 1.0
    ensures InPolygon(Triangle(), p) == Some(true)
  {
    InTriangleBox(p);
    TriangleWindingValue(p);
    InPolygonIff(Triangle(), p);
  }

  lemma OnOrAboveHypotenuseExcluded(p: Vec2)
    requires 0.0 <= p.x < 1.0 && 0.0 <= p.y < 1.0 && !(p.x + p.y < 1.0)
    ensures InPolygon(Triangle(), p) == Some(false)
  {
    InTriangleBox(p);
    TriangleWindingValue(p);
    InPolygonIff(Triangle(), p);
  }

  lemma OutsideBoxNotIncluded(p: Vec2)
    requires !(0.0 <= p.x < 1.0 && 0.0 <= p.y < 1.0)
    ensures InPolygon(Triangle(), p) == Some(false)
  {
    OutsideTriangleBox(p);
    InPolygonIff(Triangle(), p);
  }

  /**
    `include_point?` on the triangle (0, 0), (1, 0), (0, 1) selects exactly the
    triangle without its hypotenuse: the corner (0, 0) and the two legs are in,
    the hypotenuse and everything outside are out.
  */
  lemma TriangleIncludesExactly(p: Vec2)
    ensures InPolygon(Triangle(), p) == Some(0.0 <= p.x && 0.0 <= p.y && p.x + p.y < 1.0)
  {
    if !(0.0 <= p.x < 1.0 && 0.0 <= p.y < 1.0) {
      OutsideBoxNotIncluded(p);
    } else if p.x + p.y < 1.0 {
      BelowHypotenuseIncluded(p);
    } else {
      OnOrAboveHypotenuseExcluded(p);
    }
  }
}
