/**
  `Geospatial::Line`: the segment from `a` to `b`, and the intersection test
  between two segments, which answers the time along this segment at which
  the other one is met.
*/
module Lines {
  import opened Wrappers
  import opened Boxes

  datatype Line = Line(a: Vec2, b: Vec2)

  /** `offset`: the direction from `a` to `b`. */
  function Offset(l: Line): (r: Vec2)
    ensures Plus(l.a, r) == l.b
  {
    Minus(l.b, l.a)
  }

  /** The point reached after time `s` along the segment: `a + s * offset`. */
  function PointAt(l: Line, s: real): Vec2
  {
    Vec2(l.a.x + s * Offset(l).x, l.a.y + s * Offset(l).y)
  }

  /** `d` in `intersect?`: the cross product of the offsets, zero exactly when the segments are parallel. */
  function Det(l: Line, other: Line): real
  {
    Offset(other).y * Offset(l).x - Offset(other).x * Offset(l).y
  }

  /** `na` in `intersect?`. */
  function LeftNumerator(l: Line, other: Line): real
  {
    Offset(other).x * (l.a.y - other.a.y) - Offset(other).y * (l.a.x - other.a.x)
  }

  /** `nb` in `intersect?`. */
  function RightNumerator(l: Line, other: Line): real
  {
    Offset(l).x * (l.a.y - other.a.y) - Offset(l).y * (l.a.x - other.a.x)
  }

  /**
    `intersect?`: nil (Ruby's `false`) when the segments are parallel or when
    either time falls outside [0, 1]; otherwise the time along this segment.
  */
  function Intersect(l: Line, other: Line): (r: Option<real>)
    ensures r.Some? ==> 0.0 <= r.value <= 1.0
  {
    var d := Det(l, other);
    if d == 0.0 then None
    else
      var leftTime := LeftNumerator(l, other) / d;
      if leftTime < 0.0 || leftTime > 1.0 then None
      else
        var rightTime := RightNumerator(l, other) / d;
        if rightTime < 0.0 || rightTime > 1.0 then None
        else Some(leftTime)
  }

  // ---------------------------------------------------------------------------
  // Properties

  /** The segment runs from `a` at time 0 to `b` at time 1. */
  lemma EndpointsOnSegment(l: Line)
    ensures PointAt(l, 0.0) == l.a && PointAt(l, 1.0) == l.b
  {
  }

  /** The segments meet at time `s` on the first and time `u` on the second, both within [0, 1]. */
  ghost predicate MeetAt(l: Line, other: Line, s: real, u: real)
  {
    0.0 <= s <= 1.0 && 0.0 <= u <= 1.0 && PointAt(l, s) == PointAt(other, u)
  }

  /** `x * d == y * d` with `d` non-zero gives `x == y`. */
  lemma Cancel(x: real, y: real, d: real)
    requires d != 0.0 && x * d == y * d
    ensures x == y
  {
    assert (x - y) * d == 0.0;
  }

  /** The times `na / d` and `nb / d` reach the same point on both lines. */
  lemma TimesMeet(l: Line, other: Line)
    requires Det(l, other) != 0.0
    ensures PointAt(l, LeftNumerator(l, other) / Det(l, other)) == PointAt(other, RightNumerator(l, other) / Det(l, other))
  {
    TimesMeetX(l, other);
    TimesMeetY(l, other);
  }

  lemma TimesMeetX(l: Line, other: Line)
    requires Det(l, other) != 0.0
    ensures PointAt(l, LeftNumerator(l, other) / Det(l, other)).x == PointAt(other, RightNumerator(l, other) / Det(l, other)).x
  {
    var t, o := Offset(l), Offset(other);
    var wx := l.a.x - other.a.x;
    var d, na, nb := Det(l, other), LeftNumerator(l, other), RightNumerator(l, other);
    var s, u := na / d, nb / d;
    assert s * d == na && u * d == nb;
    assert d * wx + na * t.x - nb * o.x == 0.0;
    assert (s * t.x - u * o.x) * d == na * t.x - nb * o.x;
    Cancel(s * t.x - u * o.x, -wx, d);
  }

  lemma TimesMeetY(l: Line, other: Line)
    requires Det(l, other) != 0.0
    ensures PointAt(l, LeftNumerator(l, other) / Det(l, other)).y == PointAt(other, RightNumerator(l, other) / Det(l, other)).y
  {
    var t, o := Offset(l), Offset(other);
    var wy := l.a.y - other.a.y;
    var d, na, nb := Det(l, other), LeftNumerator(l, other), RightNumerator(l, other);
    var s, u := na / d, nb / d;
    assert s * d == na && u * d == nb;
    assert d * wy + na * t.y - nb * o.y == 0.0;
    assert (s * t.y - u * o.y) * d == na * t.y - nb * o.y;
    Cancel(s * t.y - u * o.y, -wy, d);
  }

  /** When the segments are not parallel, the only meeting times are `na / d` and `nb / d`. */
  lemma MeetingTimesUnique(l: Line, other: Line, s: real, u: real)
    requires Det(l, other) != 0.0
    requires PointAt(l, s) == PointAt(other, u)
    ensures s == LeftNumerator(l, other) / Det(l, other)
    ensures u == RightNumerator(l, other) / Det(l, other)
  {
    LeftTimeUnique(l, other, s, u);
    RightTimeUnique(l, other, s, u);
  }

  /** Crossing both sides of `w + s t == u o` with `o` eliminates `u`. */
  lemma LeftTimeUnique(l: Line, other: Line, s: real, u: real)
    requires Det(l, other) != 0.0
    requires PointAt(l, s) == PointAt(other, u)
    ensures s == LeftNumerator(l, other) / Det(l, other)
  {
    var t, o := Offset(l), Offset(other);
    var wx, wy := l.a.x - other.a.x, l.a.y - other.a.y;
    var d, na := Det(l, other), LeftNumerator(l, other);
    assert wx + s * t.x == u * o.x;
    assert wy + s * t.y == u * o.y;
    assert (wx + s * t.x) * o.y - (wy + s * t.y) * o.x == u * o.x * o.y - u * o.y * o.x;
    assert s * d == na;
    Cancel(s, na / d, d);
  }

  /** Crossing both sides of `w + s t == u o` with `t` eliminates `s`. */
  lemma RightTimeUnique(l: Line, other: Line, s: real, u: real)
    requires Det(l, other) != 0.0
    requires PointAt(l, s) == PointAt(other, u)
    ensures u == RightNumerator(l, other) / Det(l, other)
  {
    var t, o := Offset(l), Offset(other);
    var wx, wy := l.a.x - other.a.x, l.a.y - other.a.y;
    var d, nb := Det(l, other), RightNumerator(l, other);
    assert wx + s * t.x == u * o.x;
    assert wy + s * t.y == u * o.y;
    assert (wx + s * t.x) * t.y - (wy + s * t.y) * t.x == u * o.x * t.y - u * o.y * t.x;
    assert u * d == nb;
    Cancel(u, nb / d, d);
  }

  /**
    `intersect?` answers `s` exactly when the segments are not parallel and
    meet at time `s` on this one and some time within [0, 1] on the other.
  */
  lemma IntersectIff(l: Line, other: Line, s: real)
    ensures Intersect(l, other) == Some(s) <==>
              Det(l, other) != 0.0 && exists u :: MeetAt(l, other, s, u)
  {
    if Intersect(l, other) == Some(s) {
      TimesMeet(l, other);
      assert MeetAt(l, other, s, RightNumerator(l, other) / Det(l, other));
    }
    if Det(l, other) != 0.0 && exists u :: MeetAt(l, other, s, u) {
      var u :| MeetAt(l, other, s, u);
      MeetingTimesUnique(l, other, s, u);
    }
  }

  /** Asking from the other segment finds the same crossing, reporting the other segment's time. */
  lemma IntersectSymmetric(l: Line, other: Line)
    ensures Intersect(l, other).Some? <==> Intersect(other, l).Some?
    ensures Intersect(l, other).Some? ==>
              PointAt(l, Intersect(l, other).value) == PointAt(other, Intersect(other, l).value)
  {
    assert Det(other, l) == -Det(l, other);
    if Intersect(l, other).Some? {
      var s := Intersect(l, other).value;
      IntersectIff(l, other, s);
      var u :| MeetAt(l, other, s, u);
      assert MeetAt(other, l, u, s);
      IntersectIff(other, l, u);
    }
    if Intersect(other, l).Some? {
      var u := Intersect(other, l).value;
      IntersectIff(other, l, u);
      var s :| MeetAt(other, l, u, s);
      assert MeetAt(l, other, s, u);
      IntersectIff(l, other, s);
    }
  }

  /**
    A segment that continues along this one from its point at time `s` shares
    that point, yet is never reported: collinear segments have `d` zero.
  */
  lemma OverlapNotReported(l: Line, s: real)
    requires 0.0 <= s <= 1.0
    ensures MeetAt(l, Line(PointAt(l, s), l.b), s, 0.0)
    ensures Intersect(l, Line(PointAt(l, s), l.b)).None?
  {
    var other := Line(PointAt(l, s), l.b);
    var t := Offset(l);
    assert Offset(other).x == (1.0 - s) * t.x && Offset(other).y == (1.0 - s) * t.y;
    assert Det(l, other) == (1.0 - s) * t.y * t.x - (1.0 - s) * t.x * t.y;
    assert PointAt(other, 0.0) == other.a;
  }

  /** The diagonals of the unit square cross halfway along each. */
  lemma DiagonalsCross(l: Line, other: Line)
    requires l.a.x == 0.0 && l.a.y == 0.0 && l.b.x == 1.0 && l.b.y == 1.0
    requires other.a.x == 0.0 && other.a.y == 1.0 && other.b.x == 1.0 && other.b.y == 0.0
    ensures Intersect(l, other) == Some(0.5)
  {
    assert Offset(l).x == 1.0 && Offset(l).y == 1.0;
    assert Offset(other).x == 1.0 && Offset(other).y == -1.0;
    assert Det(l, other) == -2.0;
    assert LeftNumerator(l, other) == -1.0;
    assert RightNumerator(l, other) == -1.0;
  }
}
