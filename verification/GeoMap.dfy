/**
  `Geospatial::Map`: an append-only list of points, each with a lazily
  computed key, that can be sorted by key. The key of a location
  (`location_hash`) depends on the map's bounds and on a Hilbert hash that is
  not part of this model; it is a parameter `key` here.
*/
module GeoMaps {
  import opened Bits
  import opened Wrappers
  import Hilbert
  import Indexes

  /** `ORDER`: bits per axis of a key. */
  const Order: nat := 30

  /** `Map::Point`: a location and its memoised `@hash`. */
  datatype Point<L> = Point(location: L, cache: Option<nat>)

  datatype Map<L> = Map(order: nat, scale: seq<nat>, points: seq<Point<L>>)

  /** The memo, when present, holds the key of the location. */
  ghost predicate CacheOk<L>(p: Point<L>, key: L -> nat)
  {
    p.cache.Some? ==> p.cache.value == key(p.location)
  }

  /** `Point.new(map, location)`: nothing computed yet. */
  function NewPoint<L>(location: L): (p: Point<L>)
    ensures p.location == location && p.cache.None?
  {
    Point(location, None)
  }

  /** `Point#hash`: `@hash ||= location_hash(location)`; the value and the point with its memo filled. */
  function Hash<L>(p: Point<L>, key: L -> nat): (r: (nat, Point<L>))
    ensures CacheOk(p, key) ==> r.0 == key(p.location) && CacheOk(r.1, key)
    ensures r.1.location == p.location && r.1.cache == Some(r.0)
  {
    match p.cache
    case Some(h) => (h, p)
    case None => (key(p.location), Point(p.location, Some(key(p.location))))
  }

  /** The key is computed at most once: asking again returns the same value and changes nothing. */
  lemma HashMemoised<L>(p: Point<L>, key: L -> nat)
    ensures Hash(Hash(p, key).1, key) == (Hash(p, key).0, Hash(p, key).1)
  {
  }

  /** `Map.new(order:)`: no points, and 2^order cells along each of the two axes. */
  function NewMap<L>(order: nat): (m: Map<L>)
    ensures m.order == order && Count(m) == 0
    ensures |m.scale| == 2 && forall i :: 0 <= i < 2 ==> m.scale[i] == Pow2(order)
  {
    Map(order, [Pow2(order), Pow2(order)], [])
  }

  /** `Map#<<` */
  function Append<L>(m: Map<L>, location: L): (r: Map<L>)
    ensures Count(r) == Count(m) + 1
    ensures r.points[..Count(m)] == m.points && r.points[Count(m)].location == location
    ensures r.order == m.order && r.scale == m.scale
  {
    Map(m.order, m.scale, m.points + [NewPoint(location)])
  }

  /** `Map#count`: how many points were added, counting repeats. */
  function Count<L>(m: Map<L>): (n: nat)
    ensures n == |multiset(m.points)|
    ensures n == 0 <==> m.points == []
  {
    |m.points|
  }

  ghost predicate AllCached<L>(points: seq<Point<L>>, key: L -> nat)
  {
    forall i :: 0 <= i < |points| ==> CacheOk(points[i], key)
  }

  /** Appending keeps every memo consistent with the key. */
  lemma AppendKeepsCaches<L>(m: Map<L>, location: L, key: L -> nat)
    requires AllCached(m.points, key)
    ensures AllCached(Append(m, location).points, key)
  {
  }

  // ---------------------------------------------------------------------------
  // `sort!`: `points.sort_by!(&:hash)`

  /** Keys never decrease along the list. */
  ghost predicate SortedBy<L>(points: seq<Point<L>>, key: L -> nat)
  {
    forall i, j :: 0 <= i <= j < |points| ==> key(points[i].location) <= key(points[j].location)
  }

  /** Evaluating `hash` on every point, as `sort_by` does, fills every memo. */
  function Fill<L>(points: seq<Point<L>>, key: L -> nat): (r: seq<Point<L>>)
    ensures |r| == |points|
    ensures forall i :: 0 <= i < |points| ==> r[i].location == points[i].location && r[i].cache.Some?
  {
    seq(|points|, i requires 0 <= i < |points| => Hash(points[i], key).1)
  }

  /** Insert one point into a sorted list, before the first point with a larger key. */
  function Insert<L>(p: Point<L>, sorted: seq<Point<L>>, key: L -> nat): (r: seq<Point<L>>)
    requires SortedBy(sorted, key)
    ensures SortedBy(r, key)
    ensures multiset(r) == multiset(sorted) + multiset{p}
    ensures |r| == |sorted| + 1
  {
    if |sorted| == 0 then [p]
    else if key(p.location) <= key(sorted[0].location) then [p] + sorted
    else
      var rest := Insert(p, sorted[1..], key);
      assert sorted == [sorted[0]] + sorted[1..];
      InsertHead(sorted[0], rest, sorted[1..], p, key);
      [sorted[0]] + rest
  }

  lemma InsertHead<L>(h: Point<L>, rest: seq<Point<L>>, tail: seq<Point<L>>, p: Point<L>, key: L -> nat)
    requires SortedBy(rest, key) && SortedBy([h] + tail, key)
    requires key(h.location) < key(p.location)
    requires multiset(rest) == multiset(tail) + multiset{p}
    ensures SortedBy([h] + rest, key)
  {
    var r := [h] + rest;
    forall j | 0 <= j < |rest|
      ensures key(h.location) <= key(rest[j].location)
    {
      assert rest[j] in multiset(tail) + multiset{p};
      if rest[j] != p {
        assert rest[j] in multiset(tail);
        var k :| 0 <= k < |tail| && tail[k] == rest[j];
        assert ([h] + tail)[0] == h && ([h] + tail)[k + 1] == rest[j];
      }
    }
    forall i, j | 0 <= i <= j < |r|
      ensures key(r[i].location) <= key(r[j].location)
    {
      if i > 0 {
        assert r[i] == rest[i - 1] && r[j] == rest[j - 1];
      } else if j > 0 {
        assert r[j] == rest[j - 1];
      }
    }
  }

  /** The points ordered by key, a permutation of the given list. */
  function SortPoints<L>(points: seq<Point<L>>, key: L -> nat): (r: seq<Point<L>>)
    ensures SortedBy(r, key)
    ensures multiset(r) == multiset(points)
    ensures |r| == |points|
  {
    if |points| == 0 then []
    else
      assert points == [points[0]] + points[1..];
      Insert(points[0], SortPoints(points[1..], key), key)
  }

  /** `Map#sort!` */
  function Sort<L>(m: Map<L>, key: L -> nat): (r: Map<L>)
    ensures Count(r) == Count(m) && r.order == m.order && r.scale == m.scale
  {
    Map(m.order, m.scale, SortPoints(Fill(m.points, key), key))
  }

  /**
    After `sort!`, the points are the same locations, reordered so that their
    cached keys never decrease, and every memo is filled with the right key.
  */
  lemma SortOrdersByHash<L>(m: Map<L>, key: L -> nat)
    requires AllCached(m.points, key)
    ensures multiset(Sort(m, key).points) == multiset(Fill(m.points, key))
    ensures AllCached(Sort(m, key).points, key)
    ensures forall i, j :: 0 <= i <= j < Count(m) ==>
              Sort(m, key).points[i].cache.Some? && Sort(m, key).points[j].cache.Some?
              && Sort(m, key).points[i].cache.value <= Sort(m, key).points[j].cache.value
  {
    var filled := Fill(m.points, key);
    var sorted := Sort(m, key).points;
    forall i | 0 <= i < |filled|
      ensures CacheOk(filled[i], key) && filled[i].cache.Some?
    {
      assert CacheOk(m.points[i], key);
    }
    forall i | 0 <= i < |sorted|
      ensures CacheOk(sorted[i], key) && sorted[i].cache.Some?
    {
      assert sorted[i] in multiset(filled);
      var k :| 0 <= k < |filled| && filled[k] == sorted[i];
    }
  }

  /** With `ORDER = 30` and two axes, every Hilbert key fits in 60 bits. */
  lemma KeysFitIn60Bits(axes: seq<nat>)
    requires |axes| == 2 && Hilbert.Bounded(axes, Order)
    ensures Indexes.HilbertDistance(axes, Order) < Pow2(60)
  {
  }
}
