/**
  `Geospatial::Filter`: a list of closed integer key ranges, built by adding
  curve regions (prefix, order) in increasing key order, used to select the
  objects whose key lies in some range. Two axes are hard-coded, so a region
  at `order` spans 2^(2 * order) keys.

  The mutable `@ranges` array is modelled as a value: `Add` returns the new
  list, or the error `add` raises.
*/
module Filters {
  import opened Bits
  import opened Wrappers

  /** A closed range `min..max` of keys. */
  datatype Range = Range(min: nat, max: nat)

  datatype Error = NonSequentialPrefix

  /** `update_max`: the prefix with its low 2 * order bits set. */
  function RegionMax(prefix: nat, order: nat): nat
  {
    Or(prefix, LowMask(order * 2))
  }

  /** `Range.new(prefix, order)` */
  function NewRange(prefix: nat, order: nat): (r: Range)
    ensures r.min == prefix && r.min <= r.max
  {
    OrAtLeast(prefix, LowMask(order * 2));
    Range(prefix, RegionMax(prefix, order))
  }

  /** `include?`: the range is closed, so it includes both its ends whenever it is non-empty. */
  predicate Includes(r: Range, key: nat)
    ensures Includes(r, key) ==> r.min <= r.max
    ensures key == r.min || key == r.max ==> (Includes(r, key) <==> r.min <= r.max)
  {
    r.min <= key <= r.max
  }

  /**
    `expand!`: the range extended to cover the region, when the region starts
    right after it; `None` (Ruby's nil) otherwise.
  */
  function Expand(r: Range, prefix: nat, order: nat): (e: Option<Range>)
    ensures e.Some? <==> prefix == r.max + 1
    ensures e.Some? ==> e.value.min == r.min && e.value.max >= prefix
  {
    if r.max < prefix && prefix == r.max + 1 then
      OrAtLeast(prefix, LowMask(order * 2));
      Some(Range(r.min, RegionMax(prefix, order)))
    else None
  }

  /** `Filter#add` */
  function Add(ranges: seq<Range>, prefix: nat, order: nat): (r: Result<seq<Range>, Error>)
    ensures r.Failure? <==> |ranges| > 0 && prefix <= ranges[|ranges| - 1].max
    ensures r.Success? && |ranges| > 0 && prefix == ranges[|ranges| - 1].max + 1 ==>
              |r.value| == |ranges| && r.value[..|ranges| - 1] == ranges[..|ranges| - 1]
              && r.value[|ranges| - 1] == Range(ranges[|ranges| - 1].min, RegionMax(prefix, order))
    ensures r.Success? && (|ranges| == 0 || prefix != ranges[|ranges| - 1].max + 1) ==>
              r.value == ranges + [NewRange(prefix, order)]
  {
    if |ranges| > 0 && !(prefix > ranges[|ranges| - 1].max) then
      Failure(NonSequentialPrefix)
    else if |ranges| > 0 && Expand(ranges[|ranges| - 1], prefix, order).Some? then
      Success(ranges[..|ranges| - 1] + [Expand(ranges[|ranges| - 1], prefix, order).value])
    else
      Success(ranges + [NewRange(prefix, order)])
  }

  /** Some range includes the key. */
  ghost predicate Covered(ranges: seq<Range>, key: nat)
  {
    exists i :: 0 <= i < |ranges| && Includes(ranges[i], key)
  }

  /** `Filter#apply`: the objects whose key some range includes, in their original order. */
  function Apply<T>(ranges: seq<Range>, objects: seq<T>, key: T -> nat): (r: seq<T>)
    ensures |r| <= |objects|
  {
    if |objects| == 0 then []
    else
      (if exists i :: 0 <= i < |ranges| && Includes(ranges[i], key(objects[0])) then [objects[0]] else [])
      + Apply(ranges, objects[1..], key)
  }

  // ---------------------------------------------------------------------------
  // The invariant `add` keeps

  /** Every range is non-empty, and each next range starts more than one key after the previous ends. */
  ghost predicate Gapped(ranges: seq<Range>)
  {
    && (forall i :: 0 <= i < |ranges| ==> ranges[i].min <= ranges[i].max)
    && (forall i :: 0 <= i < |ranges| - 1 ==> ranges[i].max + 1 < ranges[i + 1].min)
  }

  lemma {:induction false} OrAtLeast(a: nat, b: nat)
    ensures Or(a, b) >= a && Or(a, b) >= b
    decreases a + b
  {
    if a != 0 && b != 0 {
      OrAtLeast(a / 2, b / 2);
    }
  }

  lemma AddKeepsGapped(ranges: seq<Range>, prefix: nat, order: nat)
    requires Gapped(ranges)
    requires Add(ranges, prefix, order).Success?
    ensures Gapped(Add(ranges, prefix, order).value)
  {
    OrAtLeast(prefix, LowMask(order * 2));
  }

  /** A gapped list is strictly ordered: every earlier range ends before every later one begins. */
  lemma {:induction false} GappedOrdered(ranges: seq<Range>, i: nat, j: nat)
    requires Gapped(ranges)
    requires i < j < |ranges|
    ensures ranges[i].max < ranges[j].min
    decreases j - i
  {
    if i + 1 < j {
      GappedOrdered(ranges, i + 1, j);
    }
  }

  /** In a gapped list a key lies in at most one range. */
  lemma RangesDisjoint(ranges: seq<Range>, key: nat, i: nat, j: nat)
    requires Gapped(ranges)
    requires i < |ranges| && j < |ranges|
    requires Includes(ranges[i], key) && Includes(ranges[j], key)
    ensures i == j
  {
    if i < j {
      GappedOrdered(ranges, i, j);
    } else if j < i {
      GappedOrdered(ranges, j, i);
    }
  }

  /**
    After a successful `add`, the covered keys are the previously covered ones
    plus exactly the keys of the region [prefix, prefix | mask].
  */
  lemma AddCovers(ranges: seq<Range>, prefix: nat, order: nat, key: nat)
    requires Gapped(ranges)
    requires Add(ranges, prefix, order).Success?
    ensures Covered(Add(ranges, prefix, order).value, key) <==>
              Covered(ranges, key) || prefix <= key <= RegionMax(prefix, order)
  {
    var r := Add(ranges, prefix, order).value;
    if |ranges| > 0 && prefix == ranges[|ranges| - 1].max + 1 {
      var n := |ranges| - 1;
      if Covered(r, key) {
        var i :| 0 <= i < |r| && Includes(r[i], key);
        if i < n {
          assert r[i] == ranges[i];
        } else if key <= ranges[n].max {
          assert Includes(ranges[n], key);
        }
      }
      if Covered(ranges, key) {
        var i :| 0 <= i < |ranges| && Includes(ranges[i], key);
        if i < n {
          assert r[i] == ranges[i];
        } else {
          assert Includes(r[n], key);
        }
      }
      if prefix <= key <= RegionMax(prefix, order) {
        assert ranges[n].min <= ranges[n].max;
        assert Includes(r[n], key);
      }
    } else {
      var n := |ranges|;
      if Covered(r, key) {
        var i :| 0 <= i < |r| && Includes(r[i], key);
        if i < n {
          assert r[i] == ranges[i];
        }
      }
      if Covered(ranges, key) {
        var i :| 0 <= i < |ranges| && Includes(ranges[i], key);
        assert r[i] == ranges[i];
      }
      if prefix <= key <= RegionMax(prefix, order) {
        assert Includes(r[n], key);
      }
    }
  }

  /** A failed `add` raises: the list it leaves behind is the list it was given. */
  lemma AddRejectsOverlap(ranges: seq<Range>, prefix: nat, order: nat)
    requires |ranges| > 0 && prefix <= ranges[|ranges| - 1].max
    ensures Add(ranges, prefix, order) == Failure(NonSequentialPrefix)
  {
  }

  /** A region whose low 2 * order bits are clear covers exactly 2^(2 * order) keys. */
  lemma RegionSpan(prefix: nat, order: nat)
    requires prefix % Pow2(order * 2) == 0
    ensures RegionMax(prefix, order) == prefix + Pow2(order * 2) - 1
  {
    var s := order * 2;
    var a := prefix / Pow2(s);
    assert prefix == a * Pow2(s);
    ShlIsMul(a, s);
    OrShlDisjoint(a, s, LowMask(s));
  }

  // ---------------------------------------------------------------------------
  // `apply` is an order-preserving filter

  lemma {:induction false} ApplyConcat<T>(ranges: seq<Range>, a: seq<T>, b: seq<T>, key: T -> nat)
    ensures Apply(ranges, a + b, key) == Apply(ranges, a, key) + Apply(ranges, b, key)
  {
    if |a| == 0 {
      assert a + b == b;
    } else {
      assert (a + b)[1..] == a[1..] + b;
      ApplyConcat(ranges, a[1..], b, key);
    }
  }

  /** An object is kept exactly when it is one of the objects and its key is covered. */
  lemma {:induction false} ApplyMembers<T>(ranges: seq<Range>, objects: seq<T>, key: T -> nat, x: T)
    ensures x in Apply(ranges, objects, key) <==> x in objects && Covered(ranges, key(x))
  {
    if |objects| > 0 {
      ApplyMembers(ranges, objects[1..], key, x);
      assert objects == [objects[0]] + objects[1..];
    }
  }

  /** Applying the filter twice keeps what applying it once kept. */
  lemma {:induction false} ApplyIdempotent<T>(ranges: seq<Range>, objects: seq<T>, key: T -> nat)
    ensures Apply(ranges, Apply(ranges, objects, key), key) == Apply(ranges, objects, key)
  {
    if |objects| > 0 {
      var head := if Covered(ranges, key(objects[0])) then [objects[0]] else [];
      ApplyIdempotent(ranges, objects[1..], key);
      ApplyConcat(ranges, head, Apply(ranges, objects[1..], key), key);
      assert Apply(ranges, head, key) == head by {
        if |head| > 0 {
          assert head[1..] == [];
        }
      }
    }
  }

  /** Two regions added in key order, the second right after the first, merge into one range. */
  lemma AdjacentRegionsMerge()
    ensures Add([], 0, 1).Success?
    ensures Add(Add([], 0, 1).value, 4, 1) == Success([Range(0, 7)])
    ensures Add(Add([], 0, 1).value, 8, 1) == Success([Range(0, 3), Range(8, 11)])
    ensures Add(Add([], 0, 1).value, 3, 1).Failure?
  {
    assert Pow2(2) == 4;
    assert Or(0, 3) == 3;
    assert Or(4, 3) == 7;
    assert Or(2, 0) == 2;
    assert Or(4, 1) == 2 * Or(2, 0) + 1;
    assert Or(8, 3) == 2 * Or(4, 1) + 1;
    var first := Add([], 0, 1).value;
    assert first == [Range(0, 3)];
    assert NewRange(8, 1) == Range(8, 11);
    assert Add(first, 8, 1) == Success(first + [NewRange(8, 1)]);
    assert first + [NewRange(8, 1)] == [Range(0, 3), Range(8, 11)];
  }
}
