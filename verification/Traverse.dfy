/**
  `Curve#traverse` and `Curve#traverse_recurse`: a top-down enumeration of the
  curve's regions. At each level every one of the 2^bit_width children is
  yielded as `[origin, size, prefix, order]`, where `prefix` is the smallest
  Hilbert key of the region and `order` counts the levels still below it; the
  traversal descends into a child unless it is a leaf or the block returned
  `:skip`.

  The block is modelled as a pure predicate `skip` on the yielded node (true for
  `:skip`), and the traversal as the sequence of nodes it yields, in order.
  The `origin` argument of `traverse_recurse` is passed along but never read, so
  it is not modelled.
*/
module CurveTraversal {
  import opened Bits
  import Indexes
  import Dimensions
  import opened Curves

  /** One yielded region. */
  datatype Node = Node(origin: seq<real>, size: seq<real>, prefix: nat, order: nat)

  /** Number of children per region, `2**bit_width`. */
  function Fanout(c: Curve): (k: nat)
    ensures k >= 1
  {
    Pow2(BitWidth(c))
  }

  /** `size.collect { |value| value * 0.5 }` */
  function Halve(size: seq<real>): (r: seq<real>)
    ensures |r| == |size|
    ensures forall i :: 0 <= i < |size| ==> r[i] * 2.0 == size[i]
  {
    seq(|size|, i requires 0 <= i < |size| => size[i] * 0.5)
  }

  /** `(value << bit_width) | prefix`: the child's key bits above the current level. */
  function ChildValue(c: Curve, value: nat, idx: nat): nat
  {
    Or(Shl(value, BitWidth(c)), idx)
  }

  /** `child_value << (order * bit_width)` */
  function ChildPrefix(c: Curve, order: nat, value: nat, idx: nat): nat
  {
    Shl(ChildValue(c, value, idx), order * BitWidth(c))
  }

  /** `(1 << order) | mask` */
  function PrefixMask(order: nat, mask: nat): nat
  {
    Or(Shl(1, order), mask)
  }

  /**
    The child's origin: the grid cell of its prefix, with every axis masked to the
    bit planes above the child's level, mapped back through the dimensions.
  */
  function ChildOrigin(c: Curve, prefixMask: nat, prefix: nat): (origin: seq<real>)
    requires CurveOk(c)
    ensures |origin| == |c.dims|
  {
    var hilbert := Indexes.FromIntegral(Indexes.HilbertIndex, prefix, BitWidth(c), c.order);
    var ordinal := Indexes.Mask(Indexes.ToOrdinal(hilbert), prefixMask);
    Dimensions.UnmapAll(c.dims, ToReals(ordinal.axes))
  }

  /** Child `idx` of the region `value`: its prefix is the first key of the region `(value << bit_width) | idx`. */
  function Child(c: Curve, order: nat, mask: nat, value: nat, half: seq<real>, idx: nat): (n: Node)
    requires CurveOk(c)
    ensures n.prefix == ChildValue(c, value, idx) * Span(c, order)
    ensures n.order == order && n.size == half && |n.origin| == |c.dims|
  {
    ChildPrefixIsKeyStart(c, order, value, idx);
    KeyStartIsProduct(c, ChildValue(c, value, idx), order);
    var prefix := ChildPrefix(c, order, value, idx);
    Node(ChildOrigin(c, PrefixMask(order, mask), prefix), half, prefix, order)
  }

  /** `traverse_recurse(order, mask, value, origin, size)` */
  function TraverseRecurse(c: Curve, order: nat, mask: nat, value: nat, size: seq<real>, skip: Node -> bool): (r: seq<Node>)
    requires CurveOk(c)
    ensures |r| >= Fanout(c)
    decreases order, 1, 0
  {
    Children(c, order, mask, value, Halve(size), skip, 0)
  }

  /** The `(2**bit_width).times` loop, from child `idx` on. */
  function Children(c: Curve, order: nat, mask: nat, value: nat, half: seq<real>, skip: Node -> bool, idx: nat): (r: seq<Node>)
    requires CurveOk(c)
    requires idx <= Fanout(c)
    ensures |r| >= Fanout(c) - idx
    decreases order, 0, Fanout(c) - idx
  {
    if idx == Fanout(c) then []
    else Region(c, order, mask, value, half, skip, idx) + Children(c, order, mask, value, half, skip, idx + 1)
  }

  /** One iteration of the loop: yield child idx, then traverse below it unless it is a leaf or skipped. */
  function Region(c: Curve, order: nat, mask: nat, value: nat, half: seq<real>, skip: Node -> bool, idx: nat): (r: seq<Node>)
    requires CurveOk(c)
    requires idx < Fanout(c)
    ensures |r| >= 1 && r[0].order == order && r[0].prefix == ChildValue(c, value, idx) * Span(c, order)
    decreases order, 0, 0
  {
    var node := Child(c, order, mask, value, half, idx);
    [node] + (if order > 0 && !skip(node)
              then TraverseRecurse(c, order - 1, PrefixMask(order, mask), ChildValue(c, value, idx), half, skip)
              else [])
  }

  /** `traverse`: start one level below the curve's order, with no mask and no value. */
  function Traverse(c: Curve, skip: Node -> bool): (r: seq<Node>)
    requires CurveOk(c)
    ensures |r| >= Fanout(c)
    ensures forall k :: 0 <= k < |r| ==> r[k].order < c.order
  {
    TraverseRange(c, c.order - 1, 0, 0, Dimensions.Sizes(c.dims), skip);
    TraverseRecurse(c, c.order - 1, 0, 0, Dimensions.Sizes(c.dims), skip)
  }

  // ---------------------------------------------------------------------------
  // Key arithmetic

  lemma ChildValueIsArith(c: Curve, value: nat, idx: nat)
    requires idx < Fanout(c)
    ensures ChildValue(c, value, idx) == value * Fanout(c) + idx
  {
    OrShlDisjoint(value, BitWidth(c), idx);
  }

  /** A child's prefix is its value followed by order * bit_width zero bits. */
  lemma ChildPrefixIsArith(c: Curve, order: nat, value: nat, idx: nat)
    requires idx < Fanout(c)
    ensures ChildPrefix(c, order, value, idx) == (value * Fanout(c) + idx) * Pow2(order * BitWidth(c))
  {
    ChildValueIsArith(c, value, idx);
    ShlIsMul(ChildValue(c, value, idx), order * BitWidth(c));
  }

  /** One level up multiplies the span of a region by the fanout. */
  lemma SpanStep(c: Curve, order: nat)
    requires order >= 1
    ensures Span(c, order) == Fanout(c) * Span(c, order - 1)
  {
    Pow2Add(BitWidth(c), LevelBits(c, order - 1));
  }

  /** The number of key bits below a region at `order`, i.e. order * bit_width. */
  function LevelBits(c: Curve, order: nat): nat
  {
    if order == 0 then 0 else LevelBits(c, order - 1) + BitWidth(c)
  }

  lemma {:induction false} LevelBitsIsProduct(c: Curve, order: nat)
    ensures LevelBits(c, order) == order * BitWidth(c)
  {
    if order > 0 {
      LevelBitsIsProduct(c, order - 1);
    }
  }

  /** The low order * bit_width bits of a child's prefix are zero. */
  lemma ChildPrefixLowBits(c: Curve, order: nat, value: nat, idx: nat, k: nat)
    requires k < order * BitWidth(c)
    ensures !Bit(ChildPrefix(c, order, value, idx), k)
  {
    BitShl(ChildValue(c, value, idx), order * BitWidth(c), k);
  }

  // ---------------------------------------------------------------------------
  // Key ranges: each node stands for the keys [prefix, prefix + 2^(order * bit_width))

  /** The number of keys in a region at the given order. */
  function Span(c: Curve, order: nat): nat
  {
    Pow2(LevelBits(c, order))
  }

  /** The first key of the region with the given value at the given order: value * Span(c, order). */
  function KeyStart(c: Curve, value: nat, order: nat): nat
  {
    if value == 0 then 0 else KeyStart(c, value - 1, order) + Span(c, order)
  }

  lemma {:induction false} KeyStartIsProduct(c: Curve, value: nat, order: nat)
    ensures KeyStart(c, value, order) == value * Span(c, order)
  {
    if value > 0 {
      KeyStartIsProduct(c, value - 1, order);
    }
  }

  /** Every node's key range lies inside [lo, hi). */
  ghost predicate Within(c: Curve, nodes: seq<Node>, lo: nat, hi: nat)
  {
    forall i :: 0 <= i < |nodes| ==> lo <= nodes[i].prefix && nodes[i].prefix + Span(c, nodes[i].order) <= hi
  }

  /** Prefixes never decrease along the sequence. */
  ghost predicate Sorted(nodes: seq<Node>)
  {
    forall i, j :: 0 <= i <= j < |nodes| ==> nodes[i].prefix <= nodes[j].prefix
  }

  ghost predicate OrdersBelow(nodes: seq<Node>, bound: nat)
  {
    forall i :: 0 <= i < |nodes| ==> nodes[i].order < bound
  }

  /** Sorted, every order below `bound`, and every key range inside [lo, hi). */
  ghost predicate Ranged(c: Curve, nodes: seq<Node>, lo: nat, hi: nat, bound: nat)
  {
    Sorted(nodes) && OrdersBelow(nodes, bound) && Within(c, nodes, lo, hi)
  }

  lemma SingleRanged(c: Curve, n: Node, hi: nat)
    requires n.prefix + Span(c, n.order) <= hi
    ensures Ranged(c, [n], n.prefix, hi, n.order + 1)
  {
  }

  /** A region followed by the nodes below it, all inside its own key range and at lower orders. */
  lemma ConsRanged(c: Curve, n: Node, below: seq<Node>, hi: nat)
    requires n.prefix + Span(c, n.order) <= hi
    requires Ranged(c, below, n.prefix, hi, n.order)
    ensures Ranged(c, [n] + below, n.prefix, hi, n.order + 1)
  {
  }

  lemma ConcatRanged(c: Curve, a: seq<Node>, b: seq<Node>, lo: nat, mid: nat, hi: nat, bound: nat)
    requires lo <= mid <= hi
    requires Ranged(c, a, lo, mid, bound) && Ranged(c, b, mid, hi, bound)
    ensures Ranged(c, a + b, lo, hi, bound)
  {
  }

  lemma KeyStartSucc(c: Curve, v: nat, order: nat)
    ensures KeyStart(c, v + 1, order) == KeyStart(c, v, order) + Span(c, order)
  {
  }

  lemma KeyStartMonotone(c: Curve, a: nat, b: nat, order: nat)
    requires a <= b
    ensures KeyStart(c, a, order) <= KeyStart(c, b, order)
  {
    KeyStartIsProduct(c, a, order);
    KeyStartIsProduct(c, b, order);
    MulMonotone(a, b, Span(c, order));
  }

  lemma MulMonotone(a: nat, b: nat, s: nat)
    requires a <= b
    ensures a * s <= b * s
  {
  }

  /** The children of the region with value v at `order` are the values v*K .. v*K + K - 1 one level down. */
  lemma KeyStartDescend(c: Curve, v: nat, order: nat)
    requires order >= 1
    ensures KeyStart(c, v * Fanout(c), order - 1) == KeyStart(c, v, order)
    ensures KeyStart(c, v * Fanout(c) + Fanout(c), order - 1) == KeyStart(c, v + 1, order)
  {
    var k := Fanout(c);
    var s' := Span(c, order - 1);
    SpanStep(c, order);
    KeyStartIsProduct(c, v * k, order - 1);
    KeyStartIsProduct(c, v * k + k, order - 1);
    KeyStartIsProduct(c, v, order);
    KeyStartIsProduct(c, v + 1, order);
    Regroup(v, k, s', Span(c, order));
  }

  lemma Regroup(v: nat, k: nat, s': nat, s: nat)
    requires s == k * s'
    ensures (v * k) * s' == v * s
    ensures (v * k + k) * s' == (v + 1) * s
  {
    assert (v * k) * s' == v * (k * s');
    assert (v * k + k) * s' == (v * k) * s' + k * s';
  }

  lemma ChildPrefixIsKeyStart(c: Curve, order: nat, value: nat, idx: nat)
    ensures ChildPrefix(c, order, value, idx) == KeyStart(c, ChildValue(c, value, idx), order)
  {
    LevelBitsIsProduct(c, order);
    ShlIsMul(ChildValue(c, value, idx), order * BitWidth(c));
    KeyStartIsProduct(c, ChildValue(c, value, idx), order);
  }

  lemma {:induction false} RegionRange(c: Curve, order: nat, mask: nat, value: nat, half: seq<real>, skip: Node -> bool, idx: nat)
    requires CurveOk(c)
    requires idx < Fanout(c)
    ensures Ranged(c, Region(c, order, mask, value, half, skip, idx),
                   KeyStart(c, ChildValue(c, value, idx), order), KeyStart(c, ChildValue(c, value, idx) + 1, order), order + 1)
    decreases order, 0, 0
  {
    var node := Child(c, order, mask, value, half, idx);
    var cv := ChildValue(c, value, idx);
    ChildPrefixIsKeyStart(c, order, value, idx);
    if order > 0 && !skip(node) {
      var below := TraverseRecurse(c, order - 1, PrefixMask(order, mask), cv, half, skip);
      TraverseRange(c, order - 1, PrefixMask(order, mask), cv, half, skip);
      RegionRangeStep(c, node, below, cv, order);
      assert Region(c, order, mask, value, half, skip, idx) == [node] + below;
    } else {
      KeyStartSucc(c, cv, order);
      SingleRanged(c, node, KeyStart(c, cv + 1, order));
      assert Region(c, order, mask, value, half, skip, idx) == [node];
    }
  }

  /** A region with value cv at `order`, followed by its traversal one level down, stays within the region's keys. */
  lemma RegionRangeStep(c: Curve, node: Node, below: seq<Node>, cv: nat, order: nat)
    requires order > 0
    requires node.prefix == KeyStart(c, cv, order) && node.order == order
    requires Ranged(c, below, KeyStart(c, cv * Fanout(c), order - 1), KeyStart(c, cv * Fanout(c) + Fanout(c), order - 1), order)
    ensures Ranged(c, [node] + below, KeyStart(c, cv, order), KeyStart(c, cv + 1, order), order + 1)
  {
    KeyStartSucc(c, cv, order);
    KeyStartDescend(c, cv, order);
    ConsRanged(c, node, below, KeyStart(c, cv + 1, order));
  }

  /** Children idx.. of a region cover the keys from child idx's prefix to the end of the region. */
  lemma {:induction false} ChildrenRange(c: Curve, order: nat, mask: nat, value: nat, half: seq<real>, skip: Node -> bool, idx: nat, base: nat)
    requires CurveOk(c)
    requires idx <= Fanout(c)
    requires base == value * Fanout(c)
    ensures Ranged(c, Children(c, order, mask, value, half, skip, idx),
                   KeyStart(c, base + idx, order), KeyStart(c, base + Fanout(c), order), order + 1)
    decreases order, 0, Fanout(c) - idx
  {
    if idx < Fanout(c) {
      var region := Region(c, order, mask, value, half, skip, idx);
      var rest := Children(c, order, mask, value, half, skip, idx + 1);
      ChildValueIsArith(c, value, idx);
      RegionRange(c, order, mask, value, half, skip, idx);
      ChildrenRange(c, order, mask, value, half, skip, idx + 1, base);
      ChildrenRangeStep(c, region, rest, ChildValue(c, value, idx), base + idx, base + (idx + 1), base + Fanout(c), order);
      RangedSame(c, Children(c, order, mask, value, half, skip, idx), region + rest,
                 KeyStart(c, base + idx, order), KeyStart(c, base + Fanout(c), order), order + 1);
    }
  }

  lemma RangedSame(c: Curve, nodes: seq<Node>, same: seq<Node>, lo: nat, hi: nat, bound: nat)
    requires nodes == same && Ranged(c, same, lo, hi, bound)
    ensures Ranged(c, nodes, lo, hi, bound)
  {
  }

  /**
    The region of child `start` followed by the children after it covers the keys
    from `start` up to `last`; `cv` and `next` are `start` and `start + 1` as the
    callers spell them.
  */
  lemma ChildrenRangeStep(c: Curve, region: seq<Node>, rest: seq<Node>, cv: nat, start: nat, next: nat, last: nat, order: nat)
    requires cv == start && next == start + 1 && start < last
    requires Ranged(c, region, KeyStart(c, cv, order), KeyStart(c, cv + 1, order), order + 1)
    requires Ranged(c, rest, KeyStart(c, next, order), KeyStart(c, last, order), order + 1)
    ensures Ranged(c, region + rest, KeyStart(c, start, order), KeyStart(c, last, order), order + 1)
  {
    KeyStartMonotone(c, start, next, order);
    KeyStartMonotone(c, next, last, order);
    ConcatRanged(c, region, rest, KeyStart(c, start, order), KeyStart(c, next, order), KeyStart(c, last, order), order + 1);
  }

  /** A region at `order` with value v covers exactly the keys [v * K * span, (v + 1) * K * span). */
  lemma {:induction false} TraverseRange(c: Curve, order: nat, mask: nat, value: nat, size: seq<real>, skip: Node -> bool)
    requires CurveOk(c)
    ensures Ranged(c, TraverseRecurse(c, order, mask, value, size, skip),
                   KeyStart(c, value * Fanout(c), order), KeyStart(c, value * Fanout(c) + Fanout(c), order), order + 1)
    decreases order, 1, 0
  {
    ChildrenRange(c, order, mask, value, Halve(size), skip, 0, value * Fanout(c));
  }

  /** `traverse` yields prefixes in non-decreasing order, all of them keys of the curve. */
  lemma TraverseSorted(c: Curve, skip: Node -> bool)
    requires CurveOk(c)
    ensures Sorted(Traverse(c, skip))
    ensures forall i :: 0 <= i < |Traverse(c, skip)| ==>
              Traverse(c, skip)[i].prefix < Pow2(BitWidth(c) * c.order)
  {
    TraverseRange(c, c.order - 1, 0, 0, Dimensions.Sizes(c.dims), skip);
    KeyStartDescend(c, 0, c.order);
    assert KeyStart(c, 1, c.order) == Span(c, c.order);
    LevelBitsIsProduct(c, c.order);
    assert BitWidth(c) * c.order == c.order * BitWidth(c);
  }
  // ---------------------------------------------------------------------------
  // Counting a full traversal

  /** The block that never returns `:skip`. */
  predicate NoSkip(n: Node)
  {
    false
  }

  /** k^i */
  function Power(k: nat, i: nat): nat
  {
    if i == 0 then 1 else k * Power(k, i - 1)
  }

  /** k^1 + k^2 + ... + k^n */
  function GeomSum(k: nat, n: nat): nat
  {
    if n == 0 then 0 else GeomSum(k, n - 1) + Power(k, n)
  }

  lemma {:induction false} GeomSumShift(k: nat, n: nat)
    ensures k * (1 + GeomSum(k, n)) == GeomSum(k, n + 1)
  {
    if n == 0 {
      assert Power(k, 1) == k * Power(k, 0);
    } else {
      var g := GeomSum(k, n - 1);
      var p := Power(k, n);
      GeomSumShift(k, n - 1);
      assert GeomSum(k, n) == g + p;
      assert k * (1 + g + p) == k * (1 + g) + k * p;
      assert Power(k, n + 1) == k * p;
      assert GeomSum(k, n + 1) == GeomSum(k, n) + k * p;
    }
  }

  /** Nodes yielded below one entered child at `order`: a full region one level down. */
  function BelowCount(k: nat, order: nat): nat
  {
    if order == 0 then 0 else GeomSum(k, order)
  }

  lemma {:induction false} RegionCount(c: Curve, order: nat, mask: nat, value: nat, half: seq<real>, idx: nat)
    requires CurveOk(c)
    requires idx < Fanout(c)
    ensures |Region(c, order, mask, value, half, NoSkip, idx)| == 1 + BelowCount(Fanout(c), order)
    decreases order, 0, 0
  {
    if order > 0 {
      TraverseCount(c, order - 1, PrefixMask(order, mask), ChildValue(c, value, idx), half);
    }
  }

  lemma {:induction false} ChildrenCount(c: Curve, order: nat, mask: nat, value: nat, half: seq<real>, idx: nat)
    requires CurveOk(c)
    requires idx <= Fanout(c)
    ensures |Children(c, order, mask, value, half, NoSkip, idx)| == (Fanout(c) - idx) * (1 + BelowCount(Fanout(c), order))
    decreases order, 0, Fanout(c) - idx
  {
    if idx < Fanout(c) {
      var region := Region(c, order, mask, value, half, NoSkip, idx);
      var rest := Children(c, order, mask, value, half, NoSkip, idx + 1);
      RegionCount(c, order, mask, value, half, idx);
      ChildrenCount(c, order, mask, value, half, idx + 1);
      CountStep(Fanout(c), idx, 1 + BelowCount(Fanout(c), order), |region|, |rest|);
      assert Children(c, order, mask, value, half, NoSkip, idx) == region + rest;
    }
  }

  /** One more child adds one region's worth of nodes. */
  lemma CountStep(k: nat, idx: nat, b: nat, head: nat, tail: nat)
    requires idx < k
    requires head == b && tail == (k - (idx + 1)) * b
    ensures head + tail == (k - idx) * b
  {
    MulSuccLeft(k - (idx + 1), b);
  }

  lemma MulSuccLeft(a: nat, b: nat)
    ensures (a + 1) * b == b + a * b
  {
  }

  /** A region at `order` with no skips yields k + k^2 + ... + k^(order+1) nodes. */
  lemma {:induction false} TraverseCount(c: Curve, order: nat, mask: nat, value: nat, size: seq<real>)
    requires CurveOk(c)
    ensures |TraverseRecurse(c, order, mask, value, size, NoSkip)| == GeomSum(Fanout(c), order + 1)
    decreases order, 1, 0
  {
    ChildrenCount(c, order, mask, value, Halve(size), 0);
    GeomSumShift(Fanout(c), order);
  }

  /** A full traversal yields (2^d)^1 + ... + (2^d)^order nodes, d the number of axes. */
  lemma FullTraverseCount(c: Curve)
    requires CurveOk(c)
    ensures |Traverse(c, NoSkip)| == GeomSum(Pow2(BitWidth(c)), c.order)
  {
    TraverseCount(c, c.order - 1, 0, 0, Dimensions.Sizes(c.dims));
  }

  // ---------------------------------------------------------------------------
  // Skipping prunes exactly the subtree: nothing below a skipped node, all children below the others

  /** n lies strictly below m: a lower level inside m's key range. */
  ghost predicate Covers(c: Curve, m: Node, n: Node)
  {
    n.order < m.order && m.prefix <= n.prefix < m.prefix + Span(c, m.order)
  }

  /** No yielded node lies below a node for which the block returned `:skip`. */
  ghost predicate Pruned(c: Curve, nodes: seq<Node>, skip: Node -> bool)
  {
    forall i, j :: 0 <= i < |nodes| && 0 <= j < |nodes| && skip(nodes[i]) ==> !Covers(c, nodes[i], nodes[j])
  }

  lemma ConcatPruned(c: Curve, a: seq<Node>, b: seq<Node>, skip: Node -> bool, lo: nat, mid: nat, hi: nat)
    requires Pruned(c, a, skip) && Pruned(c, b, skip)
    requires Within(c, a, lo, mid) && Within(c, b, mid, hi)
    ensures Pruned(c, a + b, skip)
  {
    var ab := a + b;
    forall i, j | 0 <= i < |ab| && 0 <= j < |ab| && skip(ab[i])
      ensures !Covers(c, ab[i], ab[j])
    {
      if i < |a| && j >= |a| {
        assert ab[j] == b[j - |a|];
      } else if i >= |a| && j < |a| {
        assert ab[i] == b[i - |a|];
      } else if i >= |a| {
        assert ab[i] == b[i - |a|] && ab[j] == b[j - |a|];
      }
    }
  }

  lemma {:induction false} RegionPruned(c: Curve, order: nat, mask: nat, value: nat, half: seq<real>, skip: Node -> bool, idx: nat)
    requires CurveOk(c)
    requires idx < Fanout(c)
    ensures Pruned(c, Region(c, order, mask, value, half, skip, idx), skip)
    decreases order, 0, 0
  {
    var node := Child(c, order, mask, value, half, idx);
    var cv := ChildValue(c, value, idx);
    if order > 0 && !skip(node) {
      var below := TraverseRecurse(c, order - 1, PrefixMask(order, mask), cv, half, skip);
      TraversePruned(c, order - 1, PrefixMask(order, mask), cv, half, skip);
      TraverseRange(c, order - 1, PrefixMask(order, mask), cv, half, skip);
      var r := [node] + below;
      assert Region(c, order, mask, value, half, skip, idx) == r;
      forall i, j | 0 <= i < |r| && 0 <= j < |r| && skip(r[i])
        ensures !Covers(c, r[i], r[j])
      {
        assert i > 0;
        assert r[i] == below[i - 1];
        if j > 0 {
          assert r[j] == below[j - 1];
        }
      }
    }
  }

  lemma {:induction false} ChildrenPruned(c: Curve, order: nat, mask: nat, value: nat, half: seq<real>, skip: Node -> bool, idx: nat, base: nat)
    requires CurveOk(c)
    requires idx <= Fanout(c)
    requires base == value * Fanout(c)
    ensures Pruned(c, Children(c, order, mask, value, half, skip, idx), skip)
    decreases order, 0, Fanout(c) - idx
  {
    if idx < Fanout(c) {
      var head := Region(c, order, mask, value, half, skip, idx);
      var tail := Children(c, order, mask, value, half, skip, idx + 1);
      RegionPruned(c, order, mask, value, half, skip, idx);
      ChildrenPruned(c, order, mask, value, half, skip, idx + 1, base);
      var mid := SplitRange(c, order, mask, value, half, skip, idx, base);
      ConcatPruned(c, head, tail, skip, KeyStart(c, base + idx, order), mid, KeyStart(c, base + Fanout(c), order));
      assert Children(c, order, mask, value, half, skip, idx) == head + tail;
    }
  }

  /** The key ranges of one child's region and of the children after it meet at `mid`. */
  lemma SplitRange(c: Curve, order: nat, mask: nat, value: nat, half: seq<real>, skip: Node -> bool, idx: nat, base: nat)
    returns (mid: nat)
    requires CurveOk(c)
    requires idx < Fanout(c)
    requires base == value * Fanout(c)
    ensures Within(c, Region(c, order, mask, value, half, skip, idx), KeyStart(c, base + idx, order), mid)
    ensures Within(c, Children(c, order, mask, value, half, skip, idx + 1), mid, KeyStart(c, base + Fanout(c), order))
  {
    ChildValueIsArith(c, value, idx);
    RegionRange(c, order, mask, value, half, skip, idx);
    ChildrenRange(c, order, mask, value, half, skip, idx + 1, base);
    mid := KeyStart(c, base + idx + 1, order);
  }

  lemma {:induction false} TraversePruned(c: Curve, order: nat, mask: nat, value: nat, size: seq<real>, skip: Node -> bool)
    requires CurveOk(c)
    ensures Pruned(c, TraverseRecurse(c, order, mask, value, size, skip), skip)
    decreases order, 1, 0
  {
    ChildrenPruned(c, order, mask, value, Halve(size), skip, 0, value * Fanout(c));
  }

  /** Returning `:skip` for a node suppresses every yield below it. */
  lemma SkipPrunesSubtree(c: Curve, skip: Node -> bool)
    requires CurveOk(c)
    ensures Pruned(c, Traverse(c, skip), skip)
  {
    TraversePruned(c, c.order - 1, 0, 0, Dimensions.Sizes(c.dims), skip);
  }
  lemma {:induction false} AtLevelWithin(c: Curve, nodes: seq<Node>, order: nat, lo: nat, hi: nat)
    requires Within(c, nodes, lo, hi)
    ensures Within(c, AtLevel(nodes, order), lo, hi)
  {
    if |nodes| > 0 {
      AtLevelWithin(c, nodes[1..], order, lo, hi);
    }
  }

  /** The first level below a region: its 2^bit_width children, in index order, inside its key range. */
  lemma RecurseLevel(c: Curve, order: nat, mask: nat, value: nat, size: seq<real>, skip: Node -> bool)
    requires CurveOk(c)
    ensures var kids := AtLevel(TraverseRecurse(c, order, mask, value, size, skip), order);
            |kids| == Fanout(c)
            && (forall j :: 0 <= j < |kids| ==> kids[j] == Child(c, order, mask, value, Halve(size), j))
            && Within(c, kids, KeyStart(c, value, order + 1), KeyStart(c, value + 1, order + 1))
  {
    ChildrenLevel(c, order, mask, value, Halve(size), skip, 0);
    TraverseRange(c, order, mask, value, size, skip);
    KeyStartDescend(c, value, order + 1);
    AtLevelWithin(c, TraverseRecurse(c, order, mask, value, size, skip), order,
                  KeyStart(c, value, order + 1), KeyStart(c, value + 1, order + 1));
  }

  /**
    The other half of pruning: a node above the leaves for which the block did not
    return `:skip` is followed by all 2^bit_width of its children, in index order,
    each inside its key range.
  */
  lemma RegionDescends(c: Curve, order: nat, mask: nat, value: nat, half: seq<real>, skip: Node -> bool, idx: nat)
    requires CurveOk(c)
    requires idx < Fanout(c)
    requires order > 0 && !skip(Child(c, order, mask, value, half, idx))
    ensures var r := Region(c, order, mask, value, half, skip, idx);
            var kids := AtLevel(r, order - 1);
            |kids| == Fanout(c)
            && forall j :: 0 <= j < |kids| ==>
                 kids[j] == Child(c, order - 1, PrefixMask(order, mask), ChildValue(c, value, idx), Halve(half), j)
                 && Covers(c, r[0], kids[j])
  {
    var node := Child(c, order, mask, value, half, idx);
    var cv := ChildValue(c, value, idx);
    var below := TraverseRecurse(c, order - 1, PrefixMask(order, mask), cv, half, skip);
    assert Region(c, order, mask, value, half, skip, idx) == [node] + below;
    RecurseLevel(c, order - 1, PrefixMask(order, mask), cv, half, skip);
    AtLevelConcat([node], below, order - 1);
    assert AtLevel([node], order - 1) == [] + AtLevel([node][1..], order - 1);
    assert [node][1..] == [];
    KeyStartIsProduct(c, cv, order);
    KeyStartSucc(c, cv, order);
  }

  /** The example of the traversal on a square grid of order 2: 4 + 16 regions. */
  lemma SquareTraverseCount(c: Curve)
    requires CurveOk(c) && |c.dims| == 2 && c.order == 2
    ensures |Traverse(c, NoSkip)| == 20
  {
    FullTraverseCount(c);
    assert Pow2(2) == 4;
    assert Power(4, 2) == 16 && Power(4, 1) == 4;
  }

  // ---------------------------------------------------------------------------
  // What each yielded node describes

  /**
    A node of a curve of order n at level o: its size is the full extent divided
    by 2^(n - o), and its origin is the grid cell of its prefix with the bit
    planes below o cleared, mapped back through the dimensions.
  */
  ghost predicate NodeOk(c: Curve, n: Node)
    requires CurveOk(c)
  {
    && n.order < c.order
    && SizeAt(c, n.size, n.order)
    && n.origin == ChildOrigin(c, HighMask(c.order, n.order), n.prefix)
  }

  /** The extent of a region at level `order`: each axis's size divided by 2^(curve order - order). */
  ghost predicate SizeAt(c: Curve, size: seq<real>, order: nat)
    requires order <= c.order
  {
    |size| == |c.dims| && forall i :: 0 <= i < |c.dims| ==> size[i] * (Pow2(c.order - order) as real) == c.dims[i].size
  }

  ghost predicate AllOk(c: Curve, nodes: seq<Node>)
    requires CurveOk(c)
  {
    forall i :: 0 <= i < |nodes| ==> NodeOk(c, nodes[i])
  }

  /** Adding plane `order` to the mask of planes above it gives the planes from `order` up. */
  lemma PrefixMaskStep(n: nat, order: nat)
    requires order < n
    ensures PrefixMask(order, HighMask(n, order + 1)) == HighMask(n, order)
  {
    forall k: nat
      ensures Bit(PrefixMask(order, HighMask(n, order + 1)), k) == Bit(HighMask(n, order), k)
    {
      BitOr(Shl(1, order), HighMask(n, order + 1), k);
      BitShl(1, order, k);
      if k >= order {
        BitPow2(0, k - order);
      }
      BitHighMask(n, order + 1, k);
      BitHighMask(n, order, k);
    }
    BitsEqual(PrefixMask(order, HighMask(n, order + 1)), HighMask(n, order));
  }

  /** Half of a size at one level is the size one level further down. */
  lemma HalfSizes(c: Curve, order: nat, size: seq<real>)
    requires order < c.order
    requires SizeAt(c, size, order + 1)
    ensures SizeAt(c, Halve(size), order)
  {
    var p := Pow2(c.order - order - 1);
    assert Pow2(c.order - order) == 2 * p;
    forall i | 0 <= i < |size|
      ensures Halve(size)[i] * (Pow2(c.order - order) as real) == c.dims[i].size
    {
      var h := Halve(size)[i];
      assert h * ((2 * p) as real) == (h * 2.0) * (p as real);
    }
  }

  lemma ChildOk(c: Curve, order: nat, mask: nat, value: nat, half: seq<real>, idx: nat)
    requires CurveOk(c)
    requires order < c.order && mask == HighMask(c.order, order + 1)
    requires SizeAt(c, half, order)
    ensures NodeOk(c, Child(c, order, mask, value, half, idx))
  {
    PrefixMaskStep(c.order, order);
  }

  lemma {:induction false} RegionOk(c: Curve, order: nat, mask: nat, value: nat, half: seq<real>, skip: Node -> bool, idx: nat)
    requires CurveOk(c)
    requires idx < Fanout(c)
    requires order < c.order && mask == HighMask(c.order, order + 1)
    requires SizeAt(c, half, order)
    ensures AllOk(c, Region(c, order, mask, value, half, skip, idx))
    decreases order, 0, 0
  {
    var node := Child(c, order, mask, value, half, idx);
    ChildOk(c, order, mask, value, half, idx);
    PrefixMaskStep(c.order, order);
    if order > 0 && !skip(node) {
      var below := TraverseRecurse(c, order - 1, PrefixMask(order, mask), ChildValue(c, value, idx), half, skip);
      TraverseOk(c, order - 1, PrefixMask(order, mask), ChildValue(c, value, idx), half, skip);
      assert Region(c, order, mask, value, half, skip, idx) == [node] + below;
    }
  }

  lemma {:induction false} ChildrenOk(c: Curve, order: nat, mask: nat, value: nat, half: seq<real>, skip: Node -> bool, idx: nat)
    requires CurveOk(c)
    requires idx <= Fanout(c)
    requires order < c.order && mask == HighMask(c.order, order + 1)
    requires SizeAt(c, half, order)
    ensures AllOk(c, Children(c, order, mask, value, half, skip, idx))
    decreases order, 0, Fanout(c) - idx
  {
    if idx < Fanout(c) {
      RegionOk(c, order, mask, value, half, skip, idx);
      ChildrenOk(c, order, mask, value, half, skip, idx + 1);
    }
  }

  lemma {:induction false} TraverseOk(c: Curve, order: nat, mask: nat, value: nat, size: seq<real>, skip: Node -> bool)
    requires CurveOk(c)
    requires order < c.order && mask == HighMask(c.order, order + 1)
    requires SizeAt(c, size, order + 1)
    ensures AllOk(c, TraverseRecurse(c, order, mask, value, size, skip))
    decreases order, 1, 0
  {
    HalfSizes(c, order, size);
    ChildrenOk(c, order, mask, value, Halve(size), skip, 0);
  }

  /** Every yielded node has the size and origin of its region. */
  lemma TraverseNodes(c: Curve, skip: Node -> bool)
    requires CurveOk(c)
    ensures AllOk(c, Traverse(c, skip))
  {
    var sizes := Dimensions.Sizes(c.dims);
    assert SizeAt(c, sizes, c.order);
    TraverseOk(c, c.order - 1, 0, 0, sizes, skip);
  }

  /** At the lowest level nothing is masked, so a leaf's origin is the corner of its own cell. */
  lemma LeafOrigin(c: Curve, prefix: nat)
    requires CurveOk(c)
    requires prefix < Pow2(BitWidth(c) * c.order)
    ensures ChildOrigin(c, HighMask(c.order, 0), prefix) == UnmapKey(c, prefix)
  {
    var hilbert := Indexes.FromIntegral(Indexes.HilbertIndex, prefix, BitWidth(c), c.order);
    var ordinal := Indexes.ToOrdinal(hilbert);
    assert HighMask(c.order, 0) == LowMask(c.order);
    Indexes.MaskLowBitsIdentity(ordinal);
  }

  /** Mapping a leaf's origin back onto the curve gives exactly its prefix. */
  lemma LeafKeys(c: Curve, skip: Node -> bool)
    requires CurveOk(c)
    ensures forall n :: n in Traverse(c, skip) && n.order == 0 ==>
              |n.origin| == |c.dims| && NonNegativeCell(CellOf(c, n.origin)) && MapCoords(c, n.origin) == n.prefix
  {
    var t := Traverse(c, skip);
    TraverseNodes(c, skip);
    TraverseSorted(c, skip);
    forall n | n in t && n.order == 0
      ensures |n.origin| == |c.dims| && NonNegativeCell(CellOf(c, n.origin)) && MapCoords(c, n.origin) == n.prefix
    {
      var i :| 0 <= i < |t| && t[i] == n;
      assert NodeOk(c, t[i]);
      LeafOrigin(c, n.prefix);
      MapUnmapKey(c, n.prefix);
    }
  }

  // ---------------------------------------------------------------------------
  // Each level yields its children in index order

  /** The nodes of one level, in the order they are yielded. */
  function AtLevel(nodes: seq<Node>, order: nat): (r: seq<Node>)
    ensures |r| <= |nodes|
    ensures forall i :: 0 <= i < |r| ==> r[i].order == order
  {
    if |nodes| == 0 then []
    else (if nodes[0].order == order then [nodes[0]] else []) + AtLevel(nodes[1..], order)
  }

  lemma {:induction false} AtLevelConcat(a: seq<Node>, b: seq<Node>, order: nat)
    ensures AtLevel(a + b, order) == AtLevel(a, order) + AtLevel(b, order)
  {
    if |a| > 0 {
      assert (a + b)[1..] == a[1..] + b;
      AtLevelConcat(a[1..], b, order);
    } else {
      assert a + b == b;
    }
  }

  lemma {:induction false} AtLevelAbsent(nodes: seq<Node>, order: nat)
    requires OrdersBelow(nodes, order)
    ensures AtLevel(nodes, order) == []
  {
    if |nodes| > 0 {
      AtLevelAbsent(nodes[1..], order);
    }
  }

  lemma RegionLevel(c: Curve, order: nat, mask: nat, value: nat, half: seq<real>, skip: Node -> bool, idx: nat)
    requires CurveOk(c)
    requires idx < Fanout(c)
    ensures AtLevel(Region(c, order, mask, value, half, skip, idx), order) == [Child(c, order, mask, value, half, idx)]
  {
    var node := Child(c, order, mask, value, half, idx);
    var below := if order > 0 && !skip(node)
                 then TraverseRecurse(c, order - 1, PrefixMask(order, mask), ChildValue(c, value, idx), half, skip)
                 else [];
    if order > 0 && !skip(node) {
      TraverseRange(c, order - 1, PrefixMask(order, mask), ChildValue(c, value, idx), half, skip);
    }
    AtLevelAbsent(below, order);
    AtLevelConcat([node], below, order);
    assert AtLevel([node], order) == [node] + AtLevel([], order);
  }

  /** The nodes of level `order` among children idx.. are exactly those children, in index order. */
  ghost predicate LevelIsChildren(c: Curve, order: nat, mask: nat, value: nat, half: seq<real>, skip: Node -> bool, idx: nat)
    requires CurveOk(c)
    requires idx <= Fanout(c)
  {
    var level := AtLevel(Children(c, order, mask, value, half, skip, idx), order);
    |level| == Fanout(c) - idx
    && forall j :: 0 <= j < |level| ==> level[j] == Child(c, order, mask, value, half, idx + j)
  }

  lemma ChildrenLevelStep(c: Curve, order: nat, mask: nat, value: nat, half: seq<real>, skip: Node -> bool, idx: nat)
    requires CurveOk(c)
    requires idx < Fanout(c)
    requires LevelIsChildren(c, order, mask, value, half, skip, idx + 1)
    ensures LevelIsChildren(c, order, mask, value, half, skip, idx)
  {
    var head := Region(c, order, mask, value, half, skip, idx);
    var tail := Children(c, order, mask, value, half, skip, idx + 1);
    assert Children(c, order, mask, value, half, skip, idx) == head + tail;
    RegionLevel(c, order, mask, value, half, skip, idx);
    AtLevelConcat(head, tail, order);
    var r := AtLevel(head, order) + AtLevel(tail, order);
    forall j | 0 <= j < |r|
      ensures r[j] == Child(c, order, mask, value, half, idx + j)
    {
      if j > 0 {
        assert r[j] == AtLevel(tail, order)[j - 1];
        assert idx + 1 + (j - 1) == idx + j;
      }
    }
  }

  lemma {:induction false} ChildrenLevel(c: Curve, order: nat, mask: nat, value: nat, half: seq<real>, skip: Node -> bool, idx: nat)
    requires CurveOk(c)
    requires idx <= Fanout(c)
    ensures LevelIsChildren(c, order, mask, value, half, skip, idx)
    decreases Fanout(c) - idx
  {
    if idx < Fanout(c) {
      ChildrenLevel(c, order, mask, value, half, skip, idx + 1);
      ChildrenLevelStep(c, order, mask, value, half, skip, idx);
    }
  }

  /**
    The first level of a traversal yields all 2^bit_width children of the whole
    space, child j starting at key j * 2^((order - 1) * bit_width), each with half
    the extent of the space.
  */
  lemma TopLevel(c: Curve, skip: Node -> bool)
    requires CurveOk(c)
    ensures var top := AtLevel(Traverse(c, skip), c.order - 1);
            |top| == Fanout(c)
            && forall j :: 0 <= j < |top| ==>
                 top[j].prefix == KeyStart(c, j, c.order - 1) && top[j].size == Halve(Dimensions.Sizes(c.dims))
  {
    var half := Halve(Dimensions.Sizes(c.dims));
    var kids := Children(c, c.order - 1, 0, 0, half, skip, 0);
    assert Traverse(c, skip) == kids;
    ChildrenLevel(c, c.order - 1, 0, 0, half, skip, 0);
    var top := AtLevel(kids, c.order - 1);
    forall j | 0 <= j < |top|
      ensures top[j].prefix == KeyStart(c, j, c.order - 1) && top[j].size == half
    {
      assert top[j] == Child(c, c.order - 1, 0, 0, half, 0 + j);
      TopChild(c, half, j);
    }
  }

  /** Child j of the whole space starts at the j-th region of the level below the top. */
  lemma TopChild(c: Curve, half: seq<real>, j: nat)
    requires CurveOk(c)
    requires j < Fanout(c)
    ensures Child(c, c.order - 1, 0, 0, half, j).prefix == KeyStart(c, j, c.order - 1)
    ensures Child(c, c.order - 1, 0, 0, half, j).size == half
  {
    ChildValueIsArith(c, 0, j);
    ChildPrefixIsKeyStart(c, c.order - 1, 0, j);
  }
}
