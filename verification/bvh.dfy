/** Construction of the bounding volume hierarchy over the level's static
    obstacles (Raycast.cpp, `BVH::build` and `BVH::new_node`).

    The obstacles live in one array that the build rearranges in place; a
    node covers the contiguous range `[start, start + size)` of that array.
    Nodes are appended to a flat list, children before their parent, and a
    node is a leaf exactly when its two child indices are equal.

    `GameObject::get_BBox` is not part of this model: a primitive carries
    the box it would return. */
module Bvh {
  import opened Geometry

  /** An obstacle: the box `get_BBox` gives it, and an identity. */
  datatype Prim = Prim(box: Box, id: nat)

  /** `Node`: box, covered range, children. */
  datatype Node = Node(bbox: Box, start: nat, size: nat, l: nat, r: nat)

  /** `Node::is_leaf` */
  predicate IsLeaf(n: Node)
  {
    n.l == n.r
  }

  /** The BVH: its nodes, the (rearranged) obstacles and the root index. */
  datatype Tree = Tree(nodes: seq<Node>, obstacles: seq<Prim>, root: nat)

  // ------------------------------------------------------------ permutations

  /** `b` rearranges `a` within `[lo, hi)` and agrees with it elsewhere. */
  predicate Perm(a: seq<Prim>, b: seq<Prim>, lo: nat, hi: nat)
  {
    lo <= hi <= |a| && |a| == |b| && a[..lo] == b[..lo] && a[hi..] == b[hi..]
    && multiset(a[lo..hi]) == multiset(b[lo..hi])
  }

  lemma PermRefl(a: seq<Prim>, lo: nat, hi: nat)
    requires lo <= hi <= |a|
    ensures Perm(a, a, lo, hi)
  {
  }

  lemma PermTrans(a: seq<Prim>, b: seq<Prim>, c: seq<Prim>, lo: nat, hi: nat)
    requires Perm(a, b, lo, hi) && Perm(b, c, lo, hi)
    ensures Perm(a, c, lo, hi)
  {
  }

  /** The slice `[lo, hi)` in three parts. */
  lemma SliceSplit(a: seq<Prim>, lo: nat, m1: nat, m2: nat, hi: nat)
    requires lo <= m1 <= m2 <= hi <= |a|
    ensures multiset(a[lo..hi]) == multiset(a[lo..m1]) + multiset(a[m1..m2]) + multiset(a[m2..hi])
  {
    assert a[lo..hi] == a[lo..m1] + a[m1..m2] + a[m2..hi];
  }

  /** A rearrangement of a sub-range is one of any range around it. */
  lemma PermWiden(a: seq<Prim>, b: seq<Prim>, lo: nat, m1: nat, m2: nat, hi: nat)
    requires lo <= m1 <= m2 <= hi <= |a|
    requires Perm(a, b, m1, m2)
    ensures Perm(a, b, lo, hi)
  {
    assert a[..lo] == a[..m1][..lo] && b[..lo] == b[..m1][..lo];
    assert a[hi..] == a[m2..][hi - m2..] && b[hi..] == b[m2..][hi - m2..];
    assert a[lo..m1] == a[..m1][lo..] && b[lo..m1] == b[..m1][lo..];
    assert a[m2..hi] == a[m2..][..hi - m2] && b[m2..hi] == b[m2..][..hi - m2];
    SliceSplit(a, lo, m1, m2, hi);
    SliceSplit(b, lo, m1, m2, hi);
  }

  /** Outside the rearranged range nothing moves. */
  lemma PermOutside(a: seq<Prim>, b: seq<Prim>, lo: nat, hi: nat, i: nat)
    requires Perm(a, b, lo, hi) && i < |a| && (i < lo || hi <= i)
    ensures a[i] == b[i]
  {
    if i < lo {
      assert a[..lo][i] == b[..lo][i];
    } else {
      assert a[hi..][i - hi] == b[hi..][i - hi];
    }
  }

  /** `std::iter_swap` */
  function Swap(s: seq<Prim>, i: nat, j: nat): (r: seq<Prim>)
    requires i < |s| && j < |s|
    ensures |r| == |s| && r[i] == s[j] && r[j] == s[i]
    ensures forall k :: 0 <= k < |s| && k != i && k != j ==> r[k] == s[k]
  {
    s[i := s[j]][j := s[i]]
  }

  lemma SwapPerm(s: seq<Prim>, i: nat, j: nat, lo: nat, hi: nat)
    requires lo <= i < hi && lo <= j < hi && hi <= |s|
    ensures Perm(s, Swap(s, i, j), lo, hi)
  {
    var r := Swap(s, i, j);
    assert s[..lo] == r[..lo];
    assert s[hi..] == r[hi..];
    assert multiset(s[lo..hi]) == multiset(r[lo..hi]) by {
      var a, b := s[lo..hi], r[lo..hi];
      assert b == a[i - lo := a[j - lo]][j - lo := a[i - lo]];
    }
  }

  // --------------------------------------------------------------- partition

  /** The partition predicate: the centre of the box lies below `thr` on
      `axis`. */
  predicate GoesLeft(p: Prim, axis: nat, thr: real)
  {
    Coord(Center(p.box), axis) < thr
  }

  predicate AllLeft(s: seq<Prim>, lo: nat, hi: nat, axis: nat, thr: real)
    requires lo <= hi <= |s|
  {
    forall i :: lo <= i < hi ==> GoesLeft(s[i], axis, thr)
  }

  predicate NoneLeft(s: seq<Prim>, lo: nat, hi: nat, axis: nat, thr: real)
    requires lo <= hi <= |s|
  {
    forall i :: lo <= i < hi ==> !GoesLeft(s[i], axis, thr)
  }

  /** The forward scan of libstdc++'s bidirectional `std::partition`: skip
      elements that go left; at the first that does not, scan from the back. */
  function Advance(s: seq<Prim>, lo: nat, hi: nat, first: nat, last: nat, axis: nat, thr: real): (r: (seq<Prim>, nat))
    requires lo <= first <= last <= hi <= |s|
    requires AllLeft(s, lo, first, axis, thr) && NoneLeft(s, last, hi, axis, thr)
    ensures Perm(s, r.0, lo, hi) && lo <= r.1 <= hi
    ensures AllLeft(r.0, lo, r.1, axis, thr) && NoneLeft(r.0, r.1, hi, axis, thr)
    decreases last - first, 1
  {
    if first == last then
      PermRefl(s, lo, hi);
      (s, first)
    else if GoesLeft(s[first], axis, thr) then Advance(s, lo, hi, first + 1, last, axis, thr)
    else Retreat(s, lo, hi, first, last - 1, axis, thr)
  }

  /** The backward scan: skip elements that stay right; at the first that
      goes left, swap it with the one at `first` and resume the forward
      scan. */
  function Retreat(s: seq<Prim>, lo: nat, hi: nat, first: nat, last: nat, axis: nat, thr: real): (r: (seq<Prim>, nat))
    requires lo <= first <= last < hi <= |s|
    requires AllLeft(s, lo, first, axis, thr) && NoneLeft(s, last + 1, hi, axis, thr)
    requires !GoesLeft(s[first], axis, thr)
    ensures Perm(s, r.0, lo, hi) && lo <= r.1 <= hi
    ensures AllLeft(r.0, lo, r.1, axis, thr) && NoneLeft(r.0, r.1, hi, axis, thr)
    decreases last - first, 0
  {
    if first == last then
      PermRefl(s, lo, hi);
      (s, first)
    else if !GoesLeft(s[last], axis, thr) then Retreat(s, lo, hi, first, last - 1, axis, thr)
    else
      var t := Swap(s, first, last);
      SwapPerm(s, first, last, lo, hi);
      var r := Advance(t, lo, hi, first + 1, last, axis, thr);
      PermTrans(s, t, r.0, lo, hi);
      r
  }

  /** `std::partition(begin, end, pred)` on `[lo, hi)`: a rearrangement of
      the range after which the elements going left come first, and the
      returned position separates them from the rest. */
  function Partition(s: seq<Prim>, lo: nat, hi: nat, axis: nat, thr: real): (r: (seq<Prim>, nat))
    requires lo <= hi <= |s|
    ensures Perm(s, r.0, lo, hi) && lo <= r.1 <= hi
    ensures AllLeft(r.0, lo, r.1, axis, thr) && NoneLeft(r.0, r.1, hi, axis, thr)
  {
    Advance(s, lo, hi, lo, hi, axis, thr)
  }

  // ----------------------------------------------------------- bucket boxes

  /** Every box of `arr[lo..hi)` lies in `bb`. */
  predicate EnclosesRange(bb: Box, arr: seq<Prim>, lo: nat, hi: nat)
    requires lo <= hi <= |arr|
  {
    forall i :: lo <= i < hi ==> Encloses(bb, arr[i].box)
  }

  /** `compute_bbox_all`: the first box, enlarged by each following one. The
      box of an empty range is never used; it is the zero box here. The
      result is the least box enclosing the range. */
  function BoxAll(arr: seq<Prim>, lo: nat, hi: nat): (b: Box)
    requires lo <= hi <= |arr|
    ensures EnclosesRange(b, arr, lo, hi)
    ensures lo < hi ==> forall c :: EnclosesRange(c, arr, lo, hi) ==> Encloses(c, b)
    decreases hi - lo
  {
    if hi == lo then Box(Vec2(0.0, 0.0), Vec2(0.0, 0.0))
    else if hi == lo + 1 then arr[lo].box
    else EncloseBox(BoxAll(arr, lo, hi - 1), arr[hi - 1].box)
  }

  /** A box enclosing a range encloses any rearrangement of it. */
  lemma EnclosesRangePerm(bb: Box, a: seq<Prim>, b: seq<Prim>, lo: nat, hi: nat)
    requires Perm(a, b, lo, hi) && EnclosesRange(bb, a, lo, hi)
    ensures EnclosesRange(bb, b, lo, hi)
  {
    forall i | lo <= i < hi
      ensures Encloses(bb, b[i].box)
    {
      assert b[i] == b[lo..hi][i - lo];
      assert b[i] in multiset(a[lo..hi]);
      var j :| lo <= j < hi && a[j] == b[i];
    }
  }

  /** Same boxes outside a rearranged range. */
  lemma EnclosesRangeApart(bb: Box, a: seq<Prim>, b: seq<Prim>, lo: nat, hi: nat, s: nat, e: nat)
    requires Perm(a, b, lo, hi) && s <= e <= |a| && (e <= lo || hi <= s)
    requires EnclosesRange(bb, a, s, e)
    ensures EnclosesRange(bb, b, s, e)
  {
    forall i | s <= i < e
      ensures Encloses(bb, b[i].box)
    {
      PermOutside(a, b, lo, hi, i);
    }
  }

  // --------------------------------------------------------- area-cost split

  /** A cost, where the search starts from infinity. */
  datatype Cost = Infinite | Finite(c: real)

  /** `c < c_min` */
  predicate Cheaper(c: real, m: Cost)
  {
    m.Infinite? || c < m.c
  }

  /** The state of the split search: the current arrangement, the least
      cost so far and the position `best_split` of the split that had it. */
  datatype Search = Search(arr: seq<Prim>, cMin: Cost, best: nat)

  /** The search has found nothing (`best` is `begin`, the cost infinite),
      or `best` is a position strictly inside the range. */
  predicate Consistent(s: Search, lo: nat, hi: nat)
  {
    (s.best == lo && s.cMin.Infinite?) || (lo < s.best < hi && s.cMin.Finite?)
  }

  /** Area cost of splitting at `p`: each side's surface area weighted by its
      count. */
  function SplitCost(arr: seq<Prim>, lo: nat, p: nat, hi: nat): real
    requires lo <= p <= hi <= |arr|
  {
    SurfaceArea(BoxAll(arr, lo, p)) * ((p - lo) as real) + SurfaceArea(BoxAll(arr, p, hi)) * ((hi - p) as real)
  }

  /** The bucket loop on one axis from bucket `k`: partition at
      `extent*(k+1)/8` (not offset by the box's minimum), stop at the first
      partition with an empty side, and keep a strictly cheaper split. The
      partitions accumulate: each rearranges the result of the previous
      one. */
  function Splits(st: Search, lo: nat, hi: nat, axis: nat, extent: real, k: nat): (r: Search)
    requires lo < hi <= |st.arr| && k <= 7 && Consistent(st, lo, hi)
    ensures Perm(st.arr, r.arr, lo, hi) && Consistent(r, lo, hi)
    ensures st.cMin.Finite? ==> r.cMin.Finite?
    decreases 7 - k
  {
    if k == 7 then
      PermRefl(st.arr, lo, hi);
      st
    else
      var thr := extent * ((k + 1) as real) / 8.0;
      var part := Partition(st.arr, lo, hi, axis, thr);
      var p := part.1;
      if p == lo || p == hi then st.(arr := part.0)
      else
        var c := SplitCost(part.0, lo, p, hi);
        var next := if Cheaper(c, st.cMin) then Search(part.0, Finite(c), p) else st.(arr := part.0);
        var r := Splits(next, lo, hi, axis, extent, k + 1);
        PermTrans(st.arr, part.0, r.arr, lo, hi);
        r
  }

  /** One axis of the search: skipped unless the node box has a positive
      extent on it. */
  function SearchAxis(st: Search, lo: nat, hi: nat, bb: Box, axis: nat): (r: Search)
    requires lo < hi <= |st.arr| && Consistent(st, lo, hi)
    ensures Perm(st.arr, r.arr, lo, hi) && Consistent(r, lo, hi)
  {
    var extent := Coord(bb.max, axis) - Coord(bb.min, axis);
    if !(extent > 0.0) then
      PermRefl(st.arr, lo, hi);
      st
    else Splits(st, lo, hi, axis, extent, 0)
  }

  /** The search over x, then y, from an infinite cost with `best_split` at
      `begin`. */
  function BestSplit(arr: seq<Prim>, lo: nat, hi: nat, bb: Box): (r: Search)
    requires lo < hi <= |arr|
    ensures Perm(arr, r.arr, lo, hi)
    ensures r.best == lo || lo < r.best < hi
    ensures r.best == lo <==> r.cMin.Infinite?
  {
    var s0 := Search(arr, Infinite, lo);
    var s1 := SearchAxis(s0, lo, hi, bb, 0);
    var s2 := SearchAxis(s1, lo, hi, bb, 1);
    PermTrans(arr, s1.arr, s2.arr, lo, hi);
    s2
  }

  /** Neither axis is searched when the node box is a point: the search
      finds nothing, and the node becomes a leaf. */
  lemma FlatBoxFindsNothing(arr: seq<Prim>, lo: nat, hi: nat, bb: Box)
    requires lo < hi <= |arr|
    requires bb.max.x - bb.min.x <= 0.0 && bb.max.y - bb.min.y <= 0.0
    ensures BestSplit(arr, lo, hi, bb) == Search(arr, Infinite, lo)
  {
  }

  // ------------------------------------------------------------------ build

  /** The result of building a range: the arrangement, the node list and
      the index of the range's node. */
  datatype Built = Built(arr: seq<Prim>, nodes: seq<Node>, id: nat)

  /** `find_best_partition` on `[lo, hi)` with node box `bb`: a leaf when
      the range is small enough or no split was found; otherwise the left
      range is built, then the right one, then the node itself is appended,
      so its index is the last. */
  function BuildRange(arr: seq<Prim>, nodes: seq<Node>, lo: nat, hi: nat, bb: Box, maxLeaf: nat): (r: Built)
    requires lo < hi <= |arr|
    ensures Perm(arr, r.arr, lo, hi)
    ensures |nodes| < |r.nodes| && r.nodes[..|nodes|] == nodes && r.id == |r.nodes| - 1
    ensures r.nodes[r.id].bbox == bb && r.nodes[r.id].start == lo && r.nodes[r.id].size == hi - lo
    decreases hi - lo
  {
    var n := hi - lo;
    if n <= maxLeaf then
      PermRefl(arr, lo, hi);
      Built(arr, nodes + [Node(bb, lo, n, 0, 0)], |nodes|)
    else
      var s := BestSplit(arr, lo, hi, bb);
      var left := BoxAll(s.arr, lo, s.best);
      var right := BoxAll(s.arr, s.best, hi);
      if s.best == lo || s.best == hi then
        Built(s.arr, nodes + [Node(bb, lo, n, 0, 0)], |nodes|)
      else
        var l := BuildRange(s.arr, nodes, lo, s.best, left, maxLeaf);
        var r := BuildRange(l.arr, l.nodes, s.best, hi, right, maxLeaf);
        PermWiden(s.arr, l.arr, lo, lo, s.best, hi);
        PermWiden(l.arr, r.arr, lo, s.best, hi, hi);
        PermTrans(arr, s.arr, l.arr, lo, hi);
        PermTrans(arr, l.arr, r.arr, lo, hi);
        ExtendsTwice(nodes, l.nodes, r.nodes, Node(bb, lo, n, l.id, r.id));
        Built(r.arr, r.nodes + [Node(bb, lo, n, l.id, r.id)], |r.nodes|)
  }

  /** A list that extends one that extends `a`, with one more node, still
      extends `a`. */
  lemma ExtendsTwice(a: seq<Node>, b: seq<Node>, c: seq<Node>, x: Node)
    requires |a| < |b| < |c| && b[..|a|] == a && c[..|b|] == b
    ensures (c + [x])[..|a|] == a
  {
    assert (c + [x])[..|a|] == c[..|b|][..|a|];
  }

  /** `BVH::build`: an empty input leaves no nodes (and the root index as it
      was); otherwise the whole array is built with its enclosing box. */
  function Build(t: Tree, prims: seq<Prim>, maxLeaf: nat): (r: Tree)
    ensures multiset(r.obstacles) == multiset(prims)
    ensures |prims| == 0 ==> r.nodes == [] && r.root == t.root
    ensures |prims| > 0 ==> r.root == |r.nodes| - 1
  {
    if |prims| == 0 then Tree([], prims, t.root)
    else
      var b := BuildRange(prims, [], 0, |prims|, BoxAll(prims, 0, |prims|), maxLeaf);
      assert prims[0..|prims|] == prims && b.arr[0..|b.arr|] == b.arr;
      Tree(b.nodes, b.arr, b.id)
  }

  // --------------------------------------------------------------- validity

  /** A node covers a non-empty range of the array whose boxes its box
      encloses; an interior node's children come before it, and split its
      range into a left part and a right part in that order. */
  predicate NodeOk(nodes: seq<Node>, arr: seq<Prim>, k: nat)
    requires k < |nodes|
  {
    var nd := nodes[k];
    0 < nd.size && nd.start + nd.size <= |arr| && EnclosesRange(nd.bbox, arr, nd.start, nd.start + nd.size)
    && (!IsLeaf(nd) ==>
          nd.l < nd.r < k
          && nodes[nd.l].start == nd.start
          && nodes[nd.r].start == nd.start + nodes[nd.l].size
          && nodes[nd.l].size + nodes[nd.r].size == nd.size)
  }

  predicate ValidBvh(nodes: seq<Node>, arr: seq<Prim>)
  {
    forall k :: 0 <= k < |nodes| ==> NodeOk(nodes, arr, k)
  }

  /** A valid tree whose root is the last node and covers every obstacle. */
  predicate WellFormed(t: Tree)
  {
    && ValidBvh(t.nodes, t.obstacles)
    && (|t.obstacles| == 0 <==> |t.nodes| == 0)
    && (|t.nodes| > 0 ==> t.root == |t.nodes| - 1 && t.nodes[t.root].start == 0
                          && t.nodes[t.root].size == |t.obstacles|)
  }

  /** The node's range lies before `lo` or from `hi` on. */
  predicate Apart(nd: Node, lo: nat, hi: nat)
  {
    nd.start + nd.size <= lo || hi <= nd.start
  }

  /** The range lies within `[lo, hi)`. */
  predicate InRange(nd: Node, lo: nat, hi: nat)
  {
    lo <= nd.start && nd.start + nd.size <= hi
  }

  /** Rearranging a range no node covers keeps every node valid. */
  lemma KeepValid(nodes: seq<Node>, a: seq<Prim>, b: seq<Prim>, lo: nat, hi: nat)
    requires ValidBvh(nodes, a) && Perm(a, b, lo, hi)
    requires forall k :: 0 <= k < |nodes| ==> Apart(nodes[k], lo, hi)
    ensures ValidBvh(nodes, b)
  {
    forall k | 0 <= k < |nodes|
      ensures NodeOk(nodes, b, k)
    {
      var nd := nodes[k];
      assert NodeOk(nodes, a, k);
      EnclosesRangeApart(nd.bbox, a, b, lo, hi, nd.start, nd.start + nd.size);
    }
  }

  /** Appending a node that is valid on its own keeps the list valid. */
  lemma AppendValid(nodes: seq<Node>, arr: seq<Prim>, nd: Node)
    requires ValidBvh(nodes, arr) && NodeOk(nodes + [nd], arr, |nodes|)
    ensures ValidBvh(nodes + [nd], arr)
  {
    forall k | 0 <= k < |nodes|
      ensures NodeOk(nodes + [nd], arr, k)
    {
      assert NodeOk(nodes, arr, k);
      assert (nodes + [nd])[k] == nodes[k];
      var c := nodes[k];
      if !IsLeaf(c) {
        assert (nodes + [nd])[c.l] == nodes[c.l] && (nodes + [nd])[c.r] == nodes[c.r];
      }
    }
  }

  /** Building a range keeps the node list valid, provided the nodes
      already there cover ranges apart from it and `bb` encloses it; the
      new nodes cover parts of the range. */
  lemma {:induction false} BuildRangeValid(arr: seq<Prim>, nodes: seq<Node>, lo: nat, hi: nat, bb: Box, maxLeaf: nat)
    requires lo < hi <= |arr|
    requires ValidBvh(nodes, arr)
    requires forall k :: 0 <= k < |nodes| ==> Apart(nodes[k], lo, hi)
    requires EnclosesRange(bb, arr, lo, hi)
    ensures var r := BuildRange(arr, nodes, lo, hi, bb, maxLeaf);
      ValidBvh(r.nodes, r.arr) && forall k :: |nodes| <= k < |r.nodes| ==> InRange(r.nodes[k], lo, hi)
    decreases hi - lo, 1
  {
    var n := hi - lo;
    var r := BuildRange(arr, nodes, lo, hi, bb, maxLeaf);
    if n <= maxLeaf {
      assert r == Built(arr, nodes + [Node(bb, lo, n, 0, 0)], |nodes|);
      AppendValid(nodes, arr, Node(bb, lo, n, 0, 0));
    } else {
      var s := BestSplit(arr, lo, hi, bb);
      EnclosesRangePerm(bb, arr, s.arr, lo, hi);
      KeepValid(nodes, arr, s.arr, lo, hi);
      if s.best == lo || s.best == hi {
        assert r == Built(s.arr, nodes + [Node(bb, lo, n, 0, 0)], |nodes|);
        AppendValid(nodes, s.arr, Node(bb, lo, n, 0, 0));
      } else {
        SplitValid(s.arr, nodes, lo, s.best, hi, bb, maxLeaf);
      }
    }
  }

  /** The interior case: the left range, then the right range, then the
      node over both. */
  lemma {:induction false} SplitValid(arr: seq<Prim>, nodes: seq<Node>, lo: nat, mid: nat, hi: nat, bb: Box, maxLeaf: nat)
    requires lo < mid < hi <= |arr|
    requires ValidBvh(nodes, arr)
    requires forall k :: 0 <= k < |nodes| ==> Apart(nodes[k], lo, hi)
    requires EnclosesRange(bb, arr, lo, hi)
    ensures var l := BuildRange(arr, nodes, lo, mid, BoxAll(arr, lo, mid), maxLeaf);
      var r := BuildRange(l.arr, l.nodes, mid, hi, BoxAll(arr, mid, hi), maxLeaf);
      var top := Node(bb, lo, hi - lo, l.id, r.id);
      ValidBvh(r.nodes + [top], r.arr) && forall k :: |nodes| <= k < |r.nodes| + 1 ==> InRange((r.nodes + [top])[k], lo, hi)
    decreases hi - lo, 0
  {
    var left := BoxAll(arr, lo, mid);
    var right := BoxAll(arr, mid, hi);
    var l := BuildRange(arr, nodes, lo, mid, left, maxLeaf);
    BuildRangeValid(arr, nodes, lo, mid, left, maxLeaf);
    EnclosesRangeApart(right, arr, l.arr, lo, mid, mid, hi);
    LeftApart(nodes, l.nodes, lo, mid, hi);
    var r := BuildRange(l.arr, l.nodes, mid, hi, right, maxLeaf);
    BuildRangeValid(l.arr, l.nodes, mid, hi, right, maxLeaf);
    PermWiden(arr, l.arr, lo, lo, mid, hi);
    PermWiden(l.arr, r.arr, lo, mid, hi, hi);
    PermTrans(arr, l.arr, r.arr, lo, hi);
    EnclosesRangePerm(bb, arr, r.arr, lo, hi);
    assert r.nodes[..|l.nodes|] == l.nodes;
    assert r.nodes[l.id] == l.nodes[l.id];
    var top := Node(bb, lo, hi - lo, l.id, r.id);
    assert NodeOk(r.nodes + [top], r.arr, |r.nodes|);
    AppendValid(r.nodes, r.arr, top);
    NewNodesInRange(nodes, l.nodes, r.nodes, top, lo, mid, hi);
  }

  /** After the left range is built, every node lies apart from the right
      range. */
  lemma LeftApart(nodes: seq<Node>, built: seq<Node>, lo: nat, mid: nat, hi: nat)
    requires lo <= mid <= hi && |nodes| <= |built| && built[..|nodes|] == nodes
    requires forall k :: 0 <= k < |nodes| ==> Apart(nodes[k], lo, hi)
    requires forall k :: |nodes| <= k < |built| ==> InRange(built[k], lo, mid)
    ensures forall k :: 0 <= k < |built| ==> Apart(built[k], mid, hi)
  {
    forall k | 0 <= k < |built|
      ensures Apart(built[k], mid, hi)
    {
      if k < |nodes| {
        assert built[k] == built[..|nodes|][k];
      }
    }
  }

  lemma NewNodesInRange(nodes: seq<Node>, left: seq<Node>, right: seq<Node>, top: Node, lo: nat, mid: nat, hi: nat)
    requires |nodes| <= |left| <= |right| && right[..|left|] == left
    requires forall k :: |nodes| <= k < |left| ==> InRange(left[k], lo, mid)
    requires forall k :: |left| <= k < |right| ==> InRange(right[k], mid, hi)
    requires InRange(top, lo, hi) && lo <= mid <= hi
    ensures forall k :: |nodes| <= k < |right| + 1 ==> InRange((right + [top])[k], lo, hi)
  {
    forall k | |nodes| <= k < |right| + 1
      ensures InRange((right + [top])[k], lo, hi)
    {
      if k < |left| {
        assert (right + [top])[k] == right[..|left|][k];
      } else if k < |right| {
        assert (right + [top])[k] == right[k];
      }
    }
  }

  /** `BVH::build` yields a well-formed tree holding the same obstacles. */
  lemma BuildWellFormed(t: Tree, prims: seq<Prim>, maxLeaf: nat)
    ensures WellFormed(Build(t, prims, maxLeaf))
  {
    if |prims| > 0 {
      var bb := BoxAll(prims, 0, |prims|);
      BuildRangeValid(prims, [], 0, |prims|, bb, maxLeaf);
    }
  }
}
