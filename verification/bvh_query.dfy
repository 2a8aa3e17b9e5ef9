/** The nearest-hit query of the bounding volume hierarchy (Raycast.cpp,
    `BVH::hit`), and its agreement with a linear scan over the obstacles.

    `Ray2D`, `Trace` and `GameObject::hit` are not part of this model. A ray
    is a `Geometry.Ray` with a window `bounds` of admissible distances. Each
    obstacle meets the ray at most once, at a distance given by `contact`,
    and only at a point of its box; its `hit` on a window reports that
    distance exactly when it lies in the window. */
module BvhQuery {
  import opened Wrappers
  import opened Geometry
  import opened Bvh

  /** `Trace`: whether something was hit, and at what distance. */
  datatype Trace = Trace(hit: bool, distance: real)

  /** `GameObject::hit` on the window `w`. The distance of a miss is not
      looked at. */
  function PrimHit(p: Prim, contact: Prim -> Option<real>, w: Window): (r: Trace)
    ensures r.hit <==> contact(p).Some? && Within(contact(p).value, w)
    ensures r.hit ==> r.distance == contact(p).value
  {
    match contact(p)
    case Some(c) => if Within(c, w) then Trace(true, c) else Trace(false, w.hi)
    case None => Trace(false, w.hi)
  }

  /** The loop over a leaf's obstacles `[i, e)`: a hit replaces `closest`
      only when strictly nearer, and then bounds the window of the rest. */
  function LeafScan(arr: seq<Prim>, contact: Prim -> Option<real>, i: nat, e: nat, w: Window, closest: Trace): Trace
    requires i <= e <= |arr|
    decreases e - i
  {
    if i == e then closest
    else
      var tr := PrimHit(arr[i], contact, w);
      if tr.hit && tr.distance < closest.distance then LeafScan(arr, contact, i + 1, e, Window(w.lo, tr.distance), tr)
      else LeafScan(arr, contact, i + 1, e, w, closest)
  }

  /** `find_closest_hit` on node `n` with window `t`: give up when the
      window starts at or beyond the closest hit, clamp its end to the
      closest hit, give up when it is then empty, and otherwise scan a leaf
      or descend. */
  function Visit(nodes: seq<Node>, arr: seq<Prim>, contact: Prim -> Option<real>, ray: Ray, bounds: Window,
                 n: nat, t: Window, closest: Trace): Trace
    requires ValidBvh(nodes, arr) && n < |nodes|
    decreases n, 2
  {
    if t.lo >= closest.distance then closest
    else
      var t1 := Window(t.lo, Min(t.hi, closest.distance));
      if t1.lo > t1.hi then closest
      else
        var nd := nodes[n];
        assert NodeOk(nodes, arr, n);
        if IsLeaf(nd) then
          LeafScan(arr, contact, nd.start, nd.start + nd.size,
                   Window(Max(bounds.lo, t1.lo), Min(bounds.hi, t1.hi)), closest)
        else Descend(nodes, arr, contact, ray, bounds, n, t1, closest)
  }

  /** `min(w.hi, d)` as the new end of `w`. */
  function Clamp(w: Window, d: real): Window
  {
    Window(w.lo, Min(w.hi, d))
  }

  /** An interior node: test both child boxes on the window; follow a
      single hit child when its entry is before the closest hit; with both
      hit, visit the one with the larger entry first. */
  function Descend(nodes: seq<Node>, arr: seq<Prim>, contact: Prim -> Option<real>, ray: Ray, bounds: Window,
                   n: nat, t: Window, closest: Trace): Trace
    requires ValidBvh(nodes, arr) && n < |nodes| && !IsLeaf(nodes[n])
    decreases n, 1
  {
    var nd := nodes[n];
    assert NodeOk(nodes, arr, n);
    var hl := Hit(nodes[nd.l].bbox, ray, t);
    var hr := Hit(nodes[nd.r].bbox, ray, t);
    if !hl.hit && !hr.hit then closest
    else
      var tl := if hl.hit then Clamp(hl.times, closest.distance) else hl.times;
      var tr := if hr.hit then Clamp(hr.times, closest.distance) else hr.times;
      if hl.hit && !hr.hit then
        if tl.lo < closest.distance then Visit(nodes, arr, contact, ray, bounds, nd.l, tl, closest) else closest
      else if hr.hit && !hl.hit then
        if tr.lo < closest.distance then Visit(nodes, arr, contact, ray, bounds, nd.r, tr, closest) else closest
      else if tl.lo < tr.lo then Both(nodes, arr, contact, ray, bounds, n, nd.r, tr, nd.l, tl, closest)
      else Both(nodes, arr, contact, ray, bounds, n, nd.l, tl, nd.r, tr, closest)
  }

  /** Both children hit: visit `first` if its entry is before the closest
      hit, then `second` if its entry still is and its window clamped to
      the (possibly nearer) closest hit is not empty. */
  function Both(nodes: seq<Node>, arr: seq<Prim>, contact: Prim -> Option<real>, ray: Ray, bounds: Window,
                n: nat, first: nat, tf: Window, second: nat, ts: Window, closest: Trace): Trace
    requires ValidBvh(nodes, arr) && n < |nodes| && first < n && second < n
    decreases n, 0
  {
    var c1 := if tf.lo < closest.distance then Visit(nodes, arr, contact, ray, bounds, first, tf, closest) else closest;
    if ts.lo < c1.distance then
      var ts2 := Clamp(ts, c1.distance);
      if ts2.lo <= ts2.hi then Visit(nodes, arr, contact, ray, bounds, second, ts2, c1) else c1
    else c1
  }

  /** `BVH::hit`: no hit at the far bound, unless a node finds a nearer
      one. */
  function Query(tree: Tree, ray: Ray, bounds: Window, contact: Prim -> Option<real>): Trace
    requires WellFormed(tree)
  {
    var init := Trace(false, bounds.hi);
    if |tree.nodes| == 0 then init
    else Visit(tree.nodes, tree.obstacles, contact, ray, bounds, tree.root, bounds, init)
  }

  /** The reference: one window over every obstacle in order. */
  function LinearScan(arr: seq<Prim>, contact: Prim -> Option<real>, bounds: Window): Trace
  {
    LeafScan(arr, contact, 0, |arr|, bounds, Trace(false, bounds.hi))
  }

  // ------------------------------------------------------------- properties

  /** Every obstacle's box is non-empty. */
  predicate ProperPrims(arr: seq<Prim>)
  {
    forall i :: 0 <= i < |arr| ==> !Empty(arr[i].box)
  }

  /** Every contact is a point of the obstacle's box. */
  predicate ContactsInBoxes(arr: seq<Prim>, contact: Prim -> Option<real>, ray: Ray)
  {
    forall i :: 0 <= i < |arr| && contact(arr[i]).Some? ==> Contains(arr[i].box, At(ray, contact(arr[i]).value))
  }

  /** `r` is `closest`, or a strictly nearer hit at some obstacle's contact
      not before the window start. */
  predicate Found(r: Trace, closest: Trace, arr: seq<Prim>, contact: Prim -> Option<real>, bounds: Window)
  {
    r == closest
    || (r.hit && bounds.lo <= r.distance < closest.distance
        && exists i :: 0 <= i < |arr| && contact(arr[i]) == Some(r.distance))
  }

  /** No contact of `[s, e)` within `w` and `bounds` is nearer than `r`. */
  predicate Covers(r: Trace, arr: seq<Prim>, contact: Prim -> Option<real>, s: nat, e: nat, w: Window, bounds: Window)
    requires s <= e <= |arr|
  {
    forall i :: (s <= i < e && contact(arr[i]).Some? && Within(contact(arr[i]).value, w)
                 && Within(contact(arr[i]).value, bounds)) ==> r.distance <= contact(arr[i]).value
  }

  lemma FoundTrans(r: Trace, c1: Trace, closest: Trace, arr: seq<Prim>, contact: Prim -> Option<real>, bounds: Window)
    requires Found(r, c1, arr, contact, bounds) && Found(c1, closest, arr, contact, bounds)
    requires r.distance <= c1.distance
    ensures Found(r, closest, arr, contact, bounds)
  {
  }

  /** The leaf loop finds at least as near as every contact in its window,
      and what it reports is an obstacle's contact. */
  lemma {:induction false} LeafScanSpec(arr: seq<Prim>, contact: Prim -> Option<real>, i: nat, e: nat, w: Window,
                                        closest: Trace, bounds: Window)
    requires i <= e <= |arr|
    requires w.hi <= closest.distance && bounds.lo <= w.lo
    ensures var r := LeafScan(arr, contact, i, e, w, closest);
      && r.distance <= closest.distance
      && Found(r, closest, arr, contact, bounds)
      && Covers(r, arr, contact, i, e, w, Window(w.lo, w.hi))
    decreases e - i
  {
    var r := LeafScan(arr, contact, i, e, w, closest);
    if i < e {
      var tr := PrimHit(arr[i], contact, w);
      if tr.hit && tr.distance < closest.distance {
        var w' := Window(w.lo, tr.distance);
        LeafScanSpec(arr, contact, i + 1, e, w', tr, bounds);
        FoundTrans(r, tr, closest, arr, contact, bounds);
        forall j | i <= j < e && contact(arr[j]).Some? && Within(contact(arr[j]).value, w)
          ensures r.distance <= contact(arr[j]).value
        {
          if j > i && contact(arr[j]).value <= tr.distance {
            assert Within(contact(arr[j]).value, Window(w'.lo, w'.hi));
          }
        }
      } else {
        LeafScanSpec(arr, contact, i + 1, e, w, closest, bounds);
      }
    }
  }

  /** A non-empty box encloses nothing but non-empty boxes... and a box
      enclosing a non-empty box is non-empty. */
  lemma EnclosingNotEmpty(outer: Box, inner: Box)
    requires Encloses(outer, inner) && !Empty(inner)
    ensures !Empty(outer)
  {
  }

  /** The assumptions of the query on a tree. */
  predicate Setting(nodes: seq<Node>, arr: seq<Prim>, contact: Prim -> Option<real>, ray: Ray)
  {
    ValidBvh(nodes, arr) && RegularDir(ray.dir) && ProperPrims(arr) && ContactsInBoxes(arr, contact, ray)
  }

  /** A child's box test passes on every contact of its obstacles within
      the window, and keeps the contact in the narrowed window. */
  lemma ChildSees(nodes: seq<Node>, arr: seq<Prim>, contact: Prim -> Option<real>, ray: Ray, k: nat, i: nat, t: Window)
    requires Setting(nodes, arr, contact, ray) && k < |nodes|
    requires nodes[k].start <= i < nodes[k].start + nodes[k].size
    requires NodeOk(nodes, arr, k)
    requires contact(arr[i]).Some? && Within(contact(arr[i]).value, t)
    ensures var h := Hit(nodes[k].bbox, ray, t);
      h.hit && Within(contact(arr[i]).value, h.times)
  {
    var c := contact(arr[i]).value;
    var b := nodes[k].bbox;
    assert Encloses(b, arr[i].box);
    EnclosingNotEmpty(b, arr[i].box);
    EnclosesPoints(b, arr[i].box, At(ray, c));
    HitExact(b, ray, t, c);
  }

  /** What a visit of node `n` with window `t` promises: it never gets
      farther, reports only obstacle contacts, and is at least as near as
      every contact of the node's obstacles within `t` and `bounds`. */
  predicate VisitPost(r: Trace, closest: Trace, nodes: seq<Node>, arr: seq<Prim>, contact: Prim -> Option<real>,
                      bounds: Window, n: nat, t: Window)
    requires ValidBvh(nodes, arr) && n < |nodes|
  {
    assert NodeOk(nodes, arr, n);
    r.distance <= closest.distance
    && Found(r, closest, arr, contact, bounds)
    && Covers(r, arr, contact, nodes[n].start, nodes[n].start + nodes[n].size, t, bounds)
  }

  lemma {:induction false} VisitSpec(nodes: seq<Node>, arr: seq<Prim>, contact: Prim -> Option<real>, ray: Ray,
                                     bounds: Window, n: nat, t: Window, closest: Trace)
    requires Setting(nodes, arr, contact, ray) && n < |nodes|
    ensures VisitPost(Visit(nodes, arr, contact, ray, bounds, n, t, closest), closest, nodes, arr, contact, bounds, n, t)
    decreases n, 2
  {
    var r := Visit(nodes, arr, contact, ray, bounds, n, t, closest);
    assert NodeOk(nodes, arr, n);
    var nd := nodes[n];
    if t.lo < closest.distance {
      var t1 := Window(t.lo, Min(t.hi, closest.distance));
      if t1.lo <= t1.hi {
        if IsLeaf(nd) {
          var w := Window(Max(bounds.lo, t1.lo), Min(bounds.hi, t1.hi));
          LeafScanSpec(arr, contact, nd.start, nd.start + nd.size, w, closest, bounds);
          NarrowCovers(r, closest, arr, contact, nd.start, nd.start + nd.size, w, t, bounds);
        } else {
          DescendSpec(nodes, arr, contact, ray, bounds, n, t1, closest);
          ClampCovers(r, closest, arr, contact, nd.start, nd.start + nd.size, t1, t, bounds);
        }
      }
    }
  }

  /** Covering the window clamped to the closest hit covers the whole
      window, for a result no farther than that hit. */
  lemma ClampCovers(r: Trace, closest: Trace, arr: seq<Prim>, contact: Prim -> Option<real>, s: nat, e: nat,
                    t1: Window, t: Window, bounds: Window)
    requires s <= e <= |arr|
    requires t1 == Window(t.lo, Min(t.hi, closest.distance)) && r.distance <= closest.distance
    requires Covers(r, arr, contact, s, e, t1, bounds)
    ensures Covers(r, arr, contact, s, e, t, bounds)
  {
  }

  /** The leaf window is the clamped window cut to `bounds`. */
  lemma NarrowCovers(r: Trace, closest: Trace, arr: seq<Prim>, contact: Prim -> Option<real>, s: nat, e: nat,
                     w: Window, t: Window, bounds: Window)
    requires s <= e <= |arr|
    requires w == Window(Max(bounds.lo, t.lo), Min(bounds.hi, Min(t.hi, closest.distance)))
    requires r.distance <= closest.distance
    requires Covers(r, arr, contact, s, e, Window(w.lo, w.hi), Window(w.lo, w.hi))
    ensures Covers(r, arr, contact, s, e, t, bounds)
  {
    forall i | s <= i < e && contact(arr[i]).Some? && Within(contact(arr[i]).value, t) && Within(contact(arr[i]).value, bounds)
      ensures r.distance <= contact(arr[i]).value
    {
      var c := contact(arr[i]).value;
      if c <= closest.distance {
        assert Within(c, Window(w.lo, w.hi));
      }
    }
  }

  lemma {:induction false} DescendSpec(nodes: seq<Node>, arr: seq<Prim>, contact: Prim -> Option<real>, ray: Ray,
                                       bounds: Window, n: nat, t: Window, closest: Trace)
    requires Setting(nodes, arr, contact, ray) && n < |nodes| && !IsLeaf(nodes[n])
    requires t.hi <= closest.distance
    ensures VisitPost(Descend(nodes, arr, contact, ray, bounds, n, t, closest), closest, nodes, arr, contact, bounds, n, t)
    decreases n, 1
  {
    var r := Descend(nodes, arr, contact, ray, bounds, n, t, closest);
    assert NodeOk(nodes, arr, n);
    var nd := nodes[n];
    assert NodeOk(nodes, arr, nd.l) && NodeOk(nodes, arr, nd.r);
    var hl := Hit(nodes[nd.l].bbox, ray, t);
    var hr := Hit(nodes[nd.r].bbox, ray, t);
    var tl := if hl.hit then Clamp(hl.times, closest.distance) else hl.times;
    var tr := if hr.hit then Clamp(hr.times, closest.distance) else hr.times;
    if hl.hit && !hr.hit {
      if tl.lo < closest.distance {
        VisitSpec(nodes, arr, contact, ray, bounds, nd.l, tl, closest);
      }
    } else if hr.hit && !hl.hit {
      if tr.lo < closest.distance {
        VisitSpec(nodes, arr, contact, ray, bounds, nd.r, tr, closest);
      }
    } else if hl.hit && hr.hit {
      if tl.lo < tr.lo {
        BothSpec(nodes, arr, contact, ray, bounds, n, nd.r, tr, nd.l, tl, closest);
      } else {
        BothSpec(nodes, arr, contact, ray, bounds, n, nd.l, tl, nd.r, tr, closest);
      }
    }
    ChildrenCover(nodes, arr, contact, ray, bounds, n, t, closest, r, hl, hr);
  }

  /** The covering of a node follows from the coverings its children's
      visits give, case by case as `Descend` goes. */
  lemma ChildrenCover(nodes: seq<Node>, arr: seq<Prim>, contact: Prim -> Option<real>, ray: Ray,
                      bounds: Window, n: nat, t: Window, closest: Trace, r: Trace, hl: HitResult, hr: HitResult)
    requires Setting(nodes, arr, contact, ray) && n < |nodes| && !IsLeaf(nodes[n])
    requires t.hi <= closest.distance
    requires NodeOk(nodes, arr, n)
    requires hl == Hit(nodes[nodes[n].l].bbox, ray, t) && hr == Hit(nodes[nodes[n].r].bbox, ray, t)
    requires r == Descend(nodes, arr, contact, ray, bounds, n, t, closest)
    requires var nd := nodes[n];
      var tl := if hl.hit then Clamp(hl.times, closest.distance) else hl.times;
      var tr := if hr.hit then Clamp(hr.times, closest.distance) else hr.times;
      && (hl.hit && !hr.hit && tl.lo < closest.distance ==> VisitPost(r, closest, nodes, arr, contact, bounds, nd.l, tl))
      && (hr.hit && !hl.hit && tr.lo < closest.distance ==> VisitPost(r, closest, nodes, arr, contact, bounds, nd.r, tr))
      && (hl.hit && hr.hit && tl.lo < tr.lo ==> BothPost(r, closest, nodes, arr, contact, bounds, nd.r, tr, nd.l, tl))
      && (hl.hit && hr.hit && !(tl.lo < tr.lo) ==> BothPost(r, closest, nodes, arr, contact, bounds, nd.l, tl, nd.r, tr))
    ensures VisitPost(r, closest, nodes, arr, contact, bounds, n, t)
  {
    var nd := nodes[n];
    assert NodeOk(nodes, arr, nd.l) && NodeOk(nodes, arr, nd.r);
    var tl := if hl.hit then Clamp(hl.times, closest.distance) else hl.times;
    var tr := if hr.hit then Clamp(hr.times, closest.distance) else hr.times;
    forall i | nd.start <= i < nd.start + nd.size && contact(arr[i]).Some? && Within(contact(arr[i]).value, t)
                 && Within(contact(arr[i]).value, bounds)
      ensures r.distance <= contact(arr[i]).value
    {
      var c := contact(arr[i]).value;
      if c < closest.distance {
        var k := if i < nodes[nd.l].start + nodes[nd.l].size then nd.l else nd.r;
        ChildSees(nodes, arr, contact, ray, k, i, t);
        if k == nd.l {
          assert Within(c, tl);
        } else {
          assert Within(c, tr);
        }
      }
    }
  }

  /** What visiting two hit children in order promises, over both ranges. */
  predicate BothPost(r: Trace, closest: Trace, nodes: seq<Node>, arr: seq<Prim>, contact: Prim -> Option<real>,
                     bounds: Window, first: nat, tf: Window, second: nat, ts: Window)
    requires ValidBvh(nodes, arr) && first < |nodes| && second < |nodes|
  {
    assert NodeOk(nodes, arr, first) && NodeOk(nodes, arr, second);
    r.distance <= closest.distance
    && Found(r, closest, arr, contact, bounds)
    && Covers(r, arr, contact, nodes[first].start, nodes[first].start + nodes[first].size, tf, bounds)
    && Covers(r, arr, contact, nodes[second].start, nodes[second].start + nodes[second].size, ts, bounds)
  }

  lemma {:induction false} BothSpec(nodes: seq<Node>, arr: seq<Prim>, contact: Prim -> Option<real>, ray: Ray,
                                    bounds: Window, n: nat, first: nat, tf: Window, second: nat, ts: Window, closest: Trace)
    requires Setting(nodes, arr, contact, ray) && n < |nodes| && first < n && second < n
    requires tf.hi <= closest.distance && ts.hi <= closest.distance
    ensures BothPost(Both(nodes, arr, contact, ray, bounds, n, first, tf, second, ts, closest), closest,
                     nodes, arr, contact, bounds, first, tf, second, ts)
    decreases n, 0
  {
    var r := Both(nodes, arr, contact, ray, bounds, n, first, tf, second, ts, closest);
    assert NodeOk(nodes, arr, first) && NodeOk(nodes, arr, second);
    var c1 := if tf.lo < closest.distance then Visit(nodes, arr, contact, ray, bounds, first, tf, closest) else closest;
    if tf.lo < closest.distance {
      VisitSpec(nodes, arr, contact, ray, bounds, first, tf, closest);
    }
    assert VisitPostOr(c1, closest, nodes, arr, contact, bounds, first, tf);
    if ts.lo < c1.distance {
      var ts2 := Clamp(ts, c1.distance);
      if ts2.lo <= ts2.hi {
        VisitSpec(nodes, arr, contact, ray, bounds, second, ts2, c1);
        FoundTrans(r, c1, closest, arr, contact, bounds);
      }
      ClampCovers(r, c1, arr, contact, nodes[second].start, nodes[second].start + nodes[second].size, ts2, ts, bounds);
    }
    MonotoneCovers(r, c1, arr, contact, nodes[first].start, nodes[first].start + nodes[first].size, tf, bounds);
  }

  /** The first visit, or no visit when its window starts too late. */
  predicate VisitPostOr(c1: Trace, closest: Trace, nodes: seq<Node>, arr: seq<Prim>, contact: Prim -> Option<real>,
                        bounds: Window, first: nat, tf: Window)
    requires ValidBvh(nodes, arr) && first < |nodes|
  {
    VisitPost(c1, closest, nodes, arr, contact, bounds, first, tf)
  }

  /** A nearer result keeps every covering. */
  lemma MonotoneCovers(r: Trace, c1: Trace, arr: seq<Prim>, contact: Prim -> Option<real>, s: nat, e: nat,
                       w: Window, bounds: Window)
    requires s <= e <= |arr| && r.distance <= c1.distance
    requires Covers(c1, arr, contact, s, e, w, bounds)
    ensures Covers(r, arr, contact, s, e, w, bounds)
  {
  }

  // --------------------------------------------------------------- theorems

  /** What a nearest-hit search over `[bounds.lo, bounds.hi)` must return:
      a hit exactly when some contact lies there, at the nearest such
      contact; otherwise no hit at the far bound. */
  predicate Nearest(r: Trace, arr: seq<Prim>, contact: Prim -> Option<real>, bounds: Window)
  {
    && (r.hit ==> bounds.lo <= r.distance < bounds.hi && exists i :: 0 <= i < |arr| && contact(arr[i]) == Some(r.distance))
    && (!r.hit ==> r.distance == bounds.hi)
    && (forall i :: 0 <= i < |arr| && contact(arr[i]).Some? && bounds.lo <= contact(arr[i]).value < bounds.hi ==>
          r.hit && r.distance <= contact(arr[i]).value)
  }

  /** The linear scan is a nearest-hit search. */
  lemma LinearScanNearest(arr: seq<Prim>, contact: Prim -> Option<real>, bounds: Window)
    ensures Nearest(LinearScan(arr, contact, bounds), arr, contact, bounds)
  {
    var init := Trace(false, bounds.hi);
    LeafScanSpec(arr, contact, 0, |arr|, bounds, init, bounds);
  }

  /** `BVH::hit` is a nearest-hit search on a well-formed tree, for a
      direction whose components are zero or not tiny; an empty tree gives
      no hit at the far bound. */
  lemma QueryNearest(tree: Tree, ray: Ray, bounds: Window, contact: Prim -> Option<real>)
    requires WellFormed(tree) && RegularDir(ray.dir)
    requires ProperPrims(tree.obstacles) && ContactsInBoxes(tree.obstacles, contact, ray)
    ensures Nearest(Query(tree, ray, bounds, contact), tree.obstacles, contact, bounds)
    ensures |tree.nodes| == 0 ==> Query(tree, ray, bounds, contact) == Trace(false, bounds.hi)
  {
    var init := Trace(false, bounds.hi);
    if |tree.nodes| > 0 {
      VisitSpec(tree.nodes, tree.obstacles, contact, ray, bounds, tree.root, bounds, init);
    }
  }

  /** The query and the linear scan report the same: both hit or both miss,
      at the same distance. */
  lemma QueryMatchesLinearScan(tree: Tree, ray: Ray, bounds: Window, contact: Prim -> Option<real>)
    requires WellFormed(tree) && RegularDir(ray.dir)
    requires ProperPrims(tree.obstacles) && ContactsInBoxes(tree.obstacles, contact, ray)
    ensures Query(tree, ray, bounds, contact) == LinearScan(tree.obstacles, contact, bounds)
  {
    QueryNearest(tree, ray, bounds, contact);
    LinearScanNearest(tree.obstacles, contact, bounds);
    NearestUnique(Query(tree, ray, bounds, contact), LinearScan(tree.obstacles, contact, bounds),
                  tree.obstacles, contact, bounds);
  }

  /** A nearest-hit search finds something at least as near as any other
      one's hit. */
  lemma NearestCoversHit(a: Trace, b: Trace, arr: seq<Prim>, contact: Prim -> Option<real>, bounds: Window)
    requires Nearest(a, arr, contact, bounds) && Nearest(b, arr, contact, bounds) && b.hit
    ensures a.hit && a.distance <= b.distance
  {
    var j :| 0 <= j < |arr| && contact(arr[j]) == Some(b.distance);
  }

  /** Two nearest-hit results agree. */
  lemma NearestUnique(a: Trace, b: Trace, arr: seq<Prim>, contact: Prim -> Option<real>, bounds: Window)
    requires Nearest(a, arr, contact, bounds) && Nearest(b, arr, contact, bounds)
    ensures a == b
  {
    if a.hit {
      NearestCoversHit(b, a, arr, contact, bounds);
    }
    if b.hit {
      NearestCoversHit(a, b, arr, contact, bounds);
    }
  }
}
