/** Axis-aligned boxes in the plane (BBox.hpp) and the slab test of a ray
    against a box with window narrowing (BBox.cpp). `float` is modelled as
    `real`: rounding, infinities and NaN do not arise here. `AABB` of
    GameObject.hpp and CollisionObject.hpp has the same two corners and is
    the same `Box`. */
module Geometry {

  datatype Vec2 = Vec2(x: real, y: real)

  /** A box by its two corners; nothing forces `min <= max`. */
  datatype Box = Box(min: Vec2, max: Vec2)

  /** `std::min(a, b)` is `(b < a) ? b : a`, `std::max(a, b)` is `(a < b) ? b : a`. */
  function Min(a: real, b: real): (r: real)
    ensures r <= a && r <= b && (r == a || r == b)
  {
    if b < a then b else a
  }

  function Max(a: real, b: real): (r: real)
    ensures a <= r && b <= r && (r == a || r == b)
  {
    if a < b then b else a
  }

  function Abs(a: real): (r: real)
    ensures r >= 0.0 && (r == a || r == -a)
  {
    if a < 0.0 then -a else a
  }

  function Add(a: Vec2, b: Vec2): Vec2
  {
    Vec2(a.x + b.x, a.y + b.y)
  }

  function Sub(a: Vec2, b: Vec2): Vec2
  {
    Vec2(a.x - b.x, a.y - b.y)
  }

  function Times(a: Vec2, k: real): Vec2
  {
    Vec2(a.x * k, a.y * k)
  }

  /** Closed containment of a point. */
  predicate Contains(b: Box, p: Vec2)
  {
    b.min.x <= p.x <= b.max.x && b.min.y <= p.y <= b.max.y
  }

  /** Strict (interior) containment of a point. */
  predicate Inside(b: Box, p: Vec2)
  {
    b.min.x < p.x < b.max.x && b.min.y < p.y < b.max.y
  }

  /** Corner-wise enclosure: `outer` reaches at least as far as `inner` on
      every side. */
  predicate Encloses(outer: Box, inner: Box)
  {
    outer.min.x <= inner.min.x && outer.min.y <= inner.min.y
    && inner.max.x <= outer.max.x && inner.max.y <= outer.max.y
  }

  /** A box with positive width and height. */
  predicate Proper(b: Box)
  {
    b.min.x < b.max.x && b.min.y < b.max.y
  }

  /** `v[axis]`: the x component for axis 0 and the y component for any
      other axis, as the source's `axis == 0` tests do. */
  function Coord(v: Vec2, axis: int): real
  {
    if axis == 0 then v.x else v.y
  }

  // ------------------------------------------------------------ box queries

  /** `overlaps`: strict on both axes. */
  predicate Overlaps(a: Box, b: Box)
  {
    a.min.x < b.max.x && a.max.x > b.min.x && a.min.y < b.max.y && a.max.y > b.min.y
  }

  /** Two boxes overlap exactly when they share an interior point (for boxes
      of positive size); overlap is symmetric, and boxes that only touch
      along an edge do not overlap. */
  lemma OverlapsIffCommonInterior(a: Box, b: Box)
    ensures (exists p :: Inside(a, p) && Inside(b, p)) ==> Overlaps(a, b)
    ensures Proper(a) && Proper(b) && Overlaps(a, b) ==> exists p :: Inside(a, p) && Inside(b, p)
    ensures Overlaps(a, b) <==> Overlaps(b, a)
    ensures a.max.x == b.min.x || a.max.y == b.min.y ==> !Overlaps(a, b)
  {
    if Proper(a) && Proper(b) && Overlaps(a, b) {
      var lo := Vec2(Max(a.min.x, b.min.x), Max(a.min.y, b.min.y));
      var hi := Vec2(Min(a.max.x, b.max.x), Min(a.max.y, b.max.y));
      var p := Vec2((lo.x + hi.x) / 2.0, (lo.y + hi.y) / 2.0);
      assert Inside(a, p) && Inside(b, p);
    }
  }

  /** `enclose(point)`: the least box that encloses `b` and contains `p`. */
  function EnclosePoint(b: Box, p: Vec2): (r: Box)
    ensures Encloses(r, b) && Contains(r, p)
    ensures forall c :: Encloses(c, b) && Contains(c, p) ==> Encloses(c, r)
  {
    Box(Vec2(Min(b.min.x, p.x), Min(b.min.y, p.y)), Vec2(Max(b.max.x, p.x), Max(b.max.y, p.y)))
  }

  /** `enclose(box)`: the least box that encloses both. */
  function EncloseBox(a: Box, b: Box): (r: Box)
    ensures Encloses(r, a) && Encloses(r, b)
    ensures forall c :: Encloses(c, a) && Encloses(c, b) ==> Encloses(c, r)
  {
    Box(Vec2(Min(a.min.x, b.min.x), Min(a.min.y, b.min.y)), Vec2(Max(a.max.x, b.max.x), Max(a.max.y, b.max.y)))
  }

  /** Enclosing a box never shrinks the target, and enclosing the same box
      again changes nothing. */
  lemma EncloseBoxIdempotent(a: Box, b: Box)
    ensures Encloses(EncloseBox(a, b), a)
    ensures EncloseBox(EncloseBox(a, b), b) == EncloseBox(a, b)
  {
  }

  /** Corner-wise enclosure is enclosure of the points. */
  lemma EnclosesPoints(outer: Box, inner: Box, p: Vec2)
    requires Encloses(outer, inner) && Contains(inner, p)
    ensures Contains(outer, p)
  {
  }

  /** `empty()` */
  predicate Empty(b: Box)
  {
    b.min.x > b.max.x || b.min.y > b.max.y
  }

  /** A box is empty exactly when it contains no point. */
  lemma EmptyIffNoPoint(b: Box)
    ensures Empty(b) <==> !exists p :: Contains(b, p)
  {
    if !Empty(b) {
      assert Contains(b, b.min);
    }
  }

  /** `surface_area()`: 0 for an empty box, otherwise width times height;
      never negative. */
  function SurfaceArea(b: Box): (r: real)
    ensures r >= 0.0
    ensures Empty(b) ==> r == 0.0
    ensures !Empty(b) ==> r == (b.max.x - b.min.x) * (b.max.y - b.min.y)
  {
    if Empty(b) then 0.0
    else
      var w := b.max.x - b.min.x;
      var h := b.max.y - b.min.y;
      assert w * h >= 0.0 by { NonNegativeProduct(w, h); }
      w * h
  }

  lemma NonNegativeProduct(a: real, b: real)
    requires a >= 0.0 && b >= 0.0
    ensures a * b >= 0.0
  {
  }

  /** `center()`: the midpoint of the corners, inside every non-empty box. */
  function Center(b: Box): (r: Vec2)
    ensures !Empty(b) ==> Contains(b, r)
    ensures r.x - b.min.x == b.max.x - r.x && r.y - b.min.y == b.max.y - r.y
  {
    Times(Add(b.min, b.max), 0.5)
  }

  // -------------------------------------------------------------- slab test

  /** `Ray2D`: origin and direction. */
  datatype Ray = Ray(point: Vec2, dir: Vec2)

  /** The point at parameter `t` along the ray. */
  function At(ray: Ray, t: real): Vec2
  {
    Vec2(ray.point.x + ray.dir.x * t, ray.point.y + ray.dir.y * t)
  }

  /** `times`: the parameter window (entry `lo`, exit `hi`) still of interest. */
  datatype Window = Window(lo: real, hi: real)

  predicate Within(t: real, w: Window)
  {
    w.lo <= t <= w.hi
  }

  /** Below this magnitude (`1e-8f`) a direction component counts as parallel. */
  const ParallelEps: real := 0.00000001

  /** A direction component that is exactly 0 or clearly non-zero. Between
      the two, a component is treated as parallel although the ray does
      move along that axis, and the test is then neither sound nor
      complete. */
  predicate Regular(d: real)
  {
    d == 0.0 || Abs(d) >= ParallelEps
  }

  predicate RegularDir(v: Vec2)
  {
    Regular(v.x) && Regular(v.y)
  }

  datatype AxisOutcome = AxisOutcome(pass: bool, w: Window)

  /** `hit_in_axis`: a near-parallel axis passes exactly when the origin is
      within the slab and leaves the window alone; otherwise the slab's
      entry and exit parameters are put in order and intersected with the
      window, which passes when it is not inverted. */
  function HitInAxis(o: real, d: real, lo: real, hi: real, w: Window): (r: AxisOutcome)
    ensures Abs(d) < ParallelEps ==> r.w == w && (r.pass <==> lo <= o <= hi)
    ensures Abs(d) >= ParallelEps ==> w.lo <= r.w.lo && r.w.hi <= w.hi && (r.pass <==> r.w.lo <= r.w.hi)
  {
    if Abs(d) < ParallelEps then AxisOutcome(!(o < lo || o > hi), w)
    else
      var tmin := (lo - o) / d;
      var tmax := (hi - o) / d;
      var enter := if tmin > tmax then tmax else tmin;
      var exit := if tmin > tmax then tmin else tmax;
      var w' := Window(Max(enter, w.lo), Min(exit, w.hi));
      AxisOutcome(w'.hi >= w'.lo, w')
  }

  datatype HitResult = HitResult(hit: bool, times: Window)

  /** `BBox::hit`: the x slab, then the y slab on the narrowed window; the
      window is written back only when both pass. */
  function Hit(b: Box, ray: Ray, times: Window): (r: HitResult)
    ensures !r.hit ==> r.times == times
    ensures r.hit ==> times.lo <= r.times.lo && r.times.hi <= times.hi
    ensures r.hit ==> r.times.lo <= r.times.hi || r.times == times
  {
    var x := HitInAxis(ray.point.x, ray.dir.x, b.min.x, b.max.x, times);
    if !x.pass then HitResult(false, times)
    else
      var y := HitInAxis(ray.point.y, ray.dir.y, b.min.y, b.max.y, x.w);
      if !y.pass then HitResult(false, times) else HitResult(true, y.w)
  }

  /** On one axis with `d != 0` the parameters that keep `o + d*t` inside
      `[lo, hi]` are those between the two slab crossings. */
  lemma SlabCrossings(o: real, d: real, lo: real, hi: real, t: real)
    requires d != 0.0 && lo <= hi
    ensures var tmin := (lo - o) / d;
      var tmax := (hi - o) / d;
      lo <= o + d * t <= hi <==> Min(tmin, tmax) <= t <= Max(tmin, tmax)
  {
    if d > 0.0 {
      Crossing(o, d, lo, t);
      Crossing(o, d, hi, t);
      Crossing(o, d, hi, (lo - o) / d);
    } else {
      CrossingNegative(o, d, lo, t);
      CrossingNegative(o, d, hi, t);
      CrossingNegative(o, d, lo, (hi - o) / d);
    }
  }

  /** With `d > 0` the ray passes `c` at `(c - o) / d`, going up. */
  lemma Crossing(o: real, d: real, c: real, t: real)
    requires d > 0.0
    ensures c <= o + d * t <==> (c - o) / d <= t
    ensures o + d * t <= c <==> t <= (c - o) / d
  {
    var q := (c - o) / d;
    assert q * d == c - o;
    ScaleOrder(q, t, d);
    ScaleOrder(t, q, d);
  }

  /** With `d < 0` the ray passes `c` at `(c - o) / d`, going down. */
  lemma CrossingNegative(o: real, d: real, c: real, t: real)
    requires d < 0.0
    ensures c <= o + d * t <==> t <= (c - o) / d
    ensures o + d * t <= c <==> (c - o) / d <= t
  {
    var q := (c - o) / d;
    assert q * d == c - o;
    assert t * -d == -(d * t);
    assert q * -d == o - c;
    ScaleOrder(q, t, -d);
    ScaleOrder(t, q, -d);
  }

  /** Multiplying by a positive factor keeps the order. */
  lemma ScaleOrder(a: real, b: real, k: real)
    requires k > 0.0
    ensures a <= b <==> a * k <= b * k
  {
    if a <= b {
      assert (b - a) * k >= 0.0 by { NonNegativeProduct(b - a, k); }
    } else {
      assert (a - b) * k > 0.0;
    }
  }

  /** One axis of the slab test is exact for a regular direction component:
      `t` survives in the narrowed window exactly when it was in the window
      and the ray at `t`, which is at `p` on this axis, is within the slab. */
  lemma HitInAxisExact(o: real, d: real, lo: real, hi: real, w: Window, t: real, p: real)
    requires Regular(d) && lo <= hi && p == o + d * t
    ensures var r := HitInAxis(o, d, lo, hi, w);
      r.pass && Within(t, r.w) <==> Within(t, w) && lo <= p <= hi
  {
    if Abs(d) >= ParallelEps {
      SlabCrossings(o, d, lo, hi, t);
    } else {
      assert d == 0.0;
      assert o + d * t == o;
    }
  }

  /** The slab test is sound and complete for a ray whose direction
      components are each 0 or at least `1e-8` in magnitude: a parameter lies
      in the returned window of a hit exactly when it lay in the given window
      and the ray at that parameter is in the box. */
  lemma HitExact(b: Box, ray: Ray, times: Window, t: real)
    requires RegularDir(ray.dir) && !Empty(b)
    ensures var r := Hit(b, ray, times);
      r.hit && Within(t, r.times) <==> Within(t, times) && Contains(b, At(ray, t))
  {
    var x := HitInAxis(ray.point.x, ray.dir.x, b.min.x, b.max.x, times);
    var y := HitInAxis(ray.point.y, ray.dir.y, b.min.y, b.max.y, x.w);
    var p := At(ray, t);
    AxisExactX(b, ray, times, t);
    AxisExactY(b, ray, x.w, t);
    ChainAxes(x, y, times, t, b.min.x <= p.x <= b.max.x, b.min.y <= p.y <= b.max.y);
  }

  /** The x axis of `Hit`, as `HitInAxisExact` states it. */
  lemma AxisExactX(b: Box, ray: Ray, w: Window, t: real)
    requires RegularDir(ray.dir) && !Empty(b)
    ensures var x := HitInAxis(ray.point.x, ray.dir.x, b.min.x, b.max.x, w);
      x.pass && Within(t, x.w) <==> Within(t, w) && b.min.x <= At(ray, t).x <= b.max.x
  {
    HitInAxisExact(ray.point.x, ray.dir.x, b.min.x, b.max.x, w, t, At(ray, t).x);
  }

  /** The y axis of `Hit`, as `HitInAxisExact` states it. */
  lemma AxisExactY(b: Box, ray: Ray, w: Window, t: real)
    requires RegularDir(ray.dir) && !Empty(b)
    ensures var y := HitInAxis(ray.point.y, ray.dir.y, b.min.y, b.max.y, w);
      y.pass && Within(t, y.w) <==> Within(t, w) && b.min.y <= At(ray, t).y <= b.max.y
  {
    HitInAxisExact(ray.point.y, ray.dir.y, b.min.y, b.max.y, w, t, At(ray, t).y);
  }

  /** The second axis narrows what the first left. */
  lemma ChainAxes(x: AxisOutcome, y: AxisOutcome, times: Window, t: real, sx: bool, sy: bool)
    requires x.pass && Within(t, x.w) <==> Within(t, times) && sx
    requires y.pass && Within(t, y.w) <==> Within(t, x.w) && sy
    ensures x.pass && y.pass && Within(t, y.w) <==> Within(t, times) && sx && sy
  {
  }

  /** Soundness alone: every parameter of the returned window puts the ray
      inside the box. */
  lemma HitSound(b: Box, ray: Ray, times: Window, t: real)
    requires RegularDir(ray.dir) && !Empty(b)
    requires Hit(b, ray, times).hit && Within(t, Hit(b, ray, times).times)
    ensures Contains(b, At(ray, t))
  {
    HitExact(b, ray, times, t);
  }
}
