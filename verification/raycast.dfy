/** The single-box ray test `raycastAABB` and its result record
    (Raycast.hpp). The test works with 1/d per axis, where a direction
    component below `1e-8` in magnitude gets an infinite inverse; multiplying
    that infinity by 0 gives NaN, so this module carries the values
    single-precision arithmetic can produce besides finite ones. Rounding is
    not modelled.

    `RaycastAabbAsWritten` is the function as the source has it;
    `RaycastAabb` treats an axis the ray runs parallel to as the slab test of
    BBox.cpp does (inside exactly when the origin is between the planes). The
    radar calls the function as written. */
module Raycast {
  import opened Wrappers
  import opened Geometry
  import opened Objects

  /** A single-precision value: finite, an infinity, or NaN. */
  datatype Ext = Fin(v: real) | PosInf | NegInf | NaN

  /** IEEE `<`: false whenever a side is NaN. */
  predicate Less(a: Ext, b: Ext)
  {
    match a
    case NaN => false
    case NegInf => b.Fin? || b.PosInf?
    case PosInf => false
    case Fin(x) => (b.Fin? && x < b.v) || b.PosInf?
  }

  /** IEEE `>=`. */
  predicate AtLeast(a: Ext, b: Ext)
  {
    Less(b, a) || (a == b && !a.NaN?)
  }

  /** `std::max(a, b)` is `(a < b) ? b : a`. */
  function ExtMax(a: Ext, b: Ext): Ext
  {
    if Less(a, b) then b else a
  }

  /** `std::min(a, b)` is `(b < a) ? b : a`. */
  function ExtMin(a: Ext, b: Ext): Ext
  {
    if Less(b, a) then b else a
  }

  /** `x * k` for a finite `x`: zero times an infinity is NaN. */
  function Scale(x: real, k: Ext): Ext
  {
    match k
    case Fin(v) => Fin(x * v)
    case PosInf => if x > 0.0 then PosInf else if x < 0.0 then NegInf else NaN
    case NegInf => if x > 0.0 then NegInf else if x < 0.0 then PosInf else NaN
    case NaN => NaN
  }

  /** `a - b`: infinity minus the same infinity is NaN. */
  function Minus(a: Ext, b: Ext): Ext
  {
    match (a, b)
    case (NaN, _) => NaN
    case (_, NaN) => NaN
    case (Fin(x), Fin(y)) => Fin(x - y)
    case (PosInf, PosInf) => NaN
    case (NegInf, NegInf) => NaN
    case (PosInf, _) => PosInf
    case (NegInf, _) => NegInf
    case (Fin(_), PosInf) => NegInf
    case (Fin(_), NegInf) => PosInf
  }

  /** `std::abs` */
  function Magnitude(a: Ext): Ext
  {
    match a
    case Fin(x) => Fin(Abs(x))
    case NaN => NaN
    case _ => PosInf
  }

  /** One coordinate of `origin + dir * hit`. */
  function Along(x: real, d: real, h: Ext): Ext
  {
    match Scale(d, h)
    case Fin(v) => Fin(x + v)
    case e => e
  }

  datatype ExtVec2 = ExtVec2(x: Ext, y: Ext)

  /** `RaycastResult`. The hit object is kept by value. */
  datatype RaycastResult = RaycastResult(hit: bool, t: Ext, point: ExtVec2, normal: Vec2, obj: Option<GameObject>)

  /** A default `RaycastResult`: no hit at infinite distance, no object. */
  const DefaultResult: RaycastResult :=
    RaycastResult(false, PosInf, ExtVec2(Fin(0.0), Fin(0.0)), Vec2(0.0, 0.0), None)

  /** Tolerance of the normal choice (`1e-5f`). */
  const NormalEps: real := 0.00001

  /** The parameters at which the ray crosses one slab's two planes, lower
      first. */
  datatype Span = Span(lo: Ext, hi: Ext)

  /** `if (t1 > t2) std::swap(t1, t2);` */
  function Ordered(a: Ext, b: Ext): Span
  {
    if Less(b, a) then Span(b, a) else Span(a, b)
  }

  /** `inv`: an infinite inverse for a near-zero component. */
  function Inv(d: real): Ext
  {
    if Abs(d) < ParallelEps then PosInf else Fin(1.0 / d)
  }

  /** One slab as written: `(min - o) * inv(d)` and `(max - o) * inv(d)`, in
      order. An origin exactly on a plane the ray runs parallel to gives NaN. */
  function SlabAsWritten(o: real, d: real, lo: real, hi: real): Span
  {
    Ordered(Scale(lo - o, Inv(d)), Scale(hi - o, Inv(d)))
  }

  /** One slab with a parallel axis handled as BBox.cpp does: the origin is
      inside when it lies between the planes, boundaries included. */
  function Slab(o: real, d: real, lo: real, hi: real): (s: Span)
    ensures !s.lo.NaN? && !s.hi.NaN?
  {
    if Abs(d) < ParallelEps then Ordered(if o < lo then PosInf else NegInf, if o > hi then NegInf else PosInf)
    else Ordered(Fin((lo - o) * (1.0 / d)), Fin((hi - o) * (1.0 / d)))
  }

  /** The axis the hit parameter is within `1e-5` of, checked in the order
      x-entry, x-exit, y-entry, else y-exit. */
  function Normal(hit: Ext, tx: Span, ty: Span): (n: Vec2)
    ensures n == Vec2(-1.0, 0.0) || n == Vec2(1.0, 0.0) || n == Vec2(0.0, -1.0) || n == Vec2(0.0, 1.0)
  {
    if Less(Magnitude(Minus(hit, tx.lo)), Fin(NormalEps)) then Vec2(-1.0, 0.0)
    else if Less(Magnitude(Minus(hit, tx.hi)), Fin(NormalEps)) then Vec2(1.0, 0.0)
    else if Less(Magnitude(Minus(hit, ty.lo)), Fin(NormalEps)) then Vec2(0.0, -1.0)
    else Vec2(0.0, 1.0)
  }

  /** The result record of a hit at parameter `hit`: the point is
      `origin + dir * hit`. */
  function Reported(origin: Vec2, dir: Vec2, box: GameObject, hit: Ext, normal: Vec2): (r: RaycastResult)
    ensures r.hit && r.t == hit && r.normal == normal && r.obj == Some(box)
    ensures hit.Fin? ==> r.point == ExtVec2(Fin(origin.x + dir.x * hit.v), Fin(origin.y + dir.y * hit.v))
  {
    assert hit.Fin? ==> (Along(origin.x, dir.x, hit) == Fin(origin.x + dir.x * hit.v)
                         && Along(origin.y, dir.y, hit) == Fin(origin.y + dir.y * hit.v)) by {
      if hit.Fin? {
        AlongFinite(origin.x, dir.x, hit.v);
        AlongFinite(origin.y, dir.y, hit.v);
      }
    }
    RaycastResult(true, hit, ExtVec2(Along(origin.x, dir.x, hit), Along(origin.y, dir.y, hit)), normal, Some(box))
  }

  lemma AlongFinite(x: real, d: real, v: real)
    ensures Along(x, d, Fin(v)) == Fin(x + d * v)
  {
  }

  /** The parameter the test reports from the entry and the exit: nothing
      when the exit is behind the origin or before the entry, or the entry is
      beyond the range; otherwise the entry when it is not behind the origin,
      else the exit, provided that one lies within `[0, range]`. */
  function Decide(enter: Ext, exit: Ext, range: real): (h: Option<Ext>)
    ensures h.Some? ==> (h.value == enter || h.value == exit)
    ensures h.Some? ==> !Less(h.value, Fin(0.0)) && !Less(Fin(range), h.value)
    ensures h.Some? && !enter.NaN? && !exit.NaN? ==> h.value.Fin? && 0.0 <= h.value.v <= range
  {
    if Less(exit, Fin(0.0)) || Less(exit, enter) || Less(Fin(range), enter) then None
    else
      var hit := if AtLeast(enter, Fin(0.0)) then enter else exit;
      if Less(hit, Fin(0.0)) || Less(Fin(range), hit) then None
      else Some(hit)
  }

  /** The common part of the test once the two slabs are known: entry is the
      later lower crossing, exit the earlier upper one; a miss leaves `out`
      as it was. */
  function Cast(origin: Vec2, dir: Vec2, box: GameObject, range: real, tx: Span, ty: Span, out: RaycastResult)
    : (r: (bool, RaycastResult))
    ensures !r.0 ==> r.1 == out
    ensures r.0 ==> r.1 == Reported(origin, dir, box, r.1.t, Normal(r.1.t, tx, ty))
    ensures r.0 && r.1.t.Fin? ==> 0.0 <= r.1.t.v <= range
    ensures r.0 ==> r.1.t.Fin? || r.1.t.NaN?
    ensures r.0 && !tx.lo.NaN? && !tx.hi.NaN? && !ty.lo.NaN? && !ty.hi.NaN? ==> r.1.t.Fin?
  {
    match Decide(ExtMax(tx.lo, ty.lo), ExtMin(tx.hi, ty.hi), range)
    case None => (false, out)
    case Some(hit) => (true, Reported(origin, dir, box, hit, Normal(hit, tx, ty)))
  }

  /** `raycastAABB` as written. A miss leaves `out` as it was; a hit is
      reported at a parameter that is either finite and within `[0, range]`
      or NaN, never an infinity. */
  function RaycastAabbAsWritten(origin: Vec2, dir: Vec2, box: GameObject, range: real, out: RaycastResult)
    : (r: (bool, RaycastResult))
    ensures !r.0 ==> r.1 == out
    ensures r.0 ==> r.1 == Reported(origin, dir, box, r.1.t, r.1.normal)
    ensures r.0 ==> (r.1.t.Fin? && 0.0 <= r.1.t.v <= range) || r.1.t.NaN?
  {
    var b := GetAabb(box);
    Cast(origin, dir, box, range, SlabAsWritten(origin.x, dir.x, b.min.x, b.max.x),
         SlabAsWritten(origin.y, dir.y, b.min.y, b.max.y), out)
  }

  /** The corrected x and y slabs of an object's box. */
  function SlabX(origin: Vec2, dir: Vec2, box: GameObject): Span
  {
    Slab(origin.x, dir.x, GetAabb(box).min.x, GetAabb(box).max.x)
  }

  function SlabY(origin: Vec2, dir: Vec2, box: GameObject): Span
  {
    Slab(origin.y, dir.y, GetAabb(box).min.y, GetAabb(box).max.y)
  }

  /** Entry and exit parameters of the corrected test. */
  function Enter(origin: Vec2, dir: Vec2, box: GameObject): Ext
  {
    ExtMax(SlabX(origin, dir, box).lo, SlabY(origin, dir, box).lo)
  }

  function Leave(origin: Vec2, dir: Vec2, box: GameObject): Ext
  {
    ExtMin(SlabX(origin, dir, box).hi, SlabY(origin, dir, box).hi)
  }

  /** `raycastAABB` with parallel axes handled explicitly. On a hit the
      parameter is finite and within `[0, range]`, the point is the ray at
      that parameter, the normal is an axis direction and the object is the
      target box; a miss leaves `out` as it was. */
  function RaycastAabb(origin: Vec2, dir: Vec2, box: GameObject, range: real, out: RaycastResult)
    : (r: (bool, RaycastResult))
    ensures !r.0 ==> r.1 == out
    ensures r.0 ==> r.1 == Reported(origin, dir, box, r.1.t, r.1.normal) && r.1.t.Fin? && 0.0 <= r.1.t.v <= range
    ensures r.0 ==> r.1.normal in {Vec2(-1.0, 0.0), Vec2(1.0, 0.0), Vec2(0.0, -1.0), Vec2(0.0, 1.0)}
  {
    Cast(origin, dir, box, range, SlabX(origin, dir, box), SlabY(origin, dir, box), out)
  }

  // ------------------------------------------------------------- the finding

  /** An origin on the right edge of the default box, looking along +y: the
      x axis is parallel and `(max.x - o.x) * inf` is `0 * inf`, NaN. Every
      comparison with NaN is false, so no early return fires and the function
      reports a hit at parameter NaN. */
  lemma AsWrittenReportsNaN()
    ensures var r := RaycastAabbAsWritten(Vec2(1.0, 0.0), Vec2(0.0, 1.0), DefaultGameObject, 10.0, DefaultResult);
      r.0 && r.1.t == NaN
  {
    DefaultBox();
    GrazingSlabsAsWritten();
    CastGrazing(Vec2(1.0, 0.0), Vec2(0.0, 1.0), DefaultGameObject, DefaultResult);
  }

  /** The box of the default object. */
  lemma DefaultBox()
    ensures GetAabb(DefaultGameObject) == Box(Vec2(-1.0, -1.0), Vec2(1.0, 1.0))
  {
  }

  lemma GrazingSlabsAsWritten()
    ensures SlabAsWritten(1.0, 0.0, -1.0, 1.0) == Span(NegInf, NaN)
    ensures SlabAsWritten(0.0, 1.0, -1.0, 1.0) == Span(Fin(-1.0), Fin(1.0))
  {
    assert Inv(0.0) == PosInf;
    assert Inv(1.0) == Fin(1.0);
  }

  lemma CastGrazing(origin: Vec2, dir: Vec2, box: GameObject, out: RaycastResult)
    ensures var r := Cast(origin, dir, box, 10.0, Span(NegInf, NaN), Span(Fin(-1.0), Fin(1.0)), out);
      r.0 && r.1.t == NaN
  {
    assert ExtMax(NegInf, Fin(-1.0)) == Fin(-1.0);
    assert ExtMin(NaN, Fin(1.0)) == NaN;
  }

  /** On the same input the corrected test reports the exit through the top
      edge at parameter 1. */
  lemma CorrectedReportsExit()
    ensures var r := RaycastAabb(Vec2(1.0, 0.0), Vec2(0.0, 1.0), DefaultGameObject, 10.0, DefaultResult);
      r.0 && r.1.t == Fin(1.0) && r.1.point == ExtVec2(Fin(1.0), Fin(1.0))
  {
    DefaultBox();
    GrazingSlabs();
    CastInside(Vec2(1.0, 0.0), Vec2(0.0, 1.0), DefaultGameObject, DefaultResult);
  }

  lemma GrazingSlabs()
    ensures Slab(1.0, 0.0, -1.0, 1.0) == Span(NegInf, PosInf)
    ensures Slab(0.0, 1.0, -1.0, 1.0) == Span(Fin(-1.0), Fin(1.0))
  {
    assert Abs(1.0) >= ParallelEps;
    assert (-1.0 - 0.0) * (1.0 / 1.0) == -1.0;
  }

  lemma CastInside(origin: Vec2, dir: Vec2, box: GameObject, out: RaycastResult)
    ensures var r := Cast(origin, dir, box, 10.0, Span(NegInf, PosInf), Span(Fin(-1.0), Fin(1.0)), out);
      r.0 && r.1.t == Fin(1.0) && r.1.point == ExtVec2(Fin(origin.x + dir.x), Fin(origin.y + dir.y))
  {
    var tx, ty := Span(NegInf, PosInf), Span(Fin(-1.0), Fin(1.0));
    InsideDecides(tx, ty);
    var n := Normal(Fin(1.0), tx, ty);
    assert Cast(origin, dir, box, 10.0, tx, ty, out) == (true, Reported(origin, dir, box, Fin(1.0), n));
    ReportedAtOne(origin, dir, box, n);
  }

  lemma InsideDecides(tx: Span, ty: Span)
    requires tx == Span(NegInf, PosInf) && ty == Span(Fin(-1.0), Fin(1.0))
    ensures Decide(ExtMax(tx.lo, ty.lo), ExtMin(tx.hi, ty.hi), 10.0) == Some(Fin(1.0))
  {
    assert ExtMax(NegInf, Fin(-1.0)) == Fin(-1.0);
    assert ExtMin(PosInf, Fin(1.0)) == Fin(1.0);
  }

  lemma ReportedAtOne(origin: Vec2, dir: Vec2, box: GameObject, n: Vec2)
    ensures var r := Reported(origin, dir, box, Fin(1.0), n);
      r.t == Fin(1.0) && r.point == ExtVec2(Fin(origin.x + dir.x), Fin(origin.y + dir.y))
  {
    assert dir.x * 1.0 == dir.x && dir.y * 1.0 == dir.y;
  }

  /** The two agree whenever no origin lies exactly on a plane its ray runs
      parallel to: the correction changes only the NaN cases. */
  lemma AgreeOffParallelPlanes(origin: Vec2, dir: Vec2, box: GameObject, range: real, out: RaycastResult)
    requires var b := GetAabb(box);
      && (Abs(dir.x) < ParallelEps ==> origin.x != b.min.x && origin.x != b.max.x)
      && (Abs(dir.y) < ParallelEps ==> origin.y != b.min.y && origin.y != b.max.y)
    ensures RaycastAabbAsWritten(origin, dir, box, range, out) == RaycastAabb(origin, dir, box, range, out)
  {
    var b := GetAabb(box);
    SlabAgrees(origin.x, dir.x, b.min.x, b.max.x);
    SlabAgrees(origin.y, dir.y, b.min.y, b.max.y);
  }

  lemma SlabAgrees(o: real, d: real, lo: real, hi: real)
    requires Abs(d) < ParallelEps ==> o != lo && o != hi
    ensures SlabAsWritten(o, d, lo, hi) == Slab(o, d, lo, hi)
  {
  }

  // ------------------------------------------------- meaning of the corrected test

  /** The ray at parameter `s` is in the object's box. */
  predicate OnBox(origin: Vec2, dir: Vec2, box: GameObject, s: real)
  {
    Contains(GetAabb(box), At(Ray(origin, dir), s))
  }

  /** `a` is no later than `s`. */
  predicate Below(a: Ext, s: real)
  {
    a.NegInf? || (a.Fin? && a.v <= s)
  }

  /** `b` is no earlier than `s`. */
  predicate Above(b: Ext, s: real)
  {
    b.PosInf? || (b.Fin? && s <= b.v)
  }

  /** For a regular direction component, the corrected slab holds exactly
      the parameters that keep the ray's coordinate `x` between the
      planes. */
  lemma SlabExact(o: real, d: real, lo: real, hi: real, s: real, x: real)
    requires Regular(d) && lo <= hi && x == o + d * s
    ensures var sp := Slab(o, d, lo, hi);
      lo <= x <= hi <==> Below(sp.lo, s) && Above(sp.hi, s)
  {
    if Abs(d) >= ParallelEps {
      assert (lo - o) * (1.0 / d) == (lo - o) / d;
      assert (hi - o) * (1.0 / d) == (hi - o) / d;
      SlabCrossings(o, d, lo, hi, s);
    } else {
      assert d == 0.0;
      assert o + d * s == o;
    }
  }

  lemma BelowMax(a: Ext, b: Ext, s: real)
    requires !a.NaN? && !b.NaN?
    ensures Below(ExtMax(a, b), s) <==> Below(a, s) && Below(b, s)
  {
  }

  lemma AboveMin(a: Ext, b: Ext, s: real)
    requires !a.NaN? && !b.NaN?
    ensures Above(ExtMin(a, b), s) <==> Above(a, s) && Above(b, s)
  {
  }

  /** The ray is in the box exactly between the entry and the exit. */
  lemma EntryExit(origin: Vec2, dir: Vec2, box: GameObject, s: real)
    requires RegularDir(dir) && box.scale.x >= 0.0 && box.scale.y >= 0.0
    ensures var b := GetAabb(box);
      var tx := Slab(origin.x, dir.x, b.min.x, b.max.x);
      var ty := Slab(origin.y, dir.y, b.min.y, b.max.y);
      OnBox(origin, dir, box, s) <==> Below(ExtMax(tx.lo, ty.lo), s) && Above(ExtMin(tx.hi, ty.hi), s)
  {
    var b := GetAabb(box);
    assert !Empty(b);
    BoxEntryExit(origin, dir, b, s);
  }

  lemma BoxEntryExit(origin: Vec2, dir: Vec2, b: Box, s: real)
    requires RegularDir(dir) && !Empty(b)
    ensures var tx := Slab(origin.x, dir.x, b.min.x, b.max.x);
      var ty := Slab(origin.y, dir.y, b.min.y, b.max.y);
      Contains(b, At(Ray(origin, dir), s)) <==> Below(ExtMax(tx.lo, ty.lo), s) && Above(ExtMin(tx.hi, ty.hi), s)
  {
    var p := At(Ray(origin, dir), s);
    SlabExact(origin.x, dir.x, b.min.x, b.max.x, s, p.x);
    SlabExact(origin.y, dir.y, b.min.y, b.max.y, s, p.y);
    BothSlabs(b.min.x <= p.x <= b.max.x, b.min.y <= p.y <= b.max.y,
              Slab(origin.x, dir.x, b.min.x, b.max.x), Slab(origin.y, dir.y, b.min.y, b.max.y), s);
  }

  /** Inside both slabs is after the later entry and before the earlier
      exit. */
  lemma BothSlabs(inX: bool, inY: bool, tx: Span, ty: Span, s: real)
    requires !tx.lo.NaN? && !tx.hi.NaN? && !ty.lo.NaN? && !ty.hi.NaN?
    requires inX <==> Below(tx.lo, s) && Above(tx.hi, s)
    requires inY <==> Below(ty.lo, s) && Above(ty.hi, s)
    ensures inX && inY <==> Below(ExtMax(tx.lo, ty.lo), s) && Above(ExtMin(tx.hi, ty.hi), s)
  {
    BelowMax(tx.lo, ty.lo, s);
    AboveMin(tx.hi, ty.hi, s);
  }

  /** `s` lies between the entry and the exit. */
  predicate Between(enter: Ext, exit: Ext, s: real)
  {
    Below(enter, s) && Above(exit, s)
  }

  /** The ray is in the box exactly at the parameters between `Enter` and
      `Leave`. */
  lemma OnBoxBetween(origin: Vec2, dir: Vec2, box: GameObject)
    requires RegularDir(dir) && box.scale.x >= 0.0 && box.scale.y >= 0.0
    ensures forall s :: OnBox(origin, dir, box, s) <==> Between(Enter(origin, dir, box), Leave(origin, dir, box), s)
  {
    forall s
      ensures OnBox(origin, dir, box, s) <==> Between(Enter(origin, dir, box), Leave(origin, dir, box), s)
    {
      EntryExit(origin, dir, box, s);
    }
  }

  /** The corrected test reports what `Decide` picks from its entry and exit. */
  lemma RaycastDecides(origin: Vec2, dir: Vec2, box: GameObject, range: real, out: RaycastResult)
    ensures var r := RaycastAabb(origin, dir, box, range, out);
      var h := Decide(Enter(origin, dir, box), Leave(origin, dir, box), range);
      (r.0 <==> h.Some?) && (r.0 ==> r.1.t == h.value)
  {
  }

  // Decide on an entry and an exit that are not NaN.

  lemma DecideSound(enter: Ext, exit: Ext, range: real)
    requires !enter.NaN? && !exit.NaN?
    ensures var h := Decide(enter, exit, range);
      h.Some? ==> Between(enter, exit, h.value.v)
  {
  }

  lemma DecideFirst(enter: Ext, exit: Ext, range: real)
    requires !enter.NaN? && !exit.NaN?
    requires forall u :: Between(enter, exit, u) ==> 0.0 <= u
    ensures var h := Decide(enter, exit, range);
      h.Some? ==> forall s :: Between(enter, exit, s) ==> h.value.v <= s
  {
    var h := Decide(enter, exit, range);
    if h.Some? && !AtLeast(enter, Fin(0.0)) {
      var u := if enter.NegInf? then -1.0 else enter.v;
      assert Between(enter, exit, u);
      assert false;
    }
  }

  lemma DecideLast(enter: Ext, exit: Ext, range: real, u: real)
    requires !enter.NaN? && !exit.NaN?
    requires u < 0.0 && Between(enter, exit, u)
    ensures var h := Decide(enter, exit, range);
      h.Some? ==> forall s :: Between(enter, exit, s) ==> s <= h.value.v
  {
  }

  lemma DecideFindsFirst(enter: Ext, exit: Ext, range: real, s: real)
    requires !enter.NaN? && !exit.NaN?
    requires 0.0 <= s <= range && Between(enter, exit, s)
    requires forall u :: Between(enter, exit, u) ==> s <= u
    ensures Decide(enter, exit, range) == Some(Fin(s))
  {
    if enter.NegInf? {
      assert Between(enter, exit, s - 1.0);
      assert false;
    }
    assert Between(enter, exit, enter.v);
  }

  lemma DecideFindsExit(enter: Ext, exit: Ext, range: real, s: real, u: real)
    requires !enter.NaN? && !exit.NaN?
    requires 0.0 <= s <= range && Between(enter, exit, s)
    requires forall w :: Between(enter, exit, w) ==> w <= s
    requires u < 0.0 && Between(enter, exit, u)
    ensures Decide(enter, exit, range) == Some(Fin(s))
  {
    if exit.PosInf? {
      assert Between(enter, exit, s + 1.0);
      assert false;
    }
    assert Between(enter, exit, exit.v);
  }

  lemma DecideInsideBeyond(enter: Ext, exit: Ext, range: real, u: real, w: real)
    requires !enter.NaN? && !exit.NaN?
    requires u < 0.0 && Between(enter, exit, u)
    requires range < w && Between(enter, exit, w)
    ensures Decide(enter, exit, range).None?
  {
  }

  // What the corrected test reports, for a box with non-negative scale and
  // a direction whose components are zero or not tiny.

  /** A reported hit is a parameter at which the ray is in the box. */
  lemma HitOnBox(origin: Vec2, dir: Vec2, box: GameObject, range: real, out: RaycastResult)
    requires RegularDir(dir) && box.scale.x >= 0.0 && box.scale.y >= 0.0
    ensures var r := RaycastAabb(origin, dir, box, range, out);
      r.0 ==> OnBox(origin, dir, box, r.1.t.v)
  {
    RaycastDecides(origin, dir, box, range, out);
    OnBoxBetween(origin, dir, box);
    DecideSound(Enter(origin, dir, box), Leave(origin, dir, box), range);
  }

  /** When no part of the box lies behind the origin, a hit is the first
      contact: no parameter in the box is smaller. */
  lemma HitIsFirstContact(origin: Vec2, dir: Vec2, box: GameObject, range: real, out: RaycastResult)
    requires RegularDir(dir) && box.scale.x >= 0.0 && box.scale.y >= 0.0
    requires forall u :: OnBox(origin, dir, box, u) ==> 0.0 <= u
    ensures var r := RaycastAabb(origin, dir, box, range, out);
      r.0 ==> forall s :: OnBox(origin, dir, box, s) ==> r.1.t.v <= s
  {
    RaycastDecides(origin, dir, box, range, out);
    OnBoxBetween(origin, dir, box);
    DecideFirst(Enter(origin, dir, box), Leave(origin, dir, box), range);
  }

  /** When part of the box lies behind the origin, a hit is where the ray
      leaves the box: no parameter in the box is larger. */
  lemma HitIsExit(origin: Vec2, dir: Vec2, box: GameObject, range: real, out: RaycastResult, u: real)
    requires RegularDir(dir) && box.scale.x >= 0.0 && box.scale.y >= 0.0
    requires u < 0.0 && OnBox(origin, dir, box, u)
    ensures var r := RaycastAabb(origin, dir, box, range, out);
      r.0 ==> forall s :: OnBox(origin, dir, box, s) ==> s <= r.1.t.v
  {
    RaycastDecides(origin, dir, box, range, out);
    OnBoxBetween(origin, dir, box);
    DecideLast(Enter(origin, dir, box), Leave(origin, dir, box), range, u);
  }

  /** A first contact within `[0, range]` is reported. */
  lemma FindsFirstContact(origin: Vec2, dir: Vec2, box: GameObject, range: real, out: RaycastResult, s: real)
    requires RegularDir(dir) && box.scale.x >= 0.0 && box.scale.y >= 0.0
    requires 0.0 <= s <= range && OnBox(origin, dir, box, s)
    requires forall u :: OnBox(origin, dir, box, u) ==> s <= u
    ensures var r := RaycastAabb(origin, dir, box, range, out);
      r.0 && r.1.t == Fin(s)
  {
    RaycastDecides(origin, dir, box, range, out);
    OnBoxBetween(origin, dir, box);
    DecideFindsFirst(Enter(origin, dir, box), Leave(origin, dir, box), range, s);
  }

  /** From inside (part of the box behind the origin), an exit within
      `[0, range]` is reported. */
  lemma FindsExit(origin: Vec2, dir: Vec2, box: GameObject, range: real, out: RaycastResult, s: real, u: real)
    requires RegularDir(dir) && box.scale.x >= 0.0 && box.scale.y >= 0.0
    requires 0.0 <= s <= range && OnBox(origin, dir, box, s)
    requires forall w :: OnBox(origin, dir, box, w) ==> w <= s
    requires u < 0.0 && OnBox(origin, dir, box, u)
    ensures var r := RaycastAabb(origin, dir, box, range, out);
      r.0 && r.1.t == Fin(s)
  {
    RaycastDecides(origin, dir, box, range, out);
    OnBoxBetween(origin, dir, box);
    DecideFindsExit(Enter(origin, dir, box), Leave(origin, dir, box), range, s, u);
  }

  /** From inside, an exit beyond the range is a miss, although the ray is
      in the box at parameter 0. */
  lemma InsideBeyondRangeMisses(origin: Vec2, dir: Vec2, box: GameObject, range: real, out: RaycastResult, u: real, w: real)
    requires RegularDir(dir) && box.scale.x >= 0.0 && box.scale.y >= 0.0
    requires u < 0.0 && OnBox(origin, dir, box, u)
    requires range < w && OnBox(origin, dir, box, w)
    ensures RaycastAabb(origin, dir, box, range, out) == (false, out)
  {
    RaycastDecides(origin, dir, box, range, out);
    OnBoxBetween(origin, dir, box);
    DecideInsideBeyond(Enter(origin, dir, box), Leave(origin, dir, box), range, u, w);
  }
}
