/** The radar (Radar.cpp): the nearest hit along one direction over all
    targets, and the sweep that collects the hits of `count` directions.

    The ray angles come from `cos`/`sin` of `2*pi*i/count`; trigonometry is
    not modelled, so the sweep takes the direction of ray `i` as an input.
    Each target goes through `raycastAABB` as written
    (`Raycast.RaycastAabbAsWritten`), which can report a hit at parameter
    NaN. The scan's strict `<` is false on NaN, so such a hit is never kept;
    `NearestCorrected` is the same scan over the corrected box test, and the
    two agree whenever no ray starts on a plane it runs parallel to. */
module Radar {
  import opened Geometry
  import opened Objects
  import opened Raycast

  /** `raycastAABB` on one target with a fresh default result. */
  function HitOf(origin: Vec2, dir: Vec2, range: real, o: GameObject): (bool, RaycastResult)
  {
    RaycastAabbAsWritten(origin, dir, o, range, DefaultResult)
  }

  /** The same with the corrected box test. */
  function CorrectedHitOf(origin: Vec2, dir: Vec2, range: real, o: GameObject): (bool, RaycastResult)
  {
    RaycastAabb(origin, dir, o, range, DefaultResult)
  }

  /** A per-target result whose reported hit is a hit record at a parameter
      that is finite or NaN, never an infinity. */
  predicate Sane(h: (bool, RaycastResult))
  {
    h.0 ==> h.1.hit && (h.1.t.Fin? || h.1.t.NaN?)
  }

  /** A hit the scan can keep: one at a finite parameter. */
  predicate Counted(h: (bool, RaycastResult))
  {
    h.0 && h.1.t.Fin?
  }

  /** The as-written test reports hits at finite parameters within the range,
      or at NaN; the corrected one only at finite parameters. */
  lemma HitOfSane(origin: Vec2, dir: Vec2, range: real, o: GameObject)
    ensures Sane(HitOf(origin, dir, range, o)) && Sane(CorrectedHitOf(origin, dir, range, o))
    ensures var h := HitOf(origin, dir, range, o);
      h.0 ==> h.1.t.NaN? || 0.0 <= h.1.t.v <= range
    ensures CorrectedHitOf(origin, dir, range, o).0 ==> Counted(CorrectedHitOf(origin, dir, range, o))
  {
  }

  predicate AllSane(hs: seq<(bool, RaycastResult)>)
  {
    forall i :: 0 <= i < |hs| ==> Sane(hs[i])
  }

  /** The per-target results of a test, in target order. */
  function Map(test: GameObject -> (bool, RaycastResult), targets: seq<GameObject>): (hs: seq<(bool, RaycastResult)>)
    ensures |hs| == |targets|
    ensures forall i :: 0 <= i < |targets| ==> hs[i] == test(targets[i])
  {
    seq(|targets|, i requires 0 <= i < |targets| => test(targets[i]))
  }

  /** The results over a concatenation are those over its parts, in order. */
  lemma MapAppend(test: GameObject -> (bool, RaycastResult), a: seq<GameObject>, b: seq<GameObject>)
    ensures Map(test, a + b) == Map(test, a) + Map(test, b)
  {
  }

  /** One step of the scan: a hit replaces `closest` only when it is strictly
      nearer. */
  function Step(closest: RaycastResult, h: (bool, RaycastResult)): RaycastResult
  {
    if h.0 && Less(h.1.t, closest.t) then h.1 else closest
  }

  /** The result of scanning per-target results in order from a default
      result: no hit when no target is hit at a finite parameter, otherwise
      the hit of such a target whose parameter is the smallest, the earliest
      such target. Hits at NaN are passed over. */
  function NearestOf(hs: seq<(bool, RaycastResult)>): (r: RaycastResult)
    requires AllSane(hs)
    ensures r.hit <==> exists i :: 0 <= i < |hs| && Counted(hs[i])
    ensures !r.hit ==> r == DefaultResult
    ensures r.hit ==> r.t.Fin? && exists i :: (0 <= i < |hs| && Counted(hs[i]) && r == hs[i].1
      && forall j :: 0 <= j < i && Counted(hs[j]) ==> r.t.v < hs[j].1.t.v)
    ensures r.hit ==> forall j :: 0 <= j < |hs| && Counted(hs[j]) ==> r.t.v <= hs[j].1.t.v
    decreases |hs|
  {
    if |hs| == 0 then DefaultResult
    else
      var n := |hs| - 1;
      assert forall j :: 0 <= j < n ==> hs[..n][j] == hs[j];
      Step(NearestOf(hs[..n]), hs[n])
  }

  /** The scan loop of `raycast_direction` over any per-target test. */
  method Scan(targets: seq<GameObject>, test: GameObject -> (bool, RaycastResult)) returns (r: RaycastResult)
    requires forall o <- targets :: Sane(test(o))
    ensures r == NearestOf(Map(test, targets))
  {
    ghost var hs := Map(test, targets);
    var closest := DefaultResult;
    var k := 0;
    while k < |targets|
      invariant 0 <= k <= |targets|
      invariant closest == NearestOf(hs[..k])
    {
      var h := test(targets[k]);
      NearestStep(hs, k);
      if h.0 {
        if Less(h.1.t, closest.t) {
          closest := h.1;
        }
      }
      k := k + 1;
    }
    assert hs[..k] == hs;
    r := closest;
  }

  /** One more per-target result is one more step of the scan. */
  lemma NearestStep(hs: seq<(bool, RaycastResult)>, k: nat)
    requires AllSane(hs) && k < |hs|
    ensures AllSane(hs[..k]) && AllSane(hs[..k + 1])
    ensures NearestOf(hs[..k + 1]) == Step(NearestOf(hs[..k]), hs[k])
  {
    assert hs[..k + 1][..k] == hs[..k];
  }

  /** The test `raycast_direction` applies to each target. */
  function Test(origin: Vec2, dir: Vec2, range: real): GameObject -> (bool, RaycastResult)
  {
    o => HitOf(origin, dir, range, o)
  }

  function CorrectedTest(origin: Vec2, dir: Vec2, range: real): GameObject -> (bool, RaycastResult)
  {
    o => CorrectedHitOf(origin, dir, range, o)
  }

  lemma TestSane(origin: Vec2, dir: Vec2, range: real, targets: seq<GameObject>)
    ensures AllSane(Map(Test(origin, dir, range), targets))
    ensures AllSane(Map(CorrectedTest(origin, dir, range), targets))
  {
    forall o | o in targets
      ensures Sane(Test(origin, dir, range)(o)) && Sane(CorrectedTest(origin, dir, range)(o))
    {
      HitOfSane(origin, dir, range, o);
    }
  }

  /** The nearest result along `dir` over `targets`, as `raycast_direction`
      computes it. */
  function Nearest(origin: Vec2, dir: Vec2, range: real, targets: seq<GameObject>): RaycastResult
  {
    TestSane(origin, dir, range, targets);
    NearestOf(Map(Test(origin, dir, range), targets))
  }

  /** The same scan over the corrected box test. */
  function NearestCorrected(origin: Vec2, dir: Vec2, range: real, targets: seq<GameObject>): RaycastResult
  {
    TestSane(origin, dir, range, targets);
    NearestOf(Map(CorrectedTest(origin, dir, range), targets))
  }

  /** The ray does not start on a plane of `o`'s box that it runs parallel
      to. */
  predicate OffParallelPlanes(origin: Vec2, dir: Vec2, o: GameObject)
  {
    var b := GetAabb(o);
    && (Abs(dir.x) < ParallelEps ==> origin.x != b.min.x && origin.x != b.max.x)
    && (Abs(dir.y) < ParallelEps ==> origin.y != b.min.y && origin.y != b.max.y)
  }

  /** Off parallel planes the radar as written and the corrected radar find
      the same nearest hit. */
  lemma RadarAgreesOffParallelPlanes(origin: Vec2, dir: Vec2, range: real, targets: seq<GameObject>)
    requires forall o <- targets :: OffParallelPlanes(origin, dir, o)
    ensures Nearest(origin, dir, range, targets) == NearestCorrected(origin, dir, range, targets)
  {
    forall i | 0 <= i < |targets|
      ensures Test(origin, dir, range)(targets[i]) == CorrectedTest(origin, dir, range)(targets[i])
    {
      assert targets[i] in targets;
      AgreeOffParallelPlanes(origin, dir, targets[i], range, DefaultResult);
    }
    assert Map(Test(origin, dir, range), targets) == Map(CorrectedTest(origin, dir, range), targets);
  }

  /** A ray along +y from the right edge of the default box: the box test
      as written reports a hit at NaN, the scan passes over it, and the radar
      sees nothing. */
  lemma GrazingTargetMissed()
    ensures !Nearest(Vec2(1.0, 0.0), Vec2(0.0, 1.0), 10.0, [DefaultGameObject]).hit
  {
    AsWrittenReportsNaN();
    SingleTarget(Vec2(1.0, 0.0), Vec2(0.0, 1.0), 10.0, DefaultGameObject);
    NaNPassedOver(DefaultResult, HitOf(Vec2(1.0, 0.0), Vec2(0.0, 1.0), 10.0, DefaultGameObject));
  }

  /** The corrected radar sees the same box's corner at parameter 1. */
  lemma GrazingTargetCorrected()
    ensures var c := NearestCorrected(Vec2(1.0, 0.0), Vec2(0.0, 1.0), 10.0, [DefaultGameObject]);
      c.hit && c.t == Fin(1.0)
  {
    CorrectedReportsExit();
    SingleTarget(Vec2(1.0, 0.0), Vec2(0.0, 1.0), 10.0, DefaultGameObject);
    FiniteTakenFirst(CorrectedHitOf(Vec2(1.0, 0.0), Vec2(0.0, 1.0), 10.0, DefaultGameObject));
  }

  /** A hit at NaN never replaces the closest result. */
  lemma NaNPassedOver(c: RaycastResult, h: (bool, RaycastResult))
    requires h.1.t == NaN
    ensures Step(c, h) == c
  {
  }

  /** The first hit at a finite parameter replaces the default result. */
  lemma FiniteTakenFirst(h: (bool, RaycastResult))
    requires h.0 && h.1.t.Fin?
    ensures Step(DefaultResult, h) == h.1
  {
  }

  /** With one target, either radar reports that target's hit exactly when
      it is at a finite parameter. */
  lemma SingleTarget(origin: Vec2, dir: Vec2, range: real, o: GameObject)
    ensures Nearest(origin, dir, range, [o]) == Step(DefaultResult, HitOf(origin, dir, range, o))
    ensures NearestCorrected(origin, dir, range, [o]) == Step(DefaultResult, CorrectedHitOf(origin, dir, range, o))
  {
    TestSane(origin, dir, range, [o]);
    NearestOfSingle(Map(Test(origin, dir, range), [o]));
    NearestOfSingle(Map(CorrectedTest(origin, dir, range), [o]));
  }

  /** The scan over one result is one step from the default result. */
  lemma NearestOfSingle(hs: seq<(bool, RaycastResult)>)
    requires |hs| == 1 && AllSane(hs)
    ensures NearestOf(hs) == Step(DefaultResult, hs[0])
  {
    assert hs[..0] == [];
  }

  /** `raycast_direction`: the targets are the obstacles followed by the
      additional objects; each gets a fresh result, and the closest is kept
      with a strict `<`. */
  method RaycastDirection(origin: Vec2, dir: Vec2, range: real, obstacles: seq<GameObject>, additional: seq<GameObject>)
    returns (r: RaycastResult)
    ensures r == Nearest(origin, dir, range, obstacles + additional)
    ensures var hs := Map(Test(origin, dir, range), obstacles) + Map(Test(origin, dir, range), additional);
      && (r.hit <==> exists i :: 0 <= i < |hs| && Counted(hs[i]))
      && (!r.hit ==> r == DefaultResult)
  {
    TestSane(origin, dir, range, obstacles + additional);
    MapAppend(Test(origin, dir, range), obstacles, additional);
    r := Scan(obstacles + additional, Test(origin, dir, range));
  }

  /** The hits among `look(0) .. look(n-1)`, in order, misses dropped. */
  function Sweep(look: int -> RaycastResult, n: nat): (r: seq<RaycastResult>)
    ensures |r| <= n
    decreases n
  {
    if n == 0 then []
    else Sweep(look, n - 1) + (if look(n - 1).hit then [look(n - 1)] else [])
  }

  /** The sweep keeps exactly the hits: everything in it is a hit of one
      of the `n` rays, and every hit of those rays is in it. */
  lemma {:induction false} SweepSpec(look: int -> RaycastResult, n: nat)
    ensures forall x <- Sweep(look, n) :: x.hit
    ensures forall i :: 0 <= i < n && look(i).hit ==> look(i) in Sweep(look, n)
    ensures forall x <- Sweep(look, n) :: exists i :: 0 <= i < n && x == look(i)
    decreases n
  {
    if n > 0 {
      SweepSpec(look, n - 1);
    }
  }

  /** A sweep whose rays all miss is empty. */
  lemma {:induction false} AllMissSweep(look: int -> RaycastResult, n: nat)
    requires forall i :: 0 <= i < n ==> !look(i).hit
    ensures Sweep(look, n) == []
    decreases n
  {
    if n > 0 {
      AllMissSweep(look, n - 1);
    }
  }

  /** With nothing to hit, every ray misses and the sweep is empty. */
  lemma EmptyWorldSweep(origin: Vec2, range: real, dirOf: int -> Vec2, n: nat)
    ensures Sweep(Look(origin, range, dirOf, []), n) == []
  {
    var look := Look(origin, range, dirOf, []);
    forall i | 0 <= i < n
      ensures !look(i).hit
    {
      assert Map(Test(origin, dirOf(i), range), []) == [];
    }
    AllMissSweep(look, n);
  }

  /** The nearest result of each ray of the sweep. */
  function Look(origin: Vec2, range: real, dirOf: int -> Vec2, targets: seq<GameObject>): int -> RaycastResult
  {
    i => Nearest(origin, dirOf(i), range, targets)
  }

  /** `raycast_surrounding`: `out` is cleared, then the nearest result of
      each of the `count` rays is appended when it is a hit. A negative
      `count` converts to a size beyond any vector's maximum, so reserving
      it throws `std::length_error` (`thrown`) with `out` already cleared. */
  method RaycastSurrounding(origin: Vec2, range: real, count: int, dirOf: int -> Vec2,
                            obstacles: seq<GameObject>, additional: seq<GameObject>)
    returns (out: seq<RaycastResult>, thrown: bool)
    ensures thrown <==> count < 0
    ensures thrown ==> out == []
    ensures !thrown ==> out == Sweep(Look(origin, range, dirOf, obstacles + additional), count)
  {
    out := [];
    if count < 0 {
      return out, true;
    }
    thrown := false;
    var i := 0;
    while i < count
      invariant 0 <= i <= count
      invariant out == Sweep(Look(origin, range, dirOf, obstacles + additional), i)
    {
      out := CastRay(origin, range, dirOf, obstacles, additional, out, i);
      i := i + 1;
    }
  }

  /** One ray of `raycast_surrounding`: its nearest result is appended when
      it is a hit. */
  method CastRay(origin: Vec2, range: real, dirOf: int -> Vec2, obstacles: seq<GameObject>,
                 additional: seq<GameObject>, out: seq<RaycastResult>, i: int)
    returns (out': seq<RaycastResult>)
    requires 0 <= i && out == Sweep(Look(origin, range, dirOf, obstacles + additional), i)
    ensures out' == Sweep(Look(origin, range, dirOf, obstacles + additional), i + 1)
  {
    var hit := NearestHit(origin, dirOf(i), range, obstacles, additional);
    SweepStep(Look(origin, range, dirOf, obstacles + additional), i, hit);
    out' := if hit.hit then out + [hit] else out;
  }

  /** `raycast_direction`, with only the result's identity in view. */
  method NearestHit(origin: Vec2, dir: Vec2, range: real, obstacles: seq<GameObject>, additional: seq<GameObject>)
    returns (r: RaycastResult)
    ensures r == Nearest(origin, dir, range, obstacles + additional)
  {
    r := RaycastDirection(origin, dir, range, obstacles, additional);
  }

  lemma SweepStep(look: int -> RaycastResult, i: int, hit: RaycastResult)
    requires 0 <= i && hit == look(i)
    ensures Sweep(look, i + 1) == Sweep(look, i) + (if hit.hit then [hit] else [])
  {
  }
}
