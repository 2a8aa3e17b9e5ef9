/** Torpedoes (Torpedo.cpp): a network object with a tracking flag and an
    age, that moves at its velocity and marks itself deleted once its age
    passes the lifetime. The lifetime constant is declared outside the
    modelled files, so it is a parameter here. */
module Torpedoes {
  import opened Geometry
  import opened Objects

  datatype Torpedo = Torpedo(obj: NetworkObject, tracking: bool, age: real, deleted: bool)

  /** The half-extent of a torpedo. */
  const TorpedoScale: Vec2 := Vec2(0.5, 0.5)

  /** `Torpedo::init`: the network init draws the id, then the scale becomes
      one half, tracking is off and the age is zero; position, velocity,
      radar colour and the deleted flag are kept. */
  function InitTorpedo(t: Torpedo, drawn: int): (r: Torpedo)
    requires IdInRange(drawn)
    ensures r.obj.id == drawn && r.obj.id != 0
    ensures r.obj.body == t.obj.body.(scale := Vec2(0.5, 0.5))
    ensures !r.tracking && r.age == 0.0 && r.deleted == t.deleted
  {
    var o := InitNetworkObject(t.obj, drawn);
    Torpedo(o.(body := o.body.(scale := TorpedoScale)), false, 0.0, t.deleted)
  }

  /** `Torpedo::update`: one step of `elapsed` seconds. */
  function Update(t: Torpedo, elapsed: real, lifetime: real): (r: Torpedo)
    ensures r.obj.body.position == Add(t.obj.body.position, Times(t.obj.body.velocity, elapsed))
    ensures r.obj == t.obj.(body := r.obj.body) && r.obj.body == t.obj.body.(position := r.obj.body.position)
    ensures r.age == t.age + elapsed && r.tracking == t.tracking
    ensures r.deleted <==> t.deleted || r.age > lifetime
  {
    var body := t.obj.body;
    var moved := t.(obj := t.obj.(body := body.(position := Add(body.position, Times(body.velocity, elapsed)))));
    var aged := moved.(age := moved.age + elapsed);
    if aged.age > lifetime then aged.(deleted := true) else aged
  }

  /** The sum of a sequence of step lengths. */
  function Total(es: seq<real>): real
  {
    if |es| == 0 then 0.0 else Total(es[..|es| - 1]) + es[|es| - 1]
  }

  /** The torpedo after one update per step length, in order. */
  function Run(t: Torpedo, es: seq<real>, lifetime: real): Torpedo
  {
    if |es| == 0 then t else Update(Run(t, es[..|es| - 1], lifetime), es[|es| - 1], lifetime)
  }

  /** Over any run the torpedo moves in a straight line at constant
      velocity, ages by the total time, and is deleted at the end exactly
      when it was deleted at the start or its age passed the lifetime after
      some step. */
  lemma {:induction false} RunMoves(t: Torpedo, es: seq<real>, lifetime: real)
    ensures var r := Run(t, es, lifetime);
      && r.obj.body.velocity == t.obj.body.velocity
      && r.obj.body.position == Add(t.obj.body.position, Times(t.obj.body.velocity, Total(es)))
      && r.age == t.age + Total(es)
      && r.obj.id == t.obj.id && r.tracking == t.tracking
      && (r.deleted <==> t.deleted || exists k :: 1 <= k <= |es| && t.age + Total(es[..k]) > lifetime)
    decreases |es|
  {
    if |es| > 0 {
      var n := |es| - 1;
      RunMoves(t, es[..n], lifetime);
      assert es[..n + 1] == es;
      assert Total(es) == Total(es[..n]) + es[n];
      StepsAdd(t.obj.body.position, t.obj.body.velocity, Total(es[..n]), es[n]);
      forall k | 1 <= k <= n
        ensures es[..n][..k] == es[..k]
      {
      }
    }
  }

  /** Two moves at the same velocity make one move for the summed time. */
  lemma StepsAdd(p: Vec2, v: Vec2, a: real, b: real)
    ensures Add(Add(p, Times(v, a)), Times(v, b)) == Add(p, Times(v, a + b))
  {
    assert v.x * (a + b) == v.x * a + v.x * b;
    assert v.y * (a + b) == v.y * a + v.y * b;
  }

  /** With steps that never go back in time, a torpedo is deleted after a
      non-empty run exactly when it was deleted before or its final age
      passes the lifetime; once set, the flag is never cleared. */
  lemma {:induction false} DeletedAtEnd(t: Torpedo, es: seq<real>, lifetime: real)
    requires forall i :: 0 <= i < |es| ==> es[i] >= 0.0
    ensures Run(t, es, lifetime).deleted <==> t.deleted || (|es| > 0 && t.age + Total(es) > lifetime)
    decreases |es|
  {
    if |es| > 0 {
      var n := |es| - 1;
      DeletedAtEnd(t, es[..n], lifetime);
      RunMoves(t, es[..n], lifetime);
      var before := Run(t, es[..n], lifetime);
      assert Run(t, es, lifetime) == Update(before, es[n], lifetime);
      assert Total(es) == Total(es[..n]) + es[n];
    }
  }
}
