/** Per-axis depenetration (AABB.hpp `resolve_axis` and the in-place
    variant `resolveAxis` of CollisionObject.hpp): when an object's box
    overlaps an obstacle's box, push it out along one axis by the smaller
    of the two penetrations, towards the negative side only when that
    penetration is strictly smaller. */
module Collision {
  import opened Geometry
  import opened Objects

  /** The box `b` moved by `d`. */
  function Translate(b: Box, d: Vec2): Box
  {
    Box(Add(b.min, d), Add(b.max, d))
  }

  /** The vector with `v` on `axis` and 0 on the other one. */
  function OnAxis(v: real, axis: int): (r: Vec2)
    ensures Coord(r, axis) == v && (axis == 0 ==> r.y == 0.0) && (axis != 0 ==> r.x == 0.0)
  {
    if axis == 0 then Vec2(v, 0.0) else Vec2(0.0, v)
  }

  /** How far `p` reaches past the low side of `o` on `axis`. */
  function PenLow(p: Box, o: Box, axis: int): real
  {
    Coord(p.max, axis) - Coord(o.min, axis)
  }

  /** How far `o` reaches past the low side of `p` on `axis`. */
  function PenHigh(p: Box, o: Box, axis: int): real
  {
    Coord(o.max, axis) - Coord(p.min, axis)
  }

  /** The push of `resolve_axis` for the box `p` against the box `o`. It is
      zero without overlap; otherwise it lies on the requested axis, has the
      size of the smaller penetration (the positive one on a tie), and moves
      `p` to touch `o` without overlapping it. */
  function Push(p: Box, o: Box, axis: int): (push: Vec2)
    ensures !Overlaps(p, o) ==> push == Vec2(0.0, 0.0)
    ensures axis == 0 ==> push.y == 0.0
    ensures axis != 0 ==> push.x == 0.0
    ensures Overlaps(p, o) ==>
      if PenLow(p, o, axis) < PenHigh(p, o, axis) then Coord(push, axis) == -PenLow(p, o, axis) < 0.0
      else Coord(push, axis) == PenHigh(p, o, axis) > 0.0
    ensures !Overlaps(Translate(p, push), o)
  {
    if !Overlaps(p, o) then Vec2(0.0, 0.0)
    else
      var pl := PenLow(p, o, axis);
      var pr := PenHigh(p, o, axis);
      OnAxis(if pl < pr then -pl else pr, axis)
  }

  /** Moving `p` along the axis by `d` keeps the overlap exactly when `d`
      lies strictly between the two penetrations. */
  lemma ShiftOverlaps(p: Box, o: Box, axis: int, d: real)
    requires Overlaps(p, o)
    ensures Overlaps(Translate(p, OnAxis(d, axis)), o) <==> -PenLow(p, o, axis) < d < PenHigh(p, o, axis)
  {
  }

  /** The push is the shortest move along the axis that ends the overlap:
      every other separating move is at least as long. */
  lemma PushIsShortest(p: Box, o: Box, axis: int, d: real)
    requires Overlaps(p, o)
    requires !Overlaps(Translate(p, OnAxis(d, axis)), o)
    ensures Abs(Coord(Push(p, o, axis), axis)) <= Abs(d)
  {
    ShiftOverlaps(p, o, axis, d);
  }

  /** The box of a game object moved by `d` is its box moved by `d`. */
  lemma MovedBox(o: GameObject, d: Vec2)
    ensures GetAabb(o.(position := Add(o.position, d))) == Translate(GetAabb(o), d)
  {
  }

  /** `resolve_axis`: the push that moves `mover` out of `obs` on `axis`. */
  function ResolveAxis(mover: GameObject, obs: GameObject, axis: int): (push: Vec2)
    ensures !Overlaps(GetAabb(mover), GetAabb(obs)) ==> push == Vec2(0.0, 0.0)
    ensures axis == 0 ==> push.y == 0.0
    ensures axis != 0 ==> push.x == 0.0
    ensures !Overlaps(GetAabb(mover.(position := Add(mover.position, push))), GetAabb(obs))
  {
    var push := Push(GetAabb(mover), GetAabb(obs), axis);
    MovedBox(mover, push);
    push
  }

  /** `CollisionObject`: a position and half-extent. */
  datatype CollisionObject = CollisionObject(position: Vec2, scale: Vec2)

  /** `CollisionObject::get_aabb`. */
  function CollisionAabb(c: CollisionObject): Box
  {
    Box(Sub(c.position, c.scale), Add(c.position, c.scale))
  }

  /** `resolveAxis`: the player moves by the push of `resolve_axis` and by
      nothing else; afterwards the boxes do not overlap. */
  function ResolveAxisInPlace(player: CollisionObject, obs: CollisionObject, axis: int): (r: CollisionObject)
    ensures r.position == Add(player.position, Push(CollisionAabb(player), CollisionAabb(obs), axis))
    ensures r.scale == player.scale
    ensures axis == 0 ==> r.position.y == player.position.y
    ensures axis != 0 ==> r.position.x == player.position.x
    ensures !Overlaps(CollisionAabb(player), CollisionAabb(obs)) ==> r == player
    ensures !Overlaps(CollisionAabb(r), CollisionAabb(obs))
  {
    var p := CollisionAabb(player);
    var o := CollisionAabb(obs);
    if !Overlaps(p, o) then player
    else
      var pl := PenLow(p, o, axis);
      var pr := PenHigh(p, o, axis);
      var push := if pl < pr then -pl else pr;
      var r := if axis == 0 then player.(position := Vec2(player.position.x + push, player.position.y))
               else player.(position := Vec2(player.position.x, player.position.y + push));
      assert CollisionAabb(r) == Translate(p, Push(p, o, axis));
      r
  }

  /** Both variants move a game object alike. */
  lemma InPlaceAgrees(mover: GameObject, obs: GameObject, axis: int)
    ensures var c := ResolveAxisInPlace(CollisionObject(mover.position, mover.scale),
                                        CollisionObject(obs.position, obs.scale), axis);
      c.position == Add(mover.position, ResolveAxis(mover, obs, axis))
  {
  }
}
