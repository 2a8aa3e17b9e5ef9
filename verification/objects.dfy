/** The movable-object state shared by the geometry and the per-kind updates
    (GameObject.hpp): position, half-extent `scale`, velocity and radar
    colour, and the id that a network object adds. */
module Objects {
  import opened Bytes
  import opened Geometry

  datatype GameObject = GameObject(position: Vec2, scale: Vec2, velocity: Vec2, radarColor: byte)

  /** A default `GameObject`: at the origin, at rest, half-extent 1. */
  const DefaultGameObject: GameObject := GameObject(Vec2(0.0, 0.0), Vec2(1.0, 1.0), Vec2(0.0, 0.0), 0)

  /** `NetworkObject`: a game object with a network id. */
  datatype NetworkObject = NetworkObject(id: u32, body: GameObject)

  /** `get_aabb()`: the box `scale` away from `position` on every side. It
      is centred on the position, and it is not empty when the scale is not
      negative. */
  function GetAabb(o: GameObject): (b: Box)
    ensures Center(b) == o.position
    ensures o.scale.x >= 0.0 && o.scale.y >= 0.0 <==> !Empty(b)
    ensures b.max.x - b.min.x == 2.0 * o.scale.x && b.max.y - b.min.y == 2.0 * o.scale.y
  {
    Box(Sub(o.position, o.scale), Add(o.position, o.scale))
  }

  /** The id distribution of `NetworkObject::init` draws from
      `[1, 0xFFFFFFFF]`; the generator itself is not modelled, so the drawn
      value is an input. */
  predicate IdInRange(drawn: int)
  {
    1 <= drawn <= 0xFFFF_FFFF
  }

  /** `NetworkObject::init`: the object takes the drawn id, which is never 0. */
  function InitNetworkObject(o: NetworkObject, drawn: int): (r: NetworkObject)
    requires IdInRange(drawn)
    ensures r.id != 0 && r.id == drawn && r.body == o.body
  {
    o.(id := drawn)
  }
}
