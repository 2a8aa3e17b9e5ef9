/** Per-object record layouts of the state message (GameObject.cpp). A record
    is appended to the send buffer field by field with `memcpy`. A decoder
    reads at payload offset `at`, that is from `recv_buffer[4 + at]` on, with
    no bounds check, and advances `at` by what it read. Here a decoder takes
    the bytes from its read position to the end of the receive buffer and
    returns the value with the bytes after it; each requires that what it
    reads lies inside the buffer.

    Float fields (`float`, `glm::vec2`, `glm::vec3`) travel as their raw bytes;
    the model keeps them as opaque 4-byte groups. */
module Records {
  import opened Bytes

  /** The raw bytes of one 32-bit float. */
  type F32 = s: seq<byte> | |s| == 4 witness [0, 0, 0, 0]

  datatype Vec2Bits = Vec2Bits(x: F32, y: F32)
  datatype Vec3Bits = Vec3Bits(r: F32, g: F32, b: F32)

  /** `NetworkObject`: id, position, velocity. */
  datatype NetworkObjectRecord = NetworkObjectRecord(id: u32, position: Vec2Bits, velocity: Vec2Bits)

  /** `Player`: the network object, colour, radar colour and name bytes. */
  datatype PlayerRecord = PlayerRecord(base: NetworkObjectRecord, color: Vec3Bits, radarColor: byte, name: seq<byte>)

  /** `Torpedo`: the network object, tracking flag and age. */
  datatype TorpedoRecord = TorpedoRecord(base: NetworkObjectRecord, tracking: bool, age: F32)

  /** A decoded value and the receive-buffer bytes after it. */
  datatype Read<T> = Read(value: T, rest: seq<byte>)

  /** Encoded widths. */
  const NetworkObjectWidth: nat := 20
  const PlayerFixedWidth: nat := 34   // network object, colour, radar colour, name length
  const TorpedoWidth: nat := 25
  const MaxNameLength: nat := 255

  function Vec2Wire(v: Vec2Bits): (r: seq<byte>)
    ensures |r| == 8
  {
    v.x + v.y
  }

  function Vec3Wire(v: Vec3Bits): (r: seq<byte>)
    ensures |r| == 12
  {
    v.r + v.g + v.b
  }

  // --------------------------------------------------------- NetworkObject

  /** `NetworkObject::send` */
  function SendNetworkObject(o: NetworkObjectRecord): (r: seq<byte>)
    ensures |r| == NetworkObjectWidth
  {
    U32Bytes(o.id) + Vec2Wire(o.position) + Vec2Wire(o.velocity)
  }

  /** `NetworkObject::receive`: id, position and velocity in that order;
      20 bytes are consumed. */
  function ReceiveNetworkObject(d: seq<byte>): (r: Read<NetworkObjectRecord>)
    requires |d| >= NetworkObjectWidth
    ensures r.rest == d[NetworkObjectWidth..]
  {
    Read(NetworkObjectRecord(U32Of(d[..4]), Vec2Bits(d[4..8], d[8..12]), Vec2Bits(d[12..16], d[16..20])),
         d[NetworkObjectWidth..])
  }

  /** Reading back a sent network object gives the object, and what follows
      it is untouched. */
  lemma NetworkObjectRoundTrip(o: NetworkObjectRecord, rest: seq<byte>)
    ensures |SendNetworkObject(o) + rest| >= NetworkObjectWidth
    ensures ReceiveNetworkObject(SendNetworkObject(o) + rest) == Read(o, rest)
  {
    var d := SendNetworkObject(o) + rest;
    assert d[..4] == U32Bytes(o.id);
    U32RoundTrip(o.id);
    assert d[4..8] == o.position.x && d[8..12] == o.position.y;
    assert d[12..16] == o.velocity.x && d[16..20] == o.velocity.y;
    assert d[NetworkObjectWidth..] == rest;
  }

  // ---------------------------------------------------------------- Player

  /** Name length sent: `min(255, name.size())`. */
  function NameLength(name: seq<byte>): (n: nat)
    ensures n <= MaxNameLength && n <= |name|
    ensures n == |name| || n == MaxNameLength
  {
    if |name| < MaxNameLength then |name| else MaxNameLength
  }

  /** `Player::send`: the network object, colour, radar colour, one length
      byte, then that many leading name bytes. */
  function SendPlayer(p: PlayerRecord): (r: seq<byte>)
    ensures |r| == PlayerFixedWidth + NameLength(p.name)
    ensures r[PlayerFixedWidth - 1] == NameLength(p.name)
    ensures r[PlayerFixedWidth..] == p.name[..NameLength(p.name)]
  {
    SendNetworkObject(p.base) + Vec3Wire(p.color) + [p.radarColor] + [NameLength(p.name)]
      + p.name[..NameLength(p.name)]
  }

  /** The bytes `Player::receive` touches: the fixed part, then as many name
      bytes as the length byte says. */
  predicate PlayerReadable(d: seq<byte>)
  {
    |d| >= PlayerFixedWidth && |d| >= PlayerFixedWidth + d[PlayerFixedWidth - 1]
  }

  /** `Player::receive`: the network object, colour, radar colour, a length
      byte `n`, and exactly `n` name bytes. */
  function ReceivePlayer(d: seq<byte>): (r: Read<PlayerRecord>)
    requires PlayerReadable(d)
    ensures |r.value.name| == d[PlayerFixedWidth - 1]
    ensures r.rest == d[PlayerFixedWidth + d[PlayerFixedWidth - 1]..]
  {
    var base := ReceiveNetworkObject(d);
    var color := Vec3Bits(d[20..24], d[24..28], d[28..32]);
    var n := d[33];
    Read(PlayerRecord(base.value, color, d[32], d[34..34 + n]), d[34 + n..])
  }

  /** What a receiver knows of a player after the wire: the name cut to its
      first 255 bytes, everything else as sent. */
  function Truncated(p: PlayerRecord): (q: PlayerRecord)
    ensures |q.name| <= MaxNameLength
    ensures q.name <= p.name
    ensures |p.name| <= MaxNameLength ==> q == p
  {
    p.(name := p.name[..NameLength(p.name)])
  }

  /** Reading back a sent player gives the player with its name truncated to
      255 bytes, and what follows it is untouched. */
  lemma PlayerRoundTrip(p: PlayerRecord, rest: seq<byte>)
    ensures PlayerReadable(SendPlayer(p) + rest)
    ensures ReceivePlayer(SendPlayer(p) + rest) == Read(Truncated(p), rest)
  {
    var w := SendPlayer(p);
    var d := w + rest;
    var n := NameLength(p.name);
    assert d[..NetworkObjectWidth] == SendNetworkObject(p.base);
    NetworkObjectRoundTrip(p.base, d[NetworkObjectWidth..]);
    assert d == SendNetworkObject(p.base) + d[NetworkObjectWidth..];
    assert d[33] == n;
    assert d[20..24] == p.color.r && d[24..28] == p.color.g && d[28..32] == p.color.b;
    assert d[32] == p.radarColor;
    assert d[34..34 + n] == p.name[..n];
    assert d[34 + n..] == rest;
  }

  // --------------------------------------------------------------- Torpedo

  /** `Torpedo::send`: the network object, then `tracking` as one byte, then
      `age`. */
  function SendTorpedo(t: TorpedoRecord): (r: seq<byte>)
    ensures |r| == TorpedoWidth
  {
    SendNetworkObject(t.base) + [if t.tracking then 1 else 0] + t.age
  }

  /** `Torpedo::receive`: the network object, `tracking` (any non-zero byte
      is true), `age`. */
  function ReceiveTorpedo(d: seq<byte>): (r: Read<TorpedoRecord>)
    requires |d| >= TorpedoWidth
    ensures r.rest == d[TorpedoWidth..]
  {
    var base := ReceiveNetworkObject(d);
    Read(TorpedoRecord(base.value, d[20] != 0, d[21..25]), d[TorpedoWidth..])
  }

  /** Reading back a sent torpedo gives the torpedo, and what follows it is
      untouched. */
  lemma TorpedoRoundTrip(t: TorpedoRecord, rest: seq<byte>)
    ensures |SendTorpedo(t) + rest| >= TorpedoWidth
    ensures ReceiveTorpedo(SendTorpedo(t) + rest) == Read(t, rest)
  {
    var d := SendTorpedo(t) + rest;
    assert d[..NetworkObjectWidth] == SendNetworkObject(t.base);
    NetworkObjectRoundTrip(t.base, d[NetworkObjectWidth..]);
    assert d == SendNetworkObject(t.base) + d[NetworkObjectWidth..];
    assert d[21..25] == t.age;
  }
}
