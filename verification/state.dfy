/** Server-to-client state message (Game.cpp `send_state_message` and
    `recv_state_message`). The payload is a player count byte, the player
    records with the connection's own player first, an object count byte and
    the object records (`NetworkObject` layout).

    Only the two count reads are checked against the declared size; the
    record decoders read the receive buffer without any check. A record read
    that would leave the receive buffer is undefined behaviour in the source
    and the `ReadPastBuffer` error here. */
module StateMessage {
  import opened Bytes
  import opened Wrappers
  import opened Controls
  import opened Records

  // ----------------------------------------------------------- record lists

  function PlayersWire(ps: seq<PlayerRecord>): seq<byte>
  {
    if |ps| == 0 then [] else SendPlayer(ps[0]) + PlayersWire(ps[1..])
  }

  function ObjectsWire(os: seq<NetworkObjectRecord>): (r: seq<byte>)
    ensures |r| == NetworkObjectWidth * |os|
  {
    if |os| == 0 then [] else SendNetworkObject(os[0]) + ObjectsWire(os[1..])
  }

  /** Every player record takes 34 to 289 bytes. */
  lemma {:induction false} PlayersWireLength(ps: seq<PlayerRecord>)
    ensures 34 * |ps| <= |PlayersWire(ps)| <= 289 * |ps|
    decreases |ps|
  {
    if |ps| > 0 {
      PlayersWireLength(ps[1..]);
    }
  }

  lemma {:induction false} PlayersWireSnoc(ps: seq<PlayerRecord>, p: PlayerRecord)
    ensures PlayersWire(ps + [p]) == PlayersWire(ps) + SendPlayer(p)
    decreases |ps|
  {
    if |ps| == 0 {
      assert ps + [p] == [p];
      assert [p][1..] == [];
    } else {
      assert (ps + [p])[0] == ps[0];
      assert (ps + [p])[1..] == ps[1..] + [p];
      PlayersWireSnoc(ps[1..], p);
    }
  }

  lemma {:induction false} ObjectsWireSnoc(os: seq<NetworkObjectRecord>, o: NetworkObjectRecord)
    ensures ObjectsWire(os + [o]) == ObjectsWire(os) + SendNetworkObject(o)
    decreases |os|
  {
    if |os| == 0 {
      assert os + [o] == [o];
      assert [o][1..] == [];
    } else {
      assert (os + [o])[0] == os[0];
      assert (os + [o])[1..] == os[1..] + [o];
      ObjectsWireSnoc(os[1..], o);
    }
  }

  // ------------------------------------------------------------ send order

  /** The players of `ps` in order, leaving out the one at index `skip`. */
  function SkipIndex(ps: seq<PlayerRecord>, skip: Option<nat>): (r: seq<PlayerRecord>)
    ensures |r| == if skip.Some? && skip.value < |ps| then |ps| - 1 else |ps|
  {
    if |ps| == 0 then []
    else SkipIndex(ps[..|ps| - 1], skip) + (if skip == Some(|ps| - 1) then [] else [ps[|ps| - 1]])
  }

  /** Leaving out index `k` is the list with that one element cut out;
      leaving out nothing is the list itself. */
  lemma {:induction false} SkipIndexCuts(ps: seq<PlayerRecord>, skip: Option<nat>)
    ensures skip.Some? && skip.value < |ps| ==>
      SkipIndex(ps, skip) == ps[..skip.value] + ps[skip.value + 1..]
    ensures skip.None? || skip.value >= |ps| ==> SkipIndex(ps, skip) == ps
    decreases |ps|
  {
    if |ps| > 0 {
      var n := |ps| - 1;
      SkipIndexCuts(ps[..n], skip);
      if skip.Some? && skip.value < n {
        CutBeforeLast(ps, skip.value);
      } else if skip == Some(n) {
        assert ps[..n] == ps[..n] + ps[n + 1..];
      } else {
        assert ps[..n] + [ps[n]] == ps;
      }
    }
  }

  /** Cutting out `k` before the last element, then putting the last one
      back, cuts `k` out of the whole list. */
  lemma CutBeforeLast(ps: seq<PlayerRecord>, k: nat)
    requires k < |ps| - 1
    ensures var n := |ps| - 1; ps[..n][..k] + ps[..n][k + 1..] + [ps[n]] == ps[..k] + ps[k + 1..]
  {
    var n := |ps| - 1;
    assert ps[..n][..k] == ps[..k];
    assert ps[..n][k + 1..] + [ps[n]] == ps[k + 1..];
  }

  /** The order players go on the wire: the connection's player (index
      `conn`), then every other player in list order. */
  function SentOrder(ps: seq<PlayerRecord>, conn: Option<nat>): seq<PlayerRecord>
    requires conn.Some? ==> conn.value < |ps|
  {
    (if conn.Some? then [ps[conn.value]] else []) + SkipIndex(ps, conn)
  }

  /** Moving one element to the front keeps the same elements. */
  lemma MoveToFrontPermutes(ps: seq<PlayerRecord>, k: nat)
    requires k < |ps|
    ensures multiset([ps[k]] + ps[..k] + ps[k + 1..]) == multiset(ps)
  {
    assert ps == ps[..k] + [ps[k]] + ps[k + 1..];
  }

  /** The send order is a rearrangement that moves the connection's player
      to the front and keeps the others in order. */
  lemma SentOrderMovesToFront(ps: seq<PlayerRecord>, conn: Option<nat>)
    requires conn.Some? ==> conn.value < |ps|
    ensures |SentOrder(ps, conn)| == |ps|
    ensures multiset(SentOrder(ps, conn)) == multiset(ps)
    ensures conn.Some? ==> SentOrder(ps, conn) == [ps[conn.value]] + ps[..conn.value] + ps[conn.value + 1..]
    ensures conn.None? ==> SentOrder(ps, conn) == ps
  {
    if conn.Some? {
      SentOrderAt(ps, conn.value);
    } else {
      SkipIndexCuts(ps, conn);
    }
  }

  lemma SentOrderAt(ps: seq<PlayerRecord>, k: nat)
    requires k < |ps|
    ensures SentOrder(ps, Some(k)) == [ps[k]] + ps[..k] + ps[k + 1..]
    ensures multiset(SentOrder(ps, Some(k))) == multiset(ps) && |SentOrder(ps, Some(k))| == |ps|
  {
    SkipIndexCuts(ps, Some(k));
    MoveToFrontPermutes(ps, k);
  }

  // ------------------------------------------------------------------ send

  /** The state payload for players already in send order. */
  function StatePayload(ps: seq<PlayerRecord>, count: nat, os: seq<NetworkObjectRecord>): seq<byte>
  {
    [count % 0x100] + PlayersWire(ps) + [|os| % 0x100] + ObjectsWire(os)
  }

  lemma SkipIndexStep(ps: seq<PlayerRecord>, i: nat, skip: Option<nat>)
    requires i < |ps|
    ensures SkipIndex(ps[..i + 1], skip) ==
      SkipIndex(ps[..i], skip) + (if skip == Some(i) then [] else [ps[i]])
  {
    assert ps[..i + 1][..i] == ps[..i];
  }

  lemma AppendPlayer(head: seq<byte>, sent: seq<PlayerRecord>, p: PlayerRecord)
    ensures head + PlayersWire(sent) + SendPlayer(p) == head + PlayersWire(sent + [p])
  {
    PlayersWireSnoc(sent, p);
  }

  /** One player of the loop below that is not the connection's. */
  lemma SendPlayersStep(head: seq<byte>, players: seq<PlayerRecord>, conn: Option<nat>,
                        first: seq<PlayerRecord>, sent: seq<PlayerRecord>, i: nat)
    requires i < |players| && conn != Some(i)
    requires sent == first + SkipIndex(players[..i], conn)
    ensures sent + [players[i]] == first + SkipIndex(players[..i + 1], conn)
    ensures head + PlayersWire(sent) + SendPlayer(players[i]) == head + PlayersWire(sent + [players[i]])
  {
    SkipIndexStep(players, i, conn);
    AppendPlayer(head, sent, players[i]);
  }

  /** The player loop of `send_state_message`: the connection's player
      first, then every player that is not it. */
  method SendPlayers(head: seq<byte>, players: seq<PlayerRecord>, conn: Option<nat>) returns (buf: seq<byte>)
    requires conn.Some? ==> conn.value < |players|
    ensures buf == head + PlayersWire(SentOrder(players, conn))
  {
    var first: seq<PlayerRecord> := if conn.Some? then [players[conn.value]] else [];
    buf := head + PlayersWire(first);
    ghost var sent := first;
    for i := 0 to |players|
      invariant sent == first + SkipIndex(players[..i], conn)
      invariant buf == head + PlayersWire(sent)
    {
      if conn != Some(i) {
        SendPlayersStep(head, players, conn, first, sent, i);
        buf := buf + SendPlayer(players[i]);
        sent := sent + [players[i]];
      } else {
        SkipIndexStep(players, i, conn);
      }
    }
    SentOrderComplete(players, conn, first);
  }

  /** After the last player the loop has sent the whole send order. */
  lemma SentOrderComplete(players: seq<PlayerRecord>, conn: Option<nat>, first: seq<PlayerRecord>)
    requires conn.Some? ==> conn.value < |players|
    requires first == if conn.Some? then [players[conn.value]] else []
    ensures first + SkipIndex(players[..|players|], conn) == SentOrder(players, conn)
  {
    assert players[..|players|] == players;
  }

  /** The object loop of `send_state_message`. */
  method SendObjects(head: seq<byte>, objects: seq<NetworkObjectRecord>) returns (buf: seq<byte>)
    ensures buf == head + ObjectsWire(objects)
  {
    buf := head;
    for i := 0 to |objects|
      invariant buf == head + ObjectsWire(objects[..i])
    {
      ObjectsWireSnoc(objects[..i], objects[i]);
      assert objects[..i + 1] == objects[..i] + [objects[i]];
      buf := buf + SendNetworkObject(objects[i]);
    }
    assert objects[..|objects|] == objects;
  }

  /** The size patch: the payload size taken as a `uint32_t`, its three low
      bytes written over the placeholders just before `mark`. */
  method PatchSize(pre: seq<byte>, tag: byte, payload: seq<byte>) returns (out: seq<byte>)
    ensures out == pre + Frame(tag, payload)
  {
    var buf := pre + [tag, 0, 0, 0] + payload;
    var mark := |pre| + HeaderSize;
    var size := (|buf| - mark) % 0x1_0000_0000;
    buf := buf[mark - 3 := size % 0x100][mark - 2 := (size / 0x100) % 0x100][mark - 1 := (size / 0x1_0000) % 0x100];
    UintTruncation(|payload|);
    out := buf;
    assert out == pre + [tag] + SizeBytes(|payload|) + payload;
  }

  /** `send_state_message`: the tag and three placeholder size bytes, the
      player count (`uint8_t(players.size())`), the players in send order,
      the object count and the objects, then the size patch. */
  method SendState(sendBuf: seq<byte>, players: seq<PlayerRecord>, objects: seq<NetworkObjectRecord>,
                   conn: Option<nat>) returns (out: seq<byte>)
    requires conn.Some? ==> conn.value < |players|
    ensures out == sendBuf + Frame(S2C_State, StatePayload(SentOrder(players, conn), |players|, objects))
  {
    var a := SendPlayers([|players| % 0x100], players, conn);
    var b := SendObjects(a + [|objects| % 0x100], objects);
    out := PatchSize(sendBuf, S2C_State, b);
  }

  // --------------------------------------------------------------- receive

  /** What a client keeps: players, objects and the id of its own player. */
  datatype ClientState = ClientState(players: seq<PlayerRecord>, objects: seq<NetworkObjectRecord>, localPlayer: u32)

  /** `count` player records with `Player::receive`, from the read position
      `d` on. */
  function ReadPlayers(d: seq<byte>, count: nat): (r: Result<Read<seq<PlayerRecord>>>)
    ensures r.Ok? ==> |r.value.value| == count && |r.value.rest| <= |d|
    ensures r.Throws? ==> r.error == ReadPastBuffer
    decreases count
  {
    if count == 0 then Ok(Read([], d))
    else if !PlayerReadable(d) then Throws(ReadPastBuffer)
    else
      var p := ReceivePlayer(d);
      match ReadPlayers(p.rest, count - 1)
      case Ok(more) => Ok(Read([p.value] + more.value, more.rest))
      case Throws(e) => Throws(e)
  }

  /** `count` object records with `NetworkObject::receive`, from the read
      position `d` on. */
  function ReadObjects(d: seq<byte>, count: nat): (r: Result<Read<seq<NetworkObjectRecord>>>)
    ensures r.Ok? ==> |d| >= 20 * count && |r.value.value| == count && r.value.rest == d[20 * count..]
    ensures r.Throws? <==> |d| < 20 * count
    ensures r.Throws? ==> r.error == ReadPastBuffer
    decreases count
  {
    if count == 0 then Ok(Read([], d))
    else if |d| < NetworkObjectWidth then Throws(ReadPastBuffer)
    else
      var o := ReceiveNetworkObject(d);
      match ReadObjects(o.rest, count - 1)
      case Ok(more) => Ok(Read([o.value] + more.value, more.rest))
      case Throws(e) => Throws(e)
  }

  /** The payload offset `at` of a read position, given by the bytes left
      after it in the receive buffer. */
  function Offset(buf: seq<byte>, rest: seq<byte>): int
  {
    |buf| - HeaderSize - |rest|
  }

  /** The payload decoder of `recv_state_message` on a complete message of
      `size` bytes: a checked player count, the players, a checked object
      count, the objects, and a check that exactly `size` bytes were used.
      Record reads may run past `size` as long as they stay inside the
      buffer; the check after them then fails. */
  function RecvPayload(buf: seq<byte>, size: nat): (r: Result<(seq<PlayerRecord>, seq<NetworkObjectRecord>)>)
    requires HeaderSize + size <= |buf|
    ensures r.Ok? ==> size >= 1 && |r.value.0| == buf[HeaderSize]
  {
    if 0 + 1 > size then Throws(RanOut)
    else
      match ReadPlayers(buf[HeaderSize + 1..], buf[HeaderSize])
      case Throws(e) => Throws(e)
      case Ok(ps) =>
        if Offset(buf, ps.rest) + 1 > size then Throws(RanOut)
        else
          match ReadObjects(ps.rest[1..], ps.rest[0])
          case Throws(e) => Throws(e)
          case Ok(os) =>
            if Offset(buf, os.rest) != size then Throws(TrailingData)
            else Ok((ps.value, os.value))
  }

  /** `recv_state_message`. No message (short buffer, other tag, incomplete
      payload) leaves state and buffer alone. On success players and objects
      are replaced, the first player's id becomes the local player (kept
      when no player arrives), and the message is removed from the buffer. */
  function RecvState(s: ClientState, buf: seq<byte>): (r: Result<Polled<ClientState>>)
    ensures r.Ok? && !r.value.read ==> r.value.state == s && r.value.buffer == buf
    ensures r.Ok? && r.value.read ==>
      && |buf| >= HeaderSize && |buf| >= HeaderSize + DeclaredSize(buf)
      && r.value.buffer == buf[HeaderSize + DeclaredSize(buf)..]
  {
    if |buf| < HeaderSize then Ok(Polled(false, s, buf))
    else if buf[0] != S2C_State then Ok(Polled(false, s, buf))
    else if |buf| < HeaderSize + DeclaredSize(buf) then Ok(Polled(false, s, buf))
    else
      match RecvPayload(buf, DeclaredSize(buf))
      case Throws(e) => Throws(e)
      case Ok(p) =>
        var local := if |p.0| > 0 then p.0[0].base.id else s.localPlayer;
        Ok(Polled(true, ClientState(p.0, p.1, local), buf[HeaderSize + DeclaredSize(buf)..]))
  }

  // ------------------------------------------------------------- properties

  /** What a receiver knows of each player: names cut to 255 bytes. */
  function TruncatedAll(ps: seq<PlayerRecord>): (r: seq<PlayerRecord>)
    ensures |r| == |ps|
    ensures forall i :: 0 <= i < |ps| ==> r[i] == Truncated(ps[i])
  {
    if |ps| == 0 then [] else [Truncated(ps[0])] + TruncatedAll(ps[1..])
  }

  /** One step of `ReadPlayers`: a player, then the rest. */
  lemma ReadPlayersCons(d: seq<byte>, count: nat, v: PlayerRecord, d': seq<byte>, vs: seq<PlayerRecord>, rest: seq<byte>)
    requires count > 0 && PlayerReadable(d) && ReceivePlayer(d) == Read(v, d')
    requires ReadPlayers(d', count - 1) == Ok(Read(vs, rest))
    ensures ReadPlayers(d, count) == Ok(Read([v] + vs, rest))
  {
  }

  lemma TruncatedAllCons(ps: seq<PlayerRecord>)
    requires |ps| > 0
    ensures TruncatedAll(ps) == [Truncated(ps[0])] + TruncatedAll(ps[1..])
  {
  }

  /** Sent player records read back as the players, names truncated, and
      leave what follows them untouched. */
  lemma {:induction false} ReadPlayersRoundTrip(ps: seq<PlayerRecord>, rest: seq<byte>)
    ensures ReadPlayers(PlayersWire(ps) + rest, |ps|) == Ok(Read(TruncatedAll(ps), rest))
    decreases |ps|
  {
    if |ps| > 0 {
      var tail := PlayersWire(ps[1..]) + rest;
      assert PlayersWire(ps) + rest == SendPlayer(ps[0]) + tail;
      PlayerRoundTrip(ps[0], tail);
      ReadPlayersRoundTrip(ps[1..], rest);
      ReadPlayersCons(SendPlayer(ps[0]) + tail, |ps|, Truncated(ps[0]), tail, TruncatedAll(ps[1..]), rest);
      TruncatedAllCons(ps);
    } else {
      assert PlayersWire(ps) + rest == rest;
    }
  }

  /** One step of `ReadObjects`: an object, then the rest. */
  lemma ReadObjectsCons(d: seq<byte>, count: nat, v: NetworkObjectRecord, d': seq<byte>,
                        vs: seq<NetworkObjectRecord>, rest: seq<byte>)
    requires count > 0 && |d| >= NetworkObjectWidth && ReceiveNetworkObject(d) == Read(v, d')
    requires ReadObjects(d', count - 1) == Ok(Read(vs, rest))
    ensures ReadObjects(d, count) == Ok(Read([v] + vs, rest))
  {
  }

  /** Sent object records read back as the objects and leave what follows
      them untouched. */
  lemma {:induction false} ReadObjectsRoundTrip(os: seq<NetworkObjectRecord>, rest: seq<byte>)
    ensures ReadObjects(ObjectsWire(os) + rest, |os|) == Ok(Read(os, rest))
    decreases |os|
  {
    if |os| > 0 {
      var tail := ObjectsWire(os[1..]) + rest;
      assert ObjectsWire(os) + rest == SendNetworkObject(os[0]) + tail;
      NetworkObjectRoundTrip(os[0], tail);
      ReadObjectsRoundTrip(os[1..], rest);
      ReadObjectsCons(SendNetworkObject(os[0]) + tail, |os|, os[0], tail, os[1..], rest);
      assert [os[0]] + os[1..] == os;
    } else {
      assert ObjectsWire(os) + rest == rest;
    }
  }

  /** `RecvPayload` once both record lists have been read. */
  lemma RecvPayloadSteps(buf: seq<byte>, size: nat, ps: seq<PlayerRecord>, r1: seq<byte>,
                         os: seq<NetworkObjectRecord>, r2: seq<byte>)
    requires 1 <= size && HeaderSize + size <= |buf|
    requires ReadPlayers(buf[HeaderSize + 1..], buf[HeaderSize]) == Ok(Read(ps, r1))
    requires Offset(buf, r1) + 1 <= size
    requires ReadObjects(r1[1..], r1[0]) == Ok(Read(os, r2))
    ensures RecvPayload(buf, size) == if Offset(buf, r2) == size then Ok((ps, os)) else Throws(TrailingData)
  {
  }

  /** The size checks of the two count reads: the player count throws
      "ran out of bytes" on an empty payload, and the object count throws it
      when the player records already reach the declared size. These are
      the only two ways the decoder runs out. */
  lemma RecvPayloadRanOut(buf: seq<byte>, size: nat)
    requires HeaderSize + size <= |buf|
    ensures size == 0 ==> RecvPayload(buf, size) == Throws(RanOut)
    ensures size >= 1 ==>
      var pr := ReadPlayers(buf[HeaderSize + 1..], buf[HeaderSize]);
      pr.Ok? && Offset(buf, pr.value.rest) + 1 > size ==> RecvPayload(buf, size) == Throws(RanOut)
    ensures RecvPayload(buf, size) == Throws(RanOut) ==>
      || size == 0
      || (var pr := ReadPlayers(buf[HeaderSize + 1..], buf[HeaderSize]);
          pr.Ok? && Offset(buf, pr.value.rest) + 1 > size)
  {
  }

  /** Record reads are not checked against the declared size: object
      records that run past it but stay inside the buffer are read, and the
      final check reports "trailing data", not "ran out of bytes". */
  lemma ObjectsOverrunTrailing(buf: seq<byte>, size: nat, ps: seq<PlayerRecord>, r1: seq<byte>,
                               os: seq<NetworkObjectRecord>, r2: seq<byte>)
    requires 1 <= size && HeaderSize + size <= |buf|
    requires ReadPlayers(buf[HeaderSize + 1..], buf[HeaderSize]) == Ok(Read(ps, r1))
    requires Offset(buf, r1) + 1 <= size
    requires ReadObjects(r1[1..], r1[0]) == Ok(Read(os, r2))
    requires Offset(buf, r2) > size
    ensures RecvPayload(buf, size) == Throws(TrailingData)
  {
    RecvPayloadSteps(buf, size, ps, r1, os, r2);
  }

  /** A state message that declares an empty payload throws "ran out of
      bytes" at the player count, whatever follows it. */
  lemma EmptyStateMessageRanOut(s: ClientState, rest: seq<byte>)
    ensures RecvState(s, [S2C_State, 0, 0, 0] + rest) == Throws(RanOut)
  {
    var buf := [S2C_State, 0, 0, 0] + rest;
    assert buf[0] == S2C_State && buf[1] == 0 && buf[2] == 0 && buf[3] == 0;
    EmptyPayloadRanOut(s, buf);
  }

  /** Any complete state header declaring size 0 throws at the player
      count. */
  lemma EmptyPayloadRanOut(s: ClientState, buf: seq<byte>)
    requires |buf| >= HeaderSize && buf[0] == S2C_State && DeclaredSize(buf) == 0
    ensures RecvState(s, buf) == Throws(RanOut)
  {
    RecvPayloadRanOut(buf, 0);
    RecvStatePayloadError(s, buf);
  }

  /** A complete state message whose payload decoder throws throws the
      same error. */
  lemma RecvStatePayloadError(s: ClientState, buf: seq<byte>)
    requires |buf| >= HeaderSize && buf[0] == S2C_State && HeaderSize + DeclaredSize(buf) <= |buf|
    requires RecvPayload(buf, DeclaredSize(buf)).Throws?
    ensures RecvState(s, buf) == Throws(RecvPayload(buf, DeclaredSize(buf)).error)
  {
  }

  /** A message declaring 2 payload bytes (no players, one object) whose
      object record follows in the buffer: the record is read past the
      declared size, and the message throws "trailing data". */
  lemma OneObjectPastSizeTrailing(s: ClientState, obj: seq<byte>)
    requires |obj| == NetworkObjectWidth
    ensures RecvState(s, [S2C_State, 2, 0, 0, 0, 1] + obj) == Throws(TrailingData)
  {
    var buf := [S2C_State, 2, 0, 0, 0, 1] + obj;
    assert buf[..HeaderSize] == [S2C_State, 2, 0, 0];
    assert DeclaredSize(buf) == 2;
    var r1 := buf[HeaderSize + 1..];
    assert ReadPlayers(r1, buf[HeaderSize]) == Ok(Read([], r1));
    assert r1[1..] == obj;
    var o := ReceiveNetworkObject(obj);
    assert ReadObjects(o.rest, 0) == Ok(Read([], o.rest));
    ReadObjectsCons(obj, 1, o.value, o.rest, [], o.rest);
    assert [o.value] + [] == [o.value];
    ObjectsOverrunTrailing(buf, 2, [], r1, [o.value], o.rest);
    RecvStatePayloadError(s, buf);
  }

  /** A state payload at the front of the message area decodes to its
      players (names truncated) and objects when the declared size is the
      payload's size, and throws "trailing data" when the declared size also
      covers the bytes `extra` after it. */
  lemma PayloadReads(buf: seq<byte>, ps: seq<PlayerRecord>, os: seq<NetworkObjectRecord>,
                     extra: seq<byte>, rest: seq<byte>, size: nat)
    requires |ps| <= 255 && |os| <= 255
    requires |buf| >= HeaderSize
    requires buf[HeaderSize..] == StatePayload(ps, |ps|, os) + (extra + rest)
    requires size == |StatePayload(ps, |ps|, os)| + |extra|
    ensures HeaderSize + size <= |buf|
    ensures RecvPayload(buf, size) == if |extra| == 0 then Ok((TruncatedAll(ps), os)) else Throws(TrailingData)
  {
    var r1 := [|os|] + (ObjectsWire(os) + (extra + rest));
    PayloadLayout(buf, ps, os, extra, rest, size);
    assert ReadPlayers(buf[HeaderSize + 1..], buf[HeaderSize]) == Ok(Read(TruncatedAll(ps), r1)) by {
      ReadPlayersRoundTrip(ps, r1);
    }
    assert ReadObjects(r1[1..], r1[0]) == Ok(Read(os, extra + rest)) by {
      ReadObjectsRoundTrip(os, extra + rest);
    }
    RecvPayloadSteps(buf, size, TruncatedAll(ps), r1, os, extra + rest);
  }

  /** Where the parts of a state payload sit in the receive buffer. */
  lemma PayloadLayout(buf: seq<byte>, ps: seq<PlayerRecord>, os: seq<NetworkObjectRecord>,
                      extra: seq<byte>, rest: seq<byte>, size: nat)
    requires |ps| <= 255 && |os| <= 255
    requires |buf| >= HeaderSize
    requires buf[HeaderSize..] == StatePayload(ps, |ps|, os) + (extra + rest)
    requires size == |StatePayload(ps, |ps|, os)| + |extra|
    ensures var r1 := [|os|] + (ObjectsWire(os) + (extra + rest));
      && HeaderSize + size <= |buf|
      && buf[HeaderSize] == |ps| && buf[HeaderSize + 1..] == PlayersWire(ps) + r1
      && r1[0] == |os| && r1[1..] == ObjectsWire(os) + (extra + rest)
      && Offset(buf, r1) == 1 + |PlayersWire(ps)|
      && Offset(buf, r1) + 1 <= size
      && Offset(buf, extra + rest) == size - |extra|
  {
    var r1 := [|os|] + (ObjectsWire(os) + (extra + rest));
    PayloadBytes(buf[HeaderSize..], ps, os, extra + rest);
    PayloadOffsets(|buf|, |PlayersWire(ps)|, |ObjectsWire(os)|, |extra|, |rest|, size);
  }

  /** The bytes of a state payload: the player count, the players, then the
      object count and the rest. */
  lemma PayloadBytes(d: seq<byte>, ps: seq<PlayerRecord>, os: seq<NetworkObjectRecord>, tail: seq<byte>)
    requires |ps| <= 255 && |os| <= 255
    requires d == StatePayload(ps, |ps|, os) + tail
    ensures d[0] == |ps| && d[1..] == PlayersWire(ps) + ([|os|] + (ObjectsWire(os) + tail))
  {
    PayloadShape(ps, os, tail);
    ConsTail(|ps|, PlayersWire(ps) + ([|os|] + (ObjectsWire(os) + tail)));
  }

  lemma PayloadShape(ps: seq<PlayerRecord>, os: seq<NetworkObjectRecord>, tail: seq<byte>)
    requires |ps| <= 255 && |os| <= 255
    ensures StatePayload(ps, |ps|, os) + tail == [|ps|] + (PlayersWire(ps) + ([|os|] + (ObjectsWire(os) + tail)))
  {
    PayloadCounts(ps, os);
    Regroup([|ps|], PlayersWire(ps), [|os|], ObjectsWire(os), tail);
  }

  /** Counts below 256 go on the wire unchanged. */
  lemma PayloadCounts(ps: seq<PlayerRecord>, os: seq<NetworkObjectRecord>)
    requires |ps| <= 255 && |os| <= 255
    ensures StatePayload(ps, |ps|, os) == [|ps|] + PlayersWire(ps) + [|os|] + ObjectsWire(os)
  {
    ByteCast(|ps|);
    ByteCast(|os|);
  }

  lemma Regroup(a: seq<byte>, b: seq<byte>, c: seq<byte>, d: seq<byte>, e: seq<byte>)
    ensures a + b + c + d + e == a + (b + (c + (d + e)))
  {
  }

  lemma ConsTail(c: byte, x: seq<byte>)
    ensures ([c] + x)[0] == c && ([c] + x)[1..] == x
  {
  }

  /** The offsets of a state payload, from the lengths of its parts. */
  lemma PayloadOffsets(nbuf: nat, npw: nat, now: nat, nextra: nat, nrest: nat, size: nat)
    requires nbuf == HeaderSize + 2 + npw + now + nextra + nrest
    requires size == 2 + npw + now + nextra
    ensures HeaderSize + size <= nbuf
    ensures nbuf - HeaderSize - (1 + now + nextra + nrest) == 1 + npw
    ensures 1 + npw + 1 <= size
    ensures nbuf - HeaderSize - (nextra + nrest) == size - nextra
  {
  }

  /** The id a client takes as its own after a state message: the
      connection's player when there is one, else the first player, else
      the id it had. */
  function LocalAfter(s: ClientState, players: seq<PlayerRecord>, conn: Option<nat>): u32
    requires conn.Some? ==> conn.value < |players|
  {
    if conn.Some? then players[conn.value].base.id
    else if |players| > 0 then players[0].base.id
    else s.localPlayer
  }

  /** `RecvState` on a complete state message whose payload decodes. */
  lemma RecvStateSteps(s: ClientState, buf: seq<byte>, ps: seq<PlayerRecord>, os: seq<NetworkObjectRecord>)
    requires |buf| >= HeaderSize && buf[0] == S2C_State && HeaderSize + DeclaredSize(buf) <= |buf|
    requires RecvPayload(buf, DeclaredSize(buf)) == Ok((ps, os))
    ensures RecvState(s, buf) ==
      Ok(Polled(true, ClientState(ps, os, if |ps| > 0 then ps[0].base.id else s.localPlayer),
                buf[HeaderSize + DeclaredSize(buf)..]))
  {
  }

  /** A state payload for at most 255 players and objects fits the 24-bit
      size field. */
  lemma StatePayloadFits(ps: seq<PlayerRecord>, os: seq<NetworkObjectRecord>)
    requires |ps| <= 255 && |os| <= 255
    ensures |StatePayload(ps, |ps|, os)| < MaxFrameSize - 0x10000
  {
    PlayersWireLength(ps);
  }

  /** The payload of a well-formed state message decodes to its players
      (names truncated) and objects. */
  lemma StatePayloadReads(ps: seq<PlayerRecord>, os: seq<NetworkObjectRecord>, rest: seq<byte>)
    requires |ps| <= 255 && |os| <= 255
    ensures var buf := Frame(S2C_State, StatePayload(ps, |ps|, os)) + rest;
      && buf[0] == S2C_State
      && DeclaredSize(buf) == |StatePayload(ps, |ps|, os)|
      && HeaderSize + DeclaredSize(buf) <= |buf|
      && buf[HeaderSize + DeclaredSize(buf)..] == rest
      && RecvPayload(buf, DeclaredSize(buf)) == Ok((TruncatedAll(ps), os))
  {
    var payload := StatePayload(ps, |ps|, os);
    var buf := Frame(S2C_State, payload) + rest;
    StatePayloadFits(ps, os);
    FrameHeader(S2C_State, payload, rest);
    assert [] + rest == rest;
    PayloadReads(buf, ps, os, [], rest, DeclaredSize(buf));
  }

  /** A state message carrying players `ps` in order and objects `os`
      decodes to them (names truncated), the first player becoming the
      local one, and leaves the bytes after it in order. */
  lemma StateFrameReads(s: ClientState, ps: seq<PlayerRecord>, os: seq<NetworkObjectRecord>, rest: seq<byte>)
    requires |ps| <= 255 && |os| <= 255
    ensures RecvState(s, Frame(S2C_State, StatePayload(ps, |ps|, os)) + rest) ==
      Ok(Polled(true, ClientState(TruncatedAll(ps), os, if |ps| > 0 then ps[0].base.id else s.localPlayer), rest))
  {
    StatePayloadReads(ps, os, rest);
    RecvStateSteps(s, Frame(S2C_State, StatePayload(ps, |ps|, os)) + rest, TruncatedAll(ps), os);
  }

  /** Round trip of the state message: with at most 255 players and 255
      objects, a client receiving what the server sent gets every player
      (names truncated to 255 bytes) with the connection's player first,
      every object, takes the connection's player as its own, and the
      bytes after the message are left in order. */
  lemma StateRoundTrip(s: ClientState, players: seq<PlayerRecord>, objects: seq<NetworkObjectRecord>,
                       conn: Option<nat>, rest: seq<byte>)
    requires conn.Some? ==> conn.value < |players|
    requires |players| <= 255 && |objects| <= 255
    ensures var sent := SentOrder(players, conn);
      RecvState(s, Frame(S2C_State, StatePayload(sent, |players|, objects)) + rest) ==
        Ok(Polled(true, ClientState(TruncatedAll(sent), objects, LocalAfter(s, players, conn)), rest))
  {
    var sent := SentOrder(players, conn);
    SentOrderMovesToFront(players, conn);
    StateFrameReads(s, sent, objects, rest);
  }

  /** Bytes after the objects inside the declared size are rejected: a
      valid state payload followed by any non-empty `extra` in the same
      message is "trailing data". */
  lemma StateRejectsTrailingData(s: ClientState, players: seq<PlayerRecord>,
                                 objects: seq<NetworkObjectRecord>, extra: seq<byte>, rest: seq<byte>)
    requires |players| <= 255 && |objects| <= 255 && 0 < |extra| <= 0x10000
    ensures RecvState(s, Frame(S2C_State, StatePayload(players, |players|, objects) + extra) + rest) ==
      Throws(TrailingData)
  {
    var payload := StatePayload(players, |players|, objects);
    var buf := Frame(S2C_State, payload + extra) + rest;
    StatePayloadFits(players, objects);
    FrameHeader(S2C_State, payload + extra, rest);
    assert buf[HeaderSize..] == payload + (extra + rest);
    PayloadReads(buf, players, objects, extra, rest, DeclaredSize(buf));
  }

  /** A controls message is not a state message: the state decoder leaves it
      in the buffer untouched. */
  lemma StateIgnoresControls(s: ClientState, c: Controls, rest: seq<byte>)
    ensures RecvState(s, SendControls(c) + rest) == Ok(Polled(false, s, SendControls(c) + rest))
  {
  }

  /** A state message is not a controls message: the controls decoder
      leaves it in the buffer untouched. */
  lemma ControlsIgnoresState(c: Controls, payload: seq<byte>, rest: seq<byte>)
    ensures RecvControls(c, Frame(S2C_State, payload) + rest) ==
      Ok(Polled(false, c, Frame(S2C_State, payload) + rest))
  {
  }
}
