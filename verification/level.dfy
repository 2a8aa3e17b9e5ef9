/** The level's list of revealed objects (Level.hpp): ages advance each
    update, expired entries are dropped, and the ids travel as a count byte
    followed by one u32 per entry. */
module Level {
  import opened Bytes

  datatype RevealedObject = RevealedObject(objId: u32, age: real, duration: real)

  // ------------------------------------------------------------------ update

  /** The age pass of `update`: every entry gets `elapsed` older. */
  function Age(l: seq<RevealedObject>, elapsed: real): (r: seq<RevealedObject>)
    ensures |r| == |l|
    ensures forall i :: 0 <= i < |l| ==> r[i] == l[i].(age := l[i].age + elapsed)
  {
    if |l| == 0 then [] else Age(l[..|l| - 1], elapsed) + [l[|l| - 1].(age := l[|l| - 1].age + elapsed)]
  }

  predicate Expired(ro: RevealedObject)
  {
    ro.age > ro.duration
  }

  /** The `remove_if` pass: survivors keep their relative order. */
  function RemoveExpired(l: seq<RevealedObject>): (r: seq<RevealedObject>)
    ensures |r| <= |l|
    ensures forall ro <- r :: ro in l && !Expired(ro)
    ensures forall ro <- l :: !Expired(ro) ==> ro in r
  {
    if |l| == 0 then []
    else if Expired(l[|l| - 1]) then RemoveExpired(l[..|l| - 1])
    else RemoveExpired(l[..|l| - 1]) + [l[|l| - 1]]
  }

  /** `Level::update` */
  function Update(l: seq<RevealedObject>, elapsed: real): seq<RevealedObject>
  {
    RemoveExpired(Age(l, elapsed))
  }

  /** On one entry, `update` ages it and keeps it exactly when the new age
      does not exceed its duration. */
  lemma UpdateOne(ro: RevealedObject, elapsed: real)
    ensures Update([ro], elapsed) ==
      if ro.age + elapsed <= ro.duration then [ro.(age := ro.age + elapsed)] else []
  {
    assert Age([ro], elapsed) == [ro.(age := ro.age + elapsed)];
    assert [ro.(age := ro.age + elapsed)][..0] == [];
  }

  lemma {:induction false} RemoveExpiredAppend(a: seq<RevealedObject>, b: seq<RevealedObject>)
    ensures RemoveExpired(a + b) == RemoveExpired(a) + RemoveExpired(b)
    decreases |b|
  {
    if |b| == 0 {
      assert a + b == a;
    } else {
      var n := |b| - 1;
      assert (a + b)[..|a + b| - 1] == a + b[..n];
      RemoveExpiredAppend(a, b[..n]);
    }
  }

  /** `update` works entry by entry: on a concatenation it is the
      concatenation of the updates, so survivors keep their relative order. */
  lemma UpdateAppend(l: seq<RevealedObject>, m: seq<RevealedObject>, elapsed: real)
    ensures Update(l + m, elapsed) == Update(l, elapsed) + Update(m, elapsed)
  {
    assert Age(l + m, elapsed) == Age(l, elapsed) + Age(m, elapsed);
    RemoveExpiredAppend(Age(l, elapsed), Age(m, elapsed));
  }

  // ---------------------------------------------------------------- encoding

  function IdsWire(l: seq<RevealedObject>): (r: seq<byte>)
    ensures |r| == 4 * |l|
  {
    if |l| == 0 then [] else U32Bytes(l[0].objId) + IdsWire(l[1..])
  }

  /** `Level::send`: the count as `uint8_t(size())`, then each id in order. */
  function Send(l: seq<RevealedObject>): (r: seq<byte>)
    ensures |r| == 1 + 4 * |l|
    ensures r[0] == |l| % 0x100
  {
    [|l| % 0x100] + IdsWire(l)
  }

  /** The bytes `Level::receive` touches from its read position `d`: the
      count byte and that many ids. The reads are unchecked. */
  predicate Receivable(d: seq<byte>)
  {
    |d| >= 1 && |d| >= 1 + 4 * (d[0] as int)
  }

  /** `Level::receive` reads a count and then that many ids; every entry
      starts with age 0 and duration 0. */
  function Receive(d: seq<byte>): (r: (seq<RevealedObject>, seq<byte>))
    requires Receivable(d)
    ensures |r.0| == d[0]
    ensures r.1 == d[1 + 4 * (d[0] as int)..]
    ensures forall ro <- r.0 :: ro.age == 0.0 && ro.duration == 0.0
  {
    ReadIds(d[1..], d[0])
  }

  function ReadIds(d: seq<byte>, count: nat): (r: (seq<RevealedObject>, seq<byte>))
    requires |d| >= 4 * count
    ensures |r.0| == count
    ensures r.1 == d[4 * count..]
    ensures forall ro <- r.0 :: ro.age == 0.0 && ro.duration == 0.0
  {
    if count == 0 then ([], d)
    else
      var more := ReadIds(d[4..], count - 1);
      ([RevealedObject(U32Of(d[..4]), 0.0, 0.0)] + more.0, more.1)
  }

  function Ids(l: seq<RevealedObject>): (r: seq<u32>)
    ensures |r| == |l|
    ensures forall i :: 0 <= i < |l| ==> r[i] == l[i].objId
  {
    if |l| == 0 then [] else [l[0].objId] + Ids(l[1..])
  }

  lemma {:induction false} ReadIdsRoundTrip(l: seq<RevealedObject>, rest: seq<byte>)
    ensures |IdsWire(l) + rest| >= 4 * |l|
    ensures Ids(ReadIds(IdsWire(l) + rest, |l|).0) == Ids(l)
    ensures ReadIds(IdsWire(l) + rest, |l|).1 == rest
    decreases |l|
  {
    if |l| > 0 {
      var d := IdsWire(l) + rest;
      assert d[..4] == U32Bytes(l[0].objId);
      U32RoundTrip(l[0].objId);
      assert d[4..] == IdsWire(l[1..]) + rest;
      ReadIdsRoundTrip(l[1..], rest);
    }
  }

  /** Round trip: for at most 255 entries, receiving what `send` produced
      gives back the same ids in the same order, and leaves the bytes after
      them untouched. */
  lemma SendReceiveRoundTrip(l: seq<RevealedObject>, rest: seq<byte>)
    requires |l| <= 255
    ensures Receivable(Send(l) + rest)
    ensures Ids(Receive(Send(l) + rest).0) == Ids(l)
    ensures Receive(Send(l) + rest).1 == rest
  {
    var w := IdsWire(l) + rest;
    SendShape(l, rest);
    var d := [|l| as byte] + w;
    assert d[0] as int == |l| && d[1..] == w;
    ReadIdsRoundTrip(l, rest);
  }

  /** Below 256 entries the count byte is the count itself. */
  lemma SendShape(l: seq<RevealedObject>, rest: seq<byte>)
    requires |l| <= 255
    ensures Send(l) + rest == [|l| as byte] + (IdsWire(l) + rest)
  {
    SendCount(l);
    Regroup3([|l| as byte], IdsWire(l), rest);
  }

  lemma SendCount(l: seq<RevealedObject>)
    requires |l| <= 255
    ensures Send(l) == [|l| as byte] + IdsWire(l)
  {
    ByteCast(|l|);
  }

  lemma Regroup3(a: seq<byte>, b: seq<byte>, c: seq<byte>)
    ensures a + b + c == a + (b + c)
  {
  }

  /** With more than 255 entries the count byte wraps: a receiver reads
      `|l| mod 256` ids although all `|l|` were sent. */
  lemma SendCountWraps(l: seq<RevealedObject>, rest: seq<byte>)
    requires |l| == 256
    ensures Receivable(Send(l) + rest)
    ensures |Receive(Send(l) + rest).0| == 0
    ensures Receive(Send(l) + rest).1 == IdsWire(l) + rest
  {
    var w := IdsWire(l) + rest;
    var d := Send(l) + rest;
    assert Send(l) == [0] + IdsWire(l);
    assert d == [0] + w;
    assert d[1..] == w;
  }
}
