# Submarine game core in Dafny

This project models the game-logic core of a small networked submarine game.
The model is written in Dafny and comes with proofs. It covers three parts:

- **The wire protocol.** The client sends a controls message: a 1-byte tag, a
  3-byte little-endian size and five button bytes. The server sends a state
  message: the players with the connection's own player first, then the
  network objects. The size of a state message is patched into its header
  after the payload is written. Each object kind has its own record layout,
  and the level has a list of revealed object ids.
- **Boxes and rays.** This covers the box queries and the slab test of a ray
  against a box. The bounding volume hierarchy (BVH) over the static
  obstacles is built with an area-cost split over eight buckets per axis,
  using `std::partition`. Its nearest-hit query descends the tree. The
  single-box ray test `raycastAABB` is modelled, and so are the radar's
  nearest-hit scan and its sweep of rays.
- **Collision and per-tick updates.** This covers per-axis depenetration
  against a box and the player's movement: x first, then y, with two passes
  over the targets each. It also covers the weapon cooldown, torpedo motion
  and lifetime, the expiry of revealed objects, removal from the object
  tables and the server's per-tick player step.

Each `.dfy` file is one module:

- `bytes`, `controls`, `records`, `state` and `level` are the protocol.
- `geometry`, `objects`, `bvh`, `bvh_query`, `raycast` and `radar` are the
  spatial part.
- `collision`, `torpedo`, `player` and `game` are the updates.
- `wrappers` holds `Option`.

Buffers are sequences of bytes. `float` and `glm` vector fields travel as
opaque 4-byte groups. Geometry uses `real`, and the source's epsilons
`1e-8`, `1e-5` and `1e-6` stay literal constants. `raycastAABB` produces
infinities and NaN, and its model works over an explicit extended-float type
(`Raycast.Ext`). The radar calls that function as written, so a NaN hit
reaches the radar's nearest-hit scan. The scan's strict `<` is false on NaN,
so the scan passes over such a hit.

Where the written description of the system and the code disagree, the model
follows the code:

- **Radar misses.** The radar keeps only hits. `raycast_surrounding` does not
  record "out of range" results, so a sweep with nothing to hit is empty
  (`Radar.EmptyWorldSweep`).
- **Button press counts.** A button byte carries the press count modulo 128
  (`downs & 0x7f`). It does not saturate at 127, and the sender does not
  clamp it. The receiver adds it to its own count and saturates at 255.
- **Collision ties.** A tie between the two penetrations pushes towards the
  positive side. Take a box of half-extent 1 at the origin moving by (+2, 0) into the
  obstacle [0, 4] x [-1, 1]. It ends at x = 5, with its left edge on the
  obstacle's right edge (`Players.ObstacleScenario`). It does not stop at the
  obstacle's left edge.
- **Partition order.** `std::partition` does not keep the relative order of
  the elements. The model follows the bidirectional algorithm of libstdc++.
  The partitions of one node's search accumulate, and the split position
  refers to the final arrangement.

## Model

| member | source | states |
|---|---|---|
| Bytes.U32Bytes | GameObject.cpp:19 | a u32 field takes exactly four bytes on the wire |
| Bytes.U32RoundTrip | GameObject.cpp:17-34 | four bytes copied out of a u32 and copied back give the same u32 |
| Bytes.SizeBytes | Game.cpp:252-254 | the header size field is exactly three bytes |
| Bytes.Frame | Game.cpp:223-254 | a framed message is the 4-byte header followed by the payload |
| Bytes.SizeRoundTrip | Game.cpp:251-267 | the size the receiver reassembles from the three header bytes is the sent size modulo 2^24 |
| Bytes.UintTruncation | Game.cpp:251 | taking the size as a `uint32_t` before cutting it into bytes does not change the bytes sent |
| Bytes.DeclaredSize | Game.cpp:267 | a declared payload size is always below 2^24 |
| Bytes.FrameHeader | Game.cpp:223-254 | a framed message followed by any bytes reads back with its tag and payload size, the payload sits right after the header, and the following bytes come after it unchanged |
| Objects.GetAabb | GameObject.hpp:42-45 | an object's box is centred on its position, has twice its scale as width and height, and is non-empty exactly when the scale is not negative |
| Objects.InitNetworkObject | GameObject.cpp:12-15 | a network object takes the drawn id, which is never 0, and keeps its body |
| Controls.SendControls | Game.cpp:13-38 | a controls message is 9 bytes: tag 1, size bytes 5, 0, 0, then one byte per button in wire order |
| Controls.ButtonByteFields | Game.cpp:30 | bit 7 of a button byte is set exactly when the button is pressed, and the low 7 bits are the press count modulo 128 |
| Controls.MergeButton | Game.cpp:60-70 | a received button takes `pressed` from bit 7; its count never decreases; it grows by the low 7 bits unless that passes 255, in which case it is exactly 255 |
| Controls.RecvControlsContract | Game.cpp:40-82 | three outcomes. No message: buffer too short, another tag or an incomplete payload, with controls and buffer untouched. A throw exactly when the tag matches and the declared size is not 5, even before the payload arrives. Success exactly on a complete 9-byte message, which is removed with the rest kept in order and each button merged |
| Controls.ButtonRoundTrip | Game.cpp:24-70 | a sent button arrives with its `pressed` flag, and its count modulo 128 is added to the receiver's count, saturating at 255 |
| Controls.ControlsRoundTrip | Game.cpp:13-82 | receiving a sent controls message merges all five buttons this way and leaves the following bytes in order |
| Controls.DeliverToFresh | GameObject.hpp:62-66 | a default button receiving a count below 128 ends with exactly the sent button |
| Controls.FreshReceiverRoundTrip | Game.cpp:13-82 | a receiver with default controls gets back exactly the sent controls when every count is below 128 |
| Controls.RepeatedReadsSaturate | Game.cpp:63-69 | over any number of merged messages, each press count is the receiver's count plus every count sent for that button modulo 128, saturated at 255; so it never decreases |
| Records.Vec2Wire | GameObject.cpp:20-21 | a two-float vector takes eight bytes |
| Records.Vec3Wire | GameObject.cpp:54 | a colour takes twelve bytes |
| Records.SendNetworkObject | GameObject.cpp:17-22 | a network object record is 20 bytes |
| Records.ReceiveNetworkObject | GameObject.cpp:24-34 | reading a network object consumes exactly 20 bytes |
| Records.NetworkObjectRoundTrip | GameObject.cpp:17-34 | a sent network object reads back as itself, and the following bytes come after it unchanged |
| Records.NameLength | GameObject.cpp:58 | the sent name length is at most 255 and at most the name's length, and is one of the two |
| Records.SendPlayer | GameObject.cpp:51-61 | a player record is 34 bytes plus the name length; its 34th byte is that length, followed by exactly that many leading name bytes |
| Records.ReceivePlayer | GameObject.cpp:63-82 | a received name has as many bytes as the length byte says, and reading stops right after them |
| Records.Truncated | GameObject.cpp:57-58 | what survives of a player is a name of at most 255 bytes that is a prefix of the original; a name that fits is kept whole |
| Records.PlayerRoundTrip | GameObject.cpp:51-82 | a sent player reads back as itself with its name cut to 255 bytes, and the following bytes come after it unchanged |
| Records.SendTorpedo | GameObject.cpp:92-97 | a torpedo record is 25 bytes |
| Records.ReceiveTorpedo | GameObject.cpp:99-109 | reading a torpedo consumes exactly 25 bytes |
| Records.TorpedoRoundTrip | GameObject.cpp:92-109 | a sent torpedo reads back as itself, and the following bytes come after it unchanged |
| StateMessage.ObjectsWire | Game.cpp:245-248 | the object records take 20 bytes each |
| StateMessage.PlayersWireLength | Game.cpp:234-241 | each player record takes between 34 and 289 bytes |
| StateMessage.SkipIndexCuts | Game.cpp:236-241 | skipping the connection's player removes exactly that one element and keeps the others in order; skipping nothing sends the whole list |
| StateMessage.SkipIndex | Game.cpp:236-241 | skipping a valid index leaves one player fewer; skipping no player or an index outside the list leaves all of them |
| StateMessage.MoveToFrontPermutes | Game.hpp:111-114 | moving one player to the front keeps the same players |
| StateMessage.SentOrderMovesToFront | Game.hpp:111-114 | the send order is a rearrangement of the players that puts the connection's player first, once, with the others in list order; without a connection player it is the list itself |
| StateMessage.SentOrderAt | Game.cpp:234-241 | with the connection's player at index `k`, the send order is that player, the players before it, then the players after it; it has the same players as the list |
| StateMessage.SentOrderComplete | Game.cpp:234-241 | once the loop has passed every player, the connection's player followed by the others is the whole send order |
| StateMessage.SendPlayers | Game.cpp:234-241 | the player loop appends the records of the send order, connection's player first and not repeated |
| StateMessage.SendObjects | Game.cpp:244-248 | the object loop appends every object record in table order |
| StateMessage.PatchSize | Game.cpp:223-254 | patching the placeholders yields a proper frame: tag, the payload's length in three little-endian bytes, payload |
| StateMessage.SendState | Game.cpp:218-255 | the state message is a frame around: player count byte, players in send order, object count byte, objects |
| StateMessage.ReadPlayers | Game.cpp:287-291 | a successful read yields exactly `n` players and never leaves more bytes than it was given; the only failure is reading past the receive buffer |
| StateMessage.ReadObjects | Game.cpp:313-317 | reading `n` objects fails exactly when fewer than 20n bytes are there, and only by reading past the buffer; otherwise it yields `n` objects and consumes exactly 20n bytes |
| StateMessage.RecvPayload | Game.cpp:274-326 | a decoded payload has a declared size of at least 1 and as many players as its count byte says |
| StateMessage.RecvState | Game.cpp:257-332 | when no message is read (short buffer, other tag, incomplete) the client state and the buffer are untouched; after a read exactly the header and the declared size are removed from the front |
| StateMessage.TruncatedAll | GameObject.cpp:57-58 | each player of the list with its name cut to 255 bytes, in order |
| StateMessage.ReadPlayersRoundTrip | GameObject.cpp:51-82 | sent player records read back as the players with truncated names, the following bytes unchanged |
| StateMessage.ReadObjectsRoundTrip | GameObject.cpp:17-34 | sent object records read back as the objects, the following bytes unchanged |
| StateMessage.PayloadReads | Game.cpp:274-326 | a payload of at most 255 players and objects decodes to its players (names truncated) and objects when the declared size is its own length; any extra declared bytes are "trailing data" |
| StateMessage.PayloadCounts | Game.cpp:233-248 | with at most 255 players and objects, the payload is player count, player records, object count, object records |
| StateMessage.RecvPayloadSteps | Game.cpp:284-326 | after both record lists are read, the payload decodes to them exactly when the read ended at the declared size, and throws trailing data otherwise |
| StateMessage.RecvPayloadRanOut | Game.cpp:274-312 | "ran out of bytes" is thrown when the declared size is 0, when the player records already reach the declared size, and in no other case: only the two count reads check the size |
| StateMessage.ObjectsOverrunTrailing | Game.cpp:308-326 | object records that run past the declared size but stay inside the buffer are read, and the message throws "trailing data", not "ran out of bytes" |
| StateMessage.EmptyStateMessageRanOut | Game.cpp:263-288 | a state message that declares an empty payload throws "ran out of bytes", whatever follows it |
| StateMessage.EmptyPayloadRanOut | Game.cpp:263-288 | any complete state header that declares size 0 throws "ran out of bytes" at the player count |
| StateMessage.OneObjectPastSizeTrailing | Game.cpp:263-326 | a message declaring 2 payload bytes, no players and one object, with the 20-byte record in the buffer, throws "trailing data" |
| StateMessage.StatePayloadReads | Game.cpp:257-326 | a state frame built from at most 255 players and objects passes the header checks, declares its own payload size, and its payload decodes to the players with truncated names and the objects |
| StateMessage.StatePayloadFits | Game.cpp:251-254 | a payload with at most 255 players and objects fits the 24-bit size field |
| StateMessage.StateFrameReads | Game.cpp:284-329 | a state frame decodes to its players and objects, the first player's id becomes the local player (kept when there are none), and the bytes after it stay in order |
| StateMessage.RecvStateSteps | Game.cpp:284-329 | a complete state message whose payload decodes replaces the client's lists, takes the first player's id as the local player (kept when there is none) and removes exactly the message |
| StateMessage.StateRoundTrip | Game.cpp:218-332 | with at most 255 players and objects, the client receives every player (names truncated) with the connection's player first, every object, takes the connection's player as its own, and the following bytes stay in order |
| StateMessage.StateRejectsTrailingData | Game.cpp:325-326 | bytes inside the declared size after the last object make the message throw "trailing data" |
| StateMessage.StateIgnoresControls | Game.hpp:18-23 | the state decoder treats a controls message as "no message" and leaves it in the buffer |
| StateMessage.ControlsIgnoresState | Game.hpp:18-23 | the controls decoder treats a state message as "no message" and leaves it in the buffer |
| Level.Age | Level.hpp:20-23 | every entry, in order, gets `elapsed` older and nothing else changes |
| Level.RemoveExpired | Level.hpp:25-29 | the survivors are exactly the entries whose age does not exceed their duration |
| Level.UpdateOne | Level.hpp:18-30 | an entry is aged and kept exactly when its new age does not exceed its duration |
| Level.RemoveExpiredAppend | Level.hpp:25-29 | removal works entry by entry, so survivors keep their relative order |
| Level.UpdateAppend | Level.hpp:18-30 | the update of a concatenation is the concatenation of the updates |
| Level.Send | Level.hpp:32-39 | the list goes out as a count byte (the size modulo 256) and then four bytes per entry |
| Level.IdsWire | Level.hpp:35-38 | the id list takes four bytes per entry |
| Level.SendCount | Level.hpp:32-39 | with at most 255 entries the count byte is the number of entries |
| Level.Receive | Level.hpp:41-60 | the receiver reads as many ids as the count byte says, each with age 0 and duration 0, and stops right after them |
| Level.ReadIds | Level.hpp:49-59 | reading `count` ids yields `count` entries of age 0 and duration 0 and consumes exactly 4 bytes each |
| Level.Ids | Level.hpp:35-38 | the ids of a list, one per entry in order |
| Level.ReadIdsRoundTrip | Level.hpp:49-59 | ids sent in order read back in order, the following bytes unchanged |
| Level.SendReceiveRoundTrip | Level.hpp:32-60 | with at most 255 entries, receiving the sent list gives back the same ids in the same order and leaves the following bytes untouched |
| Level.SendCountWraps | Level.hpp:34 | with 256 entries the count byte wraps to 0 and the receiver reads no ids |
| Geometry.Min | BBox.hpp:23-26 | `std::min`: no larger than either argument and equal to one of them |
| Geometry.Max | BBox.hpp:28-31 | `std::max`: no smaller than either argument and equal to one of them |
| Geometry.Abs | BBox.cpp:14 | `std::abs`: never negative and equal to the argument or its negation |
| Geometry.OverlapsIffCommonInterior | BBox.hpp:33-37 | boxes of positive size overlap exactly when they share an interior point; overlap is symmetric; boxes that only touch at an edge do not overlap |
| Geometry.EnclosePoint | BBox.hpp:39-43 | the result encloses the box and contains the point, and is the least such box |
| Geometry.EncloseBox | BBox.hpp:45-49 | the result encloses both boxes and is the least such box |
| Geometry.EncloseBoxIdempotent | BBox.hpp:45-49 | enclosing never shrinks the target, and enclosing the same box twice is enclosing it once |
| Geometry.EnclosesPoints | BBox.hpp:45-49 | a box that encloses another by its corners contains all of its points |
| Geometry.EmptyIffNoPoint | BBox.hpp:51-54 | a box is empty exactly when it contains no point |
| Geometry.SurfaceArea | BBox.hpp:56-62 | the area is never negative; 0 for an empty box, width times height otherwise |
| Geometry.Center | BBox.hpp:65-68 | the centre is equally far from both corners on each axis, and lies in the box when the box is non-empty |
| Geometry.HitInAxis | BBox.cpp:12-30 | a near-parallel axis passes exactly when the origin is in the slab and leaves the window alone; otherwise the window only narrows and the axis passes exactly when it is not inverted |
| Geometry.Hit | BBox.cpp:7-41 | on a miss the window is unchanged; on a hit the new window lies inside the old one |
| Geometry.SlabCrossings | BBox.cpp:21-24 | along a moving axis the ray is inside the slab exactly between the two ordered crossing parameters |
| Geometry.Crossing | BBox.cpp:21-22 | for a positive direction component, the ray is past a plane exactly from the parameter `(c - o) / d` on |
| Geometry.CrossingNegative | BBox.cpp:21-24 | for a negative component the crossings come in the other order, which is why the source swaps them |
| Geometry.HitInAxisExact | BBox.cpp:12-30 | for a direction component that is 0 or at least `1e-8`, a parameter survives one axis exactly when it was in the window and the ray is in that slab there |
| Geometry.HitExact | BBox.cpp:7-41 | for such directions and a non-empty box, a parameter lies in the returned window of a hit exactly when it lay in the given window and the ray is in the box there |
| Geometry.HitSound | BBox.cpp:7-41 | every parameter of a returned window puts the ray inside the box |
| Bvh.Swap | Raycast.cpp:64-65 | exchanging two elements changes those two positions and nothing else |
| Bvh.SwapPerm | Raycast.cpp:64-65 | a swap inside a range rearranges that range only |
| Bvh.PermWiden | Raycast.cpp:64-65 | a rearrangement of a sub-range is one of any range around it |
| Bvh.PermOutside | Raycast.cpp:64-65 | outside the rearranged range nothing moves |
| Bvh.Advance | Raycast.cpp:64-65 | the forward scan of `std::partition` keeps a rearrangement of the range, with the elements going left before the returned position and the others after it |
| Bvh.Retreat | Raycast.cpp:64-65 | the backward scan keeps the same rearrangement and separation guarantees |
| Bvh.Partition | Raycast.cpp:64-65 | `std::partition` rearranges the range so that the elements whose box centre is below the threshold come first, and returns the position separating them |
| Bvh.BoxAll | Raycast.cpp:24-41 | the box of a range encloses every box in it and, for a non-empty range, is the least such box |
| Bvh.EnclosesRangePerm | Raycast.cpp:82-83 | a box enclosing a range encloses every rearrangement of it |
| Bvh.EnclosesRangeApart | Raycast.cpp:94-96 | rearranging one range does not disturb what a box encloses in a range apart from it |
| Bvh.Splits | Raycast.cpp:61-79 | the bucket loop only rearranges the range, keeps `best_split` at `begin` or strictly inside, and once a cost is found keeps one |
| Bvh.SearchAxis | Raycast.cpp:56-60 | an axis search only rearranges the range and keeps the split position consistent |
| Bvh.BestSplit | Raycast.cpp:53-80 | the search rearranges the range; its split stays at `begin` exactly when no finite cost was found, and otherwise lies strictly inside |
| Bvh.FlatBoxFindsNothing | Raycast.cpp:58-60 | when the node box has no positive extent on either axis, no split is searched and the node becomes a leaf |
| Bvh.BuildRange | Raycast.cpp:43-100 | building a range rearranges only it and appends nodes after the existing ones; the last node is the range's own, with the given box and exactly that range |
| Bvh.Build | Raycast.cpp:13-104 | the obstacles are a rearrangement of the input; an empty input leaves no nodes; otherwise the root is the last node |
| Bvh.KeepValid | Raycast.cpp:64-65 | rearranging a range that no existing node covers keeps every node valid |
| Bvh.AppendValid | Raycast.cpp:212-221 | appending a node that is valid on its own keeps the node list valid |
| Bvh.BuildRangeValid | Raycast.cpp:43-100 | building a range keeps the node list valid (leaf exactly when `l == r`, boxes enclose their ranges, children before parents and splitting the parent's range left then right), and the new nodes cover parts of the range |
| Bvh.SplitValid | Raycast.cpp:91-99 | the interior case: left range, right range, then the node over both keeps the list valid |
| Bvh.LeftApart | Raycast.cpp:94-96 | after the left range is built, no node covers the right range |
| Bvh.BuildWellFormed | Raycast.cpp:13-104 | the built tree is well formed: every node is valid and the root is the last node and covers every obstacle |
| BvhQuery.PrimHit | Raycast.cpp:134 | an obstacle is hit exactly when its contact lies in the window, at the contact's distance |
| BvhQuery.LeafScanSpec | Raycast.cpp:126-141 | the leaf loop never gets farther, reports only obstacle contacts, and is at least as near as every contact of the leaf in its window |
| BvhQuery.ChildSees | Raycast.cpp:151-152 | a child's box test passes on every contact of its obstacles in the window and keeps that contact in the narrowed window |
| BvhQuery.VisitSpec | Raycast.cpp:115-142 | visiting a node never gets farther, reports only obstacle contacts, and is at least as near as every contact of the node's obstacles in the window and the ray bounds |
| BvhQuery.DescendSpec | Raycast.cpp:143-206 | the same for an interior node, over all child cases including the larger-entry-first order |
| BvhQuery.ChildrenCover | Raycast.cpp:154-205 | a node's covering follows from its children's, case by case |
| BvhQuery.BothSpec | Raycast.cpp:180-205 | visiting two hit children in order covers both ranges, with the second clamped to the nearer hit |
| BvhQuery.ClampCovers | Raycast.cpp:118-122 | covering the window clamped to the closest hit covers the whole window |
| BvhQuery.NarrowCovers | Raycast.cpp:129-131 | the leaf window (clamped window cut to the ray bounds) covers the node's window |
| BvhQuery.MonotoneCovers | Raycast.cpp:135-139 | a nearer result keeps every covering |
| BvhQuery.LinearScanNearest | Raycast.cpp:106-211 | the reference scan over every obstacle is a nearest-hit search: a hit exactly when some contact lies in the bounds, at the nearest one |
| BvhQuery.QueryNearest | Raycast.cpp:106-211 | `BVH::hit` on a built tree is a nearest-hit search; an empty tree gives no hit at the far bound |
| BvhQuery.QueryMatchesLinearScan | Raycast.cpp:106-211 | `BVH::hit` and the linear scan over all obstacles return the same result |
| BvhQuery.NearestUnique | Raycast.cpp:106-211 | two nearest-hit results agree, so the query result is determined |
| BvhQuery.NearestCoversHit | Raycast.cpp:106-211 | a nearest-hit result is a hit and at least as near as any other search's hit |
| Raycast.Slab | BBox.cpp:14-19 | a slab's crossing parameters with the parallel case handled explicitly are never NaN |
| Raycast.Normal | Raycast.hpp:53-61 | the normal is one of (-1, 0), (1, 0), (0, -1), (0, 1) |
| Raycast.Reported | Raycast.hpp:63-67 | a reported result is a hit at the given parameter with that normal and object, at the point `origin + dir * t` |
| Raycast.Decide | Raycast.hpp:46-51 | a chosen parameter is the entry or the exit, is not below 0 or above the range, and is finite when neither is NaN |
| Raycast.Cast | Raycast.hpp:43-68 | a miss leaves `out` unchanged; a hit reports the decided parameter with its normal; a finite parameter lies in [0, range]; without NaN crossings it is finite |
| Raycast.RaycastAabbAsWritten | Raycast.hpp:19-69 | as written: a miss leaves `out` unchanged; a hit is recorded with the box as the object |
| Raycast.AsWrittenReportsNaN | Raycast.hpp:23-51 | an origin on the edge of a box, moving parallel to that edge, makes the function report a hit at parameter NaN |
| Raycast.GrazingSlabsAsWritten | Raycast.hpp:23-41 | as written, on that input the x slab is (-inf, NaN) and the y slab is (-1, 1) |
| Raycast.CastGrazing | Raycast.hpp:43-67 | those slabs make the as-written test report a hit at parameter NaN |
| Raycast.RaycastAabb | Raycast.hpp:19-69 | corrected: a miss leaves `out` unchanged; a hit is at a finite parameter in [0, range], at `origin + dir * t`, with an axis normal and the box as the object |
| Raycast.CorrectedReportsExit | Raycast.hpp:46-51 | on that input the corrected test reports the exit at parameter 1, point (1, 1) |
| Raycast.GrazingSlabs | BBox.cpp:14-19 | with the parallel axis handled by the origin test, the x slab is the whole line and the y slab is (-1, 1) |
| Raycast.InsideDecides | Raycast.hpp:46-51 | from those slabs the entry/exit decision picks the exit at 1 |
| Raycast.CastInside | Raycast.hpp:43-67 | those slabs make the corrected test report the exit at 1, at `origin + dir` |
| Raycast.SlabAgrees | Raycast.hpp:23-41 | the two slab computations agree except for an origin exactly on a plane of a near-parallel axis |
| Raycast.AgreeOffParallelPlanes | Raycast.hpp:23-44 | both versions agree whenever no origin lies exactly on a plane its ray runs parallel to |
| Raycast.SlabExact | Raycast.hpp:31-41 | for a regular direction component, the ray is inside a slab exactly between its two crossing parameters |
| Raycast.EntryExit | Raycast.hpp:43-44 | the ray is in the box exactly between the later entry and the earlier exit |
| Raycast.BothSlabs | Raycast.hpp:43-44 | being in both slabs is being after the later entry and before the earlier exit |
| Raycast.BoxEntryExit | Raycast.hpp:28-44 | for a regular direction and a non-empty box, a parameter puts the ray in the box exactly when it lies between the later entry and the earlier exit |
| Raycast.OnBoxBetween | Raycast.hpp:43-44 | the same for every parameter at once |
| Raycast.RaycastDecides | Raycast.hpp:46-51 | the corrected test reports what the entry/exit decision picks |
| Raycast.DecideSound | Raycast.hpp:46-51 | a chosen parameter lies between entry and exit |
| Raycast.DecideFindsFirst | Raycast.hpp:49 | when the first contact is in [0, range] it is the one chosen |
| Raycast.DecideFirst | Raycast.hpp:49 | when nothing of the box lies behind the origin, a chosen parameter is the first one in the box |
| Raycast.DecideLast | Raycast.hpp:49 | when the origin is inside the box, a chosen parameter is the last one in the box |
| Raycast.DecideInsideBeyond | Raycast.hpp:46-51 | from inside, with the exit beyond the range, nothing is chosen |
| Raycast.DecideFindsExit | Raycast.hpp:49 | from inside, an exit within range is the one chosen |
| Raycast.HitOnBox | Raycast.hpp:19-69 | a reported hit is a point of the box |
| Raycast.HitIsFirstContact | Raycast.hpp:49 | when no part of the box lies behind the origin, a hit is the first contact |
| Raycast.HitIsExit | Raycast.hpp:49 | when the origin is inside the box (part of it behind), a hit is where the ray leaves it |
| Raycast.FindsFirstContact | Raycast.hpp:43-51 | a first contact within [0, range] is reported |
| Raycast.FindsExit | Raycast.hpp:43-51 | from inside, an exit within range is reported |
| Raycast.InsideBeyondRangeMisses | Raycast.hpp:46-51 | from inside, an exit beyond the range is a miss although the ray starts in the box |
| Radar.HitOfSane | Radar.cpp:38-39 | a per-target result that is a hit is at a distance within [0, range] or at NaN, never at an infinity; with the corrected box test it is always finite |
| Radar.Map | Radar.cpp:36-39 | one per-target result per target, in target order |
| Radar.MapAppend | Radar.cpp:28-34 | the results over obstacles followed by additional objects are those of each list, in that order |
| Radar.NearestOf | Radar.cpp:36-49 | a hit exactly when some target hits at a finite distance; then that target's own result, at a distance no larger than any finite hit's, and strictly smaller than every earlier finite hit's (ties go to the earliest); otherwise the default result. A hit at NaN is never chosen |
| Radar.NearestStep | Radar.cpp:36-44 | one more target result is one more step of the nearest-hit scan |
| Radar.Scan | Radar.cpp:36-44 | the scan loop computes that nearest result |
| Radar.RaycastDirection | Radar.cpp:24-50 | `raycast_direction` returns the nearest result over the obstacles followed by the additional objects; it is a hit exactly when one of them is hit at a finite distance, and otherwise the default result |
| Radar.RadarAgreesOffParallelPlanes | Radar.cpp:36-44 | when the ray starts on no plane of a target's box that it runs parallel to, the radar gives the same nearest result as the radar over the corrected box test |
| Radar.NaNPassedOver | Radar.cpp:41-42 | a hit at NaN never replaces the closest result, since `h.t < closest.t` is false on NaN |
| Radar.GrazingTargetMissed | Radar.cpp:36-44 | a ray along +y from (1, 0) with range 10 does not see the default box it grazes: its NaN hit is passed over |
| Radar.GrazingTargetCorrected | Radar.cpp:36-44 | over the corrected box test, the same ray sees that box at distance 1 |
| Radar.NearestHit | Radar.cpp:24-50 | the nearest result over the obstacles followed by the additional objects |
| Radar.Sweep | Radar.cpp:13-21 | a sweep of `n` rays holds at most `n` results |
| Radar.SweepSpec | Radar.cpp:13-21 | a sweep holds exactly the hits among its rays: each entry is a hit of one of them, and every hit is in it |
| Radar.AllMissSweep | Radar.cpp:17-20 | a sweep whose rays all miss is empty |
| Radar.EmptyWorldSweep | Radar.cpp:17-20 | with nothing to hit, the sweep is empty: misses are dropped |
| Radar.RaycastSurrounding | Radar.cpp:8-22 | `out` is cleared; a negative `count` throws at the reserve and leaves it empty; otherwise it receives the hits of the `count` rays in order |
| Radar.CastRay | Radar.cpp:15-20 | one ray appends its nearest result exactly when it is a hit |
| Radar.SweepStep | Radar.cpp:17-20 | one more ray appends its result exactly when it is a hit |
| Collision.OnAxis | AABB.hpp:25-33 | the push vector is non-zero only on the requested axis |
| Collision.Push | AABB.hpp:12-35 | zero without overlap; otherwise on the axis only, of the size of the smaller penetration, negative only when the low penetration is strictly smaller, so ties push positive; afterwards the boxes do not overlap |
| Collision.ShiftOverlaps | AABB.hpp:21-33 | a move along the axis keeps the overlap exactly when it lies strictly between the two penetrations |
| Collision.PushIsShortest | AABB.hpp:21-33 | the push is the shortest move along the axis that ends the overlap |
| Collision.ResolveAxis | AABB.hpp:12-35 | `resolve_axis` gives zero without overlap, pushes on the requested axis only, and moves the object out of the obstacle |
| Collision.ResolveAxisInPlace | CollisionObject.hpp:33-56 | `resolveAxis` moves the player by that push and by nothing else: the scale and the other coordinate are kept, nothing changes without overlap, and afterwards the boxes do not overlap |
| Collision.InPlaceAgrees | CollisionObject.hpp:42-55 | the in-place variant moves a game object exactly as `resolve_axis` pushes it |
| Collision.MovedBox | GameObject.hpp:42-45 | moving an object moves its box by the same vector |
| Torpedoes.InitTorpedo | GameObject.cpp:84-90 | a new torpedo has a non-zero drawn id, half-extent one half, tracking off and age 0 |
| Torpedoes.Update | Torpedo.cpp:22-30 | one step moves the torpedo by velocity times `elapsed`, keeps its velocity, adds `elapsed` to its age, and marks it deleted exactly when it was deleted or its new age passes the lifetime |
| Torpedoes.RunMoves | Torpedo.cpp:22-30 | over any run the torpedo moves in a straight line at constant velocity, ages by the total time, and ends deleted exactly when it started deleted or its age passed the lifetime after some step |
| Torpedoes.DeletedAtEnd | Torpedo.cpp:26-29 | with non-negative steps, a torpedo ends deleted exactly when it started deleted or its final age passes the lifetime; the flag is never cleared |
| Players.InitPlayer | GameObject.cpp:36-49 | a new player has a non-zero drawn id, stands at (148, 70) and shows radar colour 1 |
| Players.ControlDir | Player.cpp:28-36 | each component of the direction is -1, 0 or 1, positive exactly when only the positive button is held and negative exactly when only the negative one is |
| Players.ResetDowns | Player.cpp:41-46 | all five press counts become 0 and every `pressed` flag is kept |
| Players.OthersFilter | Player.cpp:79-84 | the collision targets taken from the table are exactly the bodies of the objects with another id |
| Players.OthersAppend | Player.cpp:79-84 | the filter keeps table order |
| Players.Pass | Player.cpp:88-94 | a pass over the targets changes only the position, and only on its axis |
| Players.AxisPhase | Player.cpp:86-94 | a phase (displacement, then two passes) changes only the position on its axis |
| Players.Move | Player.cpp:86-103 | x is displaced and resolved before y is displaced; the y phase does not change x |
| Players.PassFree | Player.cpp:88-94 | a pass with no overlapping target changes nothing |
| Players.FreeMove | Player.cpp:71-103 | with nothing in the way the object moves by exactly the displacement |
| Players.PhaseOne | Player.cpp:88-94 | against a single obstacle the second pass has nothing left to do |
| Players.SingleObstacleSeparates | Player.cpp:86-103 | after the movement the object does not overlap a single obstacle |
| Players.PhaseSeparates | Player.cpp:86-94 | against a single obstacle each axis phase ends out of it |
| Players.ObstacleScenario | Player.cpp:86-103 | a box of half-extent 1 at the origin moving by (+2, 0) into [0, 4] x [-1, 1] ends at x = 5 |
| Players.BlockFirstPush | Player.cpp:86-94 | in that scenario the first pass pushes the box from x = 2 to x = 5 |
| Players.BlockCleared | Player.cpp:86-94 | the second pass leaves the box at x = 5 |
| Players.SameCentreTie | AABB.hpp:21-28 | two boxes on the same centre push the mover to the positive side by the sum of the half-widths |
| Players.SideBySide | AABB.hpp:18-19 | a mover that only touches the obstacle is not pushed |
| Players.Weapon | Player.cpp:105-121 | the weapon fires exactly when jump is held and the timer is past the cooldown, and then the timer is exactly 0; otherwise it grows by `elapsed` |
| Players.TimerSinceShot | Player.cpp:105-121 | after a shot the timer is the time of the ticks since, as long as none fires |
| Players.ShotsSpaced | Player.cpp:108 | two consecutive shots are more than the cooldown apart |
| Players.FireWeapon | Player.cpp:105-121 | a torpedo is spawned exactly on a shot, at the player's position; otherwise the timer grows by `elapsed`; nothing but the timer changes in the player |
| Players.UpdateAsWritten | Player.cpp:26-47 | as written: the player keeps its id and has its counts cleared; it fires exactly when jump is held and the timer is past the cooldown, then the torpedo starts at the player's position and the timer restarts at 0, otherwise the timer advances by `elapsed`; weapon first, so a torpedo just fired is already a collision target of the movement |
| Players.OwnTorpedoPushesPlayer | Player.cpp:38-39 | a player at rest that fires is pushed 1.5 to the right by its own new torpedo |
| Players.ShooterFires | Player.cpp:105-121 | in that case the weapon fires, resetting the timer and spawning the torpedo |
| Players.ShooterTargets | Player.cpp:76-84 | the new torpedo's body is then the one collision target |
| Players.TorpedoFirstPush | AABB.hpp:21-28 | against a torpedo on its own centre, the first pass pushes the player to x = 1.5 |
| Players.TorpedoCleared | Player.cpp:88-94 | the second pass leaves it there |
| Players.DisplaceNone | Player.cpp:71 | a zero displacement leaves the object where it is |
| Players.OwnTorpedoPhases | Player.cpp:86-103 | both phases together leave the player at (1.5, 0) |
| Players.Update | Player.cpp:26-47 | corrected: same id; counts cleared; a shot exactly when jump is held past the cooldown, spawning at the player's position and resetting the timer; the new torpedo is appended to the table; the movement uses the targets from before the shot |
| Players.OwnTorpedoIgnored | Player.cpp:38-39 | corrected, the same shot leaves the player where it was |
| Players.FiringDoesNotMovePlayer | Player.cpp:38-39 | corrected, holding jump or not makes no difference to where the player ends |
| Players.AgreeWithoutShot | Player.cpp:26-47 | without a shot both versions give the same outcome |
| Game.Erase | Game.cpp:118-146 | found exactly when the element is in the list; then its first occurrence is cut out and everything else stays in order; otherwise the list is unchanged; in a list without repeats it is gone afterwards |
| Game.ErasedAt | Game.cpp:125 | cutting out one position removes one copy of that element and nothing else |
| Game.Stepped | Game.cpp:151-171 | a player moves 20 units per second along each axis on which exactly one of the two buttons is held, keeps everything else, and has its counts cleared |
| Game.Update | Game.cpp:148-171 | every player takes its step, in list order |

## Left out

- Velocity model: the lerp, drag, speed clamp and `normalize` of Player.cpp:20-24 and 52-69 need square roots. The velocity is an input, the displacement is velocity times `elapsed`, and the torpedo launch velocity is an input.
- Radar ray directions: `cos`/`sin` of the ray angle (Radar.cpp:15-16) are not modelled. The direction of ray `i` is an input function.
- Random numbers: `std::mt19937` and the id distribution are not modelled. A drawn id is an input in [1, 2^32 - 1], and player colours and names are not modelled. `spawn_player` and `spawn_object` (Game.cpp:90-116) append an element with a drawn id. Only the append of a fired torpedo to the object table is modelled, inside `Players.Update`.
- I/O: connections, sockets and logging to `std::cerr` are not modelled. A send buffer and a receive buffer are byte sequences, and a thrown `std::runtime_error` is a `Throws` result.
- Drawables: the scene and drawable updates inside `recv_state_message` (Game.cpp:297-307, 318-322) are not modelled.
- Reading past the receive buffer: a record read in `recv_state_message` has no bounds check, so reading past the buffer is undefined in the source. The model reports it as a distinct error.
- Not-shown types: `Ray2D`, `Trace`, `Node`, `GameObject::get_BBox` and `GameObject::hit` are declared in headers that are not part of this model. An obstacle is a box with an identity. Its hit is a `contact` function whose hits are points of its box, and the tree query is stated for any such function.
- Object addresses: `remove_player` and `remove_object` compare addresses. The lists are modelled as sequences of handles.
- Game-wide constants: `TORPEDO_LIFETIME` and `TORPEDO_COOLDOWN` are declared outside the modelled files and are parameters.
- Older layouts: Game.cpp:334-383 and Game.hpp:32-67 hold an older snapshot of the records, without `radar_color`. The model uses the GameObject.cpp layout.
- The `type` tag that `Torpedo::init` and `Player::init` set in Torpedo.cpp and Player.cpp is not modelled.
- Arena collision: the commented-out player/arena collision in `Game::update` (Game.cpp:173-215) is not modelled.
- Floating point: `float` is `real`, so rounding is not modelled. Infinities and NaN are modelled in the single-box ray test, where the source produces them, and in the radar scan that consumes its results. Elsewhere the values are finite.
- Geometry.HitExact: proved only for direction components that are 0 or at least `1e-8` in magnitude, and for non-empty boxes. For a component in between, the slab test treats a moving axis as parallel and is neither sound nor complete.
- BvhQuery.QueryNearest: stated under the same regular-direction assumption, for obstacles with non-empty boxes.
- `Radar::scan` (Radar.cpp:3-6) only passes the local player's position and the stored hit list to `raycast_surrounding`; the model states `Radar.RaycastSurrounding` directly.
- Radar.RaycastSurrounding: the thrown `std::length_error` is a flag. Its contract says the result equals `Radar.Sweep` of the per-ray nearest results. What that sweep holds is stated separately in `Radar.SweepSpec`.
- Rendering, text, UI, asset loading, the client loop, `Flag.cpp` and `Radar.hpp` are outside the core and are not modelled.

## Findings

| source | as written | input that shows it | evidently intended | confidence | as-written member | corrected member |
|---|---|---|---|---|---|---|
| Raycast.hpp:23-51 | `inv` returns infinity for a near-zero direction component. An origin exactly on that slab's plane gives `0 * inf = NaN`. Every comparison with NaN is false, so no early return fires and a hit at parameter NaN is reported | origin (1, 0), direction (0, 1), default object (box [-1, 1] x [-1, 1]), range 10 | a parallel axis passes or fails on whether the origin is in the slab, as `BBox::hit` does, and the hit is the exit at t = 1. Ray 0 of the radar has direction (1, 0), exactly parallel to x, so the radar meets this case: it passes over the NaN hit and misses the box (`Radar.GrazingTargetMissed`), where the corrected test sees it (`Radar.GrazingTargetCorrected`) | not executed; high | Raycast.AsWrittenReportsNaN | Raycast.CorrectedReportsExit |
| Player.cpp:38-39 | the weapon runs before the movement. The torpedo it fires sits on the player's centre, has another id, and becomes a collision target of the same update. `spawn_object<Torpedo>` (Player.cpp:112) is not part of this model, and Game.cpp:108-116 holds only an older, non-template `spawn_object`; the row reads it as appending the initialised torpedo to the object table, as the model does | a player at rest at the origin with half-extent 1 fires with cooldown 0.5, timer 1, torpedo half-extent 0.5 and nothing else around | a player is not pushed by the torpedo it has just fired | not executed; medium | Players.OwnTorpedoPushesPlayer | Players.OwnTorpedoIgnored |
