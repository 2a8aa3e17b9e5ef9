/** The server-side player step (Player.cpp `update`, `update_movement`,
    `update_weapon`).

    The velocity model of `update_movement` (lerp towards the control
    direction, drag, speed clamp, `normalize`) needs square roots and is not
    modelled: the velocity it produces is an input, and the displacement is
    that velocity times `elapsed`. What the model keeps is how the
    displacement is applied and depenetrated, the weapon cooldown, and the
    button bookkeeping. */
module Players {
  import opened Wrappers
  import opened Bytes
  import opened Geometry
  import opened Objects
  import opened Controls
  import opened Collision
  import opened Torpedoes

  /** A player: its network object, its buttons and its weapon timer. */
  datatype Player = Player(obj: NetworkObject, controls: Controls, torpedoTimer: real)

  /** Where a new player appears. */
  const SpawnPoint: Vec2 := Vec2(148.0, 70.0)

  /** `Player::init`: the network init draws the id, the player is placed at
      the spawn point and shows radar colour 1; its half-extent, velocity,
      buttons and timer are kept. Name and colour come from the generator
      and are not modelled. */
  function InitPlayer(p: Player, drawn: int): (r: Player)
    requires IdInRange(drawn)
    ensures r.obj.id == drawn && r.obj.id != 0
    ensures r.obj.body == p.obj.body.(position := Vec2(148.0, 70.0), radarColor := 1)
    ensures r.controls == p.controls && r.torpedoTimer == p.torpedoTimer
  {
    var o := InitNetworkObject(p.obj, drawn);
    p.(obj := o.(body := o.body.(position := SpawnPoint, radarColor := 1)))
  }

  // ------------------------------------------------------------- controls

  /** The direction the held buttons ask for: right minus left, up minus
      down. Each component is -1, 0 or 1, and it is positive (negative)
      exactly when only the positive (negative) button is held. */
  function ControlDir(c: Controls): (d: Vec2)
    ensures d.x == -1.0 || d.x == 0.0 || d.x == 1.0
    ensures d.y == -1.0 || d.y == 0.0 || d.y == 1.0
    ensures d.x > 0.0 <==> c.right.pressed && !c.left.pressed
    ensures d.x < 0.0 <==> c.left.pressed && !c.right.pressed
    ensures d.y > 0.0 <==> c.up.pressed && !c.down.pressed
    ensures d.y < 0.0 <==> c.down.pressed && !c.up.pressed
  {
    Vec2((if c.left.pressed then -1.0 else 0.0) + (if c.right.pressed then 1.0 else 0.0),
         (if c.down.pressed then -1.0 else 0.0) + (if c.up.pressed then 1.0 else 0.0))
  }

  /** The press counts are cleared once the controls have been handled;
      whether each button is held is kept. */
  function ResetDowns(c: Controls): (r: Controls)
    ensures forall i :: 0 <= i < 5 ==> Buttons(r)[i].downs == 0 && Buttons(r)[i].pressed == Buttons(c)[i].pressed
  {
    Controls(c.left.(downs := 0), c.right.(downs := 0), c.up.(downs := 0),
             c.down.(downs := 0), c.jump.(downs := 0))
  }

  // -------------------------------------------------------------- targets

  /** The bodies of the objects whose id is not `own`, in table order. */
  function Others(objects: seq<NetworkObject>, own: u32): seq<GameObject>
  {
    if |objects| == 0 then []
    else
      var n := |objects| - 1;
      Others(objects[..n], own) + (if objects[n].id == own then [] else [objects[n].body])
  }

  /** Exactly the bodies of the other objects are kept. */
  lemma {:induction false} OthersFilter(objects: seq<NetworkObject>, own: u32)
    ensures |Others(objects, own)| <= |objects|
    ensures forall o <- objects :: o.id != own ==> o.body in Others(objects, own)
    ensures forall g <- Others(objects, own) :: exists o <- objects :: o.id != own && o.body == g
    decreases |objects|
  {
    if |objects| > 0 {
      var n := |objects| - 1;
      OthersFilter(objects[..n], own);
      assert objects == objects[..n] + [objects[n]];
    }
  }

  /** Filtering keeps the table order: the bodies from a concatenation are
      those from its parts, in order. */
  lemma {:induction false} OthersAppend(a: seq<NetworkObject>, b: seq<NetworkObject>, own: u32)
    ensures Others(a + b, own) == Others(a, own) + Others(b, own)
    decreases |b|
  {
    if |b| == 0 {
      assert a + b == a;
    } else {
      var n := |b| - 1;
      var ab := a + b;
      assert ab[..|ab| - 1] == a + b[..n];
      assert ab[|ab| - 1] == b[n];
      var last := if b[n].id == own then [] else [b[n].body];
      assert Others(ab, own) == Others(a + b[..n], own) + last;
      assert Others(b, own) == Others(b[..n], own) + last;
      OthersAppend(a, b[..n], own);
    }
  }

  /** The collision targets: every static obstacle, then every object of
      the table other than the player itself. */
  function Targets(statics: seq<GameObject>, objects: seq<NetworkObject>, own: u32): seq<GameObject>
  {
    statics + Others(objects, own)
  }

  // ------------------------------------------------------------- movement

  /** One depenetration against `o`: add the push of `resolve_axis`. */
  function Step(g: GameObject, o: GameObject, axis: int): GameObject
  {
    g.(position := Add(g.position, ResolveAxis(g, o, axis)))
  }

  /** One pass over the targets, in order, on `axis`. Only the position on
      that axis changes. */
  function Pass(g: GameObject, targets: seq<GameObject>, axis: int): (r: GameObject)
    ensures r == g.(position := r.position)
    ensures axis == 0 ==> r.position.y == g.position.y
    ensures axis != 0 ==> r.position.x == g.position.x
    decreases |targets|
  {
    if |targets| == 0 then g else Pass(Step(g, targets[0], axis), targets[1..], axis)
  }

  /** `g` moved by `d` along `axis`. */
  function Displace(g: GameObject, d: real, axis: int): GameObject
  {
    g.(position := Add(g.position, OnAxis(d, axis)))
  }

  /** One axis of `update_movement`: apply that component of the
      displacement, then exactly two passes over the targets. */
  function AxisPhase(g: GameObject, targets: seq<GameObject>, axis: int, d: real): (r: GameObject)
    ensures r == g.(position := r.position)
    ensures axis == 0 ==> r.position.y == g.position.y
    ensures axis != 0 ==> r.position.x == g.position.x
  {
    Pass(Pass(Displace(g, d, axis), targets, axis), targets, axis)
  }

  /** `update_movement` after the velocity update: x first, then y. The
      x phase does not see the y displacement, and the y phase does not
      change x. */
  function Move(g: GameObject, targets: seq<GameObject>, delta: Vec2): (r: GameObject)
    ensures r == g.(position := r.position)
    ensures var xs := AxisPhase(g, targets, 0, delta.x);
      xs.position.y == g.position.y && r.position.x == xs.position.x
  {
    AxisPhase(AxisPhase(g, targets, 0, delta.x), targets, 1, delta.y)
  }

  /** A pass where no target overlaps the object changes nothing. */
  lemma {:induction false} PassFree(g: GameObject, targets: seq<GameObject>, axis: int)
    requires forall o <- targets :: !Overlaps(GetAabb(g), GetAabb(o))
    ensures Pass(g, targets, axis) == g
    decreases |targets|
  {
    if |targets| > 0 {
      assert Step(g, targets[0], axis) == g;
      PassFree(g, targets[1..], axis);
    }
  }

  /** With no target in the way, neither after the x displacement nor after
      the whole displacement, the object moves by exactly `delta`. */
  lemma FreeMove(g: GameObject, targets: seq<GameObject>, delta: Vec2)
    requires forall o <- targets :: !Overlaps(GetAabb(Displace(g, delta.x, 0)), GetAabb(o))
    requires forall o <- targets :: !Overlaps(GetAabb(g.(position := Add(g.position, delta))), GetAabb(o))
    ensures Move(g, targets, delta).position == Add(g.position, delta)
  {
    var gx := Displace(g, delta.x, 0);
    PassFree(gx, targets, 0);
    var gy := Displace(gx, delta.y, 1);
    assert gy == g.(position := Add(g.position, delta));
    PassFree(gy, targets, 1);
  }

  /** Against a single obstacle the second pass of a phase has nothing to
      do: the phase is one push after the displacement. */
  lemma PhaseOne(g: GameObject, o: GameObject, axis: int, d: real)
    ensures AxisPhase(g, [o], axis, d) == Step(Displace(g, d, axis), o, axis)
  {
    var h := Displace(g, d, axis);
    var g1 := Step(h, o, axis);
    assert [o][1..] == [];
    assert Pass(h, [o], axis) == g1;
    PassFree(g1, [o], axis);
  }

  /** Against a single obstacle each phase ends out of it. */
  lemma PhaseSeparates(g: GameObject, o: GameObject, axis: int, d: real)
    ensures !Overlaps(GetAabb(AxisPhase(g, [o], axis, d)), GetAabb(o))
  {
    PhaseOne(g, o, axis, d);
  }

  lemma SingleObstacleSeparates(g: GameObject, o: GameObject, delta: Vec2)
    ensures !Overlaps(GetAabb(Move(g, [o], delta)), GetAabb(o))
  {
    PhaseSeparates(AxisPhase(g, [o], 0, delta.x), o, 1, delta.y);
  }

  // --------------------------------------------------------------- weapon

  /** One tick of weapon input: whether jump is held, and the tick length. */
  datatype Tick = Tick(jump: bool, elapsed: real)

  /** `update_weapon` on the timer: fire when jump is held and the timer is
      past the cooldown, and restart the timer; otherwise let it run. */
  function Weapon(timer: real, tick: Tick, cooldown: real): (r: (bool, real))
    ensures r.0 <==> tick.jump && timer > cooldown
    ensures r.0 ==> r.1 == 0.0
    ensures !r.0 ==> r.1 == timer + tick.elapsed
  {
    if tick.jump && timer > cooldown then (true, 0.0) else (false, timer + tick.elapsed)
  }

  /** The timer after a run of ticks from `t0`. */
  function TimerAfter(t0: real, ticks: seq<Tick>, cooldown: real): real
  {
    if |ticks| == 0 then t0
    else Weapon(TimerAfter(t0, ticks[..|ticks| - 1], cooldown), ticks[|ticks| - 1], cooldown).1
  }

  /** Whether tick `k` of a run fires. */
  predicate ShotAt(t0: real, ticks: seq<Tick>, cooldown: real, k: nat)
    requires k < |ticks|
  {
    Weapon(TimerAfter(t0, ticks[..k], cooldown), ticks[k], cooldown).0
  }

  /** The total length of a run of ticks. */
  function Elapsed(ticks: seq<Tick>): real
  {
    if |ticks| == 0 then 0.0 else Elapsed(ticks[..|ticks| - 1]) + ticks[|ticks| - 1].elapsed
  }

  /** After a shot at tick `i`, the timer is the time of the ticks since,
      as long as none of them fires. */
  lemma {:induction false} TimerSinceShot(t0: real, ticks: seq<Tick>, cooldown: real, i: nat, j: nat)
    requires i < j <= |ticks| && ShotAt(t0, ticks, cooldown, i)
    requires forall k :: i < k < j ==> !ShotAt(t0, ticks, cooldown, k)
    ensures TimerAfter(t0, ticks[..j], cooldown) == Elapsed(ticks[i + 1..j])
    decreases j
  {
    var m := j - 1;
    assert ticks[..j][..m] == ticks[..m];
    if m == i {
      assert ticks[i + 1..j] == [];
    } else {
      TimerSinceShot(t0, ticks, cooldown, i, m);
      assert !ShotAt(t0, ticks, cooldown, m);
      assert ticks[i + 1..j][..m - i - 1] == ticks[i + 1..m];
    }
  }

  /** Two consecutive shots are more than the cooldown apart: the ticks
      strictly between them, together with the tick of the second shot's
      predecessor, last longer than the cooldown. */
  lemma ShotsSpaced(t0: real, ticks: seq<Tick>, cooldown: real, i: nat, j: nat)
    requires i < j < |ticks| && ShotAt(t0, ticks, cooldown, i) && ShotAt(t0, ticks, cooldown, j)
    requires forall k :: i < k < j ==> !ShotAt(t0, ticks, cooldown, k)
    ensures Elapsed(ticks[i + 1..j]) > cooldown
  {
    TimerSinceShot(t0, ticks, cooldown, i, j);
  }

  /** `update_weapon` on a player: when it fires, the new torpedo `spawn`
      (the object the game's spawn returns) is placed at the player's position with the
      launch velocity `launch` (the normalised velocity times the torpedo
      speed, which is not modelled). Nothing but the timer changes in the
      player. */
  function FireWeapon(p: Player, elapsed: real, cooldown: real, spawn: Torpedo, launch: Vec2): (r: (Player, Option<Torpedo>))
    ensures r.1.Some? <==> p.controls.jump.pressed && p.torpedoTimer > cooldown
    ensures r.1.Some? ==> && r.1.value.obj.body.position == p.obj.body.position
                          && r.1.value.obj.body.velocity == launch
                          && r.1.value.obj.id == spawn.obj.id
                          && r.0.torpedoTimer == 0.0
    ensures r.1.None? ==> r.0.torpedoTimer == p.torpedoTimer + elapsed
    ensures r.0 == p.(torpedoTimer := r.0.torpedoTimer)
  {
    var w := Weapon(p.torpedoTimer, Tick(p.controls.jump.pressed, elapsed), cooldown);
    if w.0 then
      var body := spawn.obj.body.(position := p.obj.body.position, velocity := launch);
      (p.(torpedoTimer := w.1), Some(spawn.(obj := spawn.obj.(body := body))))
    else (p.(torpedoTimer := w.1), None)
  }

  // --------------------------------------------------------------- update

  /** What a player's update leaves: the player, the object table and the
      torpedo it fired, if any. */
  datatype Outcome = Outcome(player: Player, objects: seq<NetworkObject>, spawned: Option<Torpedo>)

  /** The object table after a possible spawn: the new object is appended. */
  function Spawned(objects: seq<NetworkObject>, t: Option<Torpedo>): seq<NetworkObject>
  {
    if t.Some? then objects + [t.value.obj] else objects
  }

  /** `Player::update` as written: weapon first, so a torpedo it fires is
      already in the object table when `update_movement` collects its
      collision targets; then the movement; then the press counts are
      cleared. */
  function UpdateAsWritten(p: Player, elapsed: real, statics: seq<GameObject>, objects: seq<NetworkObject>,
                           velocity: Vec2, cooldown: real, spawn: Torpedo, launch: Vec2): (r: Outcome)
    ensures r.player.obj.id == p.obj.id
    ensures r.player.controls == ResetDowns(p.controls)
    ensures r.spawned.Some? <==> p.controls.jump.pressed && p.torpedoTimer > cooldown
    ensures r.spawned.Some? ==> r.spawned.value.obj.body.position == p.obj.body.position && r.player.torpedoTimer == 0.0
    ensures r.spawned.None? ==> r.player.torpedoTimer == p.torpedoTimer + elapsed
    ensures r.objects == Spawned(objects, r.spawned)
    ensures r.player.obj.body == Move(p.obj.body.(velocity := velocity), Targets(statics, r.objects, p.obj.id),
                                      Times(velocity, elapsed))
  {
    var (p1, t) := FireWeapon(p, elapsed, cooldown, spawn, launch);
    var objects1 := Spawned(objects, t);
    var moved := Move(p1.obj.body.(velocity := velocity), Targets(statics, objects1, p1.obj.id), Times(velocity, elapsed));
    Outcome(p1.(obj := p1.obj.(body := moved), controls := ResetDowns(p1.controls)), objects1, t)
  }

  /** `Player::update` with the collision targets collected before the
      weapon fires: the player steps, fires and moves as the source does,
      but does not collide with the torpedo it has just fired. */
  function Update(p: Player, elapsed: real, statics: seq<GameObject>, objects: seq<NetworkObject>,
                  velocity: Vec2, cooldown: real, spawn: Torpedo, launch: Vec2): (r: Outcome)
    ensures r.player.obj.id == p.obj.id
    ensures r.player.controls == ResetDowns(p.controls)
    ensures r.spawned.Some? <==> p.controls.jump.pressed && p.torpedoTimer > cooldown
    ensures r.spawned.Some? ==> r.spawned.value.obj.body.position == p.obj.body.position && r.player.torpedoTimer == 0.0
    ensures r.spawned.None? ==> r.player.torpedoTimer == p.torpedoTimer + elapsed
    ensures r.objects == Spawned(objects, r.spawned)
    ensures r.player.obj.body == Move(p.obj.body.(velocity := velocity), Targets(statics, objects, p.obj.id),
                                      Times(velocity, elapsed))
  {
    var targets := Targets(statics, objects, p.obj.id);
    var (p1, t) := FireWeapon(p, elapsed, cooldown, spawn, launch);
    var moved := Move(p1.obj.body.(velocity := velocity), targets, Times(velocity, elapsed));
    Outcome(p1.(obj := p1.obj.(body := moved), controls := ResetDowns(p1.controls)), Spawned(objects, t), t)
  }

  /** Firing does not change where the player moves: with the weapon
      firing or not, the player ends at the same place. */
  lemma FiringDoesNotMovePlayer(p: Player, elapsed: real, statics: seq<GameObject>, objects: seq<NetworkObject>,
                                velocity: Vec2, cooldown: real, spawn: Torpedo, launch: Vec2)
    ensures var held := p.(controls := p.controls.(jump := p.controls.jump.(pressed := true)));
      var idle := p.(controls := p.controls.(jump := p.controls.jump.(pressed := false)));
      Update(held, elapsed, statics, objects, velocity, cooldown, spawn, launch).player.obj.body
        == Update(idle, elapsed, statics, objects, velocity, cooldown, spawn, launch).player.obj.body
  {
  }

  /** Without a shot both readings agree. */
  lemma AgreeWithoutShot(p: Player, elapsed: real, statics: seq<GameObject>, objects: seq<NetworkObject>,
                         velocity: Vec2, cooldown: real, spawn: Torpedo, launch: Vec2)
    requires !(p.controls.jump.pressed && p.torpedoTimer > cooldown)
    ensures UpdateAsWritten(p, elapsed, statics, objects, velocity, cooldown, spawn, launch)
         == Update(p, elapsed, statics, objects, velocity, cooldown, spawn, launch)
  {
  }

  // ------------------------------------------------------------ scenarios

  /** Two boxes on the same centre overlap as soon as they have area
      together; their penetrations on x are equal and the tie pushes the
      mover to the positive side, by the sum of the half-widths. */
  lemma SameCentreTie(g: GameObject, o: GameObject)
    requires g.position == o.position
    requires g.scale.x + o.scale.x > 0.0 && g.scale.y + o.scale.y > 0.0
    ensures Step(g, o, 0).position == Vec2(g.position.x + g.scale.x + o.scale.x, g.position.y)
  {
  }

  /** A mover whose left side lies on the obstacle's right side is not
      pushed. */
  lemma SideBySide(g: GameObject, o: GameObject, axis: int)
    requires g.position.x - g.scale.x == o.position.x + o.scale.x
    ensures Step(g, o, axis) == g
  {
  }

  /** The obstacle of the scenario below: x in [0, 4], y in [-1, 1]. */
  const Block: GameObject := DefaultGameObject.(position := Vec2(2.0, 0.0), scale := Vec2(2.0, 1.0))

  lemma BlockFirstPush()
    ensures Step(Displace(DefaultGameObject, 2.0, 0), Block, 0) == DefaultGameObject.(position := Vec2(5.0, 0.0))
  {
    var gx := Displace(DefaultGameObject, 2.0, 0);
    assert gx == DefaultGameObject.(position := Vec2(2.0, 0.0));
    SameCentreTie(gx, Block);
  }

  lemma BlockCleared()
    ensures Step(DefaultGameObject.(position := Vec2(5.0, 0.0)), Block, 1) == DefaultGameObject.(position := Vec2(5.0, 0.0))
  {
    SideBySide(DefaultGameObject.(position := Vec2(5.0, 0.0)), Block, 1);
  }

  /** A unit box at the origin moving by (+2, 0) into `Block`: both
      penetrations are 3, the tie pushes to the positive side, and the box
      ends at x = 5 with its left edge on the obstacle's right edge. */
  lemma ObstacleScenario()
    ensures Move(DefaultGameObject, [Block], Vec2(2.0, 0.0)).position == Vec2(5.0, 0.0)
  {
    var g := DefaultGameObject;
    var g1 := DefaultGameObject.(position := Vec2(5.0, 0.0));
    PhaseOne(g, Block, 0, 2.0);
    BlockFirstPush();
    PhaseOne(g1, Block, 1, 0.0);
    DisplaceNone(g1, 1);
    BlockCleared();
  }

  /** A player at rest at the origin, half-extent 1, firing with nothing
      else around. */
  const Shooter: Player := Player(NetworkObject(3, DefaultGameObject), DefaultControls.(jump := Button(0, true)), 1.0)

  /** The body of a new torpedo at the origin, half-extent one half. */
  const Torp: GameObject := DefaultGameObject.(scale := TorpedoScale)

  /** A new torpedo with another id than the shooter's. */
  const FreshTorpedo: Torpedo := Torpedo(NetworkObject(7, Torp), false, 0.0, false)

  lemma TorpedoFirstPush()
    ensures Step(DefaultGameObject, Torp, 0) == DefaultGameObject.(position := Vec2(1.5, 0.0))
  {
    SameCentreTie(DefaultGameObject, Torp);
  }

  /** Displacing by zero leaves the object as it is. */
  lemma DisplaceNone(g: GameObject, axis: int)
    ensures Displace(g, 0.0, axis) == g
  {
  }

  lemma TorpedoCleared()
    ensures var g1 := DefaultGameObject.(position := Vec2(1.5, 0.0));
      Step(g1, Torp, 1) == g1
  {
    SideBySide(DefaultGameObject.(position := Vec2(1.5, 0.0)), Torp, 1);
  }

  lemma OwnTorpedoPhases()
    ensures Move(DefaultGameObject, [Torp], Vec2(0.0, 0.0)).position == Vec2(1.5, 0.0)
  {
    var g1 := DefaultGameObject.(position := Vec2(1.5, 0.0));
    PhaseOne(DefaultGameObject, Torp, 0, 0.0);
    DisplaceNone(DefaultGameObject, 0);
    TorpedoFirstPush();
    PhaseOne(g1, Torp, 1, 0.0);
    DisplaceNone(g1, 1);
    TorpedoCleared();
  }

  lemma ShooterFires()
    ensures FireWeapon(Shooter, 0.1, 0.5, FreshTorpedo, Vec2(0.0, 0.0)) == (Shooter.(torpedoTimer := 0.0), Some(FreshTorpedo))
  {
  }

  lemma ShooterTargets()
    ensures Targets([], Spawned([], Some(FreshTorpedo)), 3) == [Torp]
  {
    var objects := [FreshTorpedo.obj];
    assert Spawned([], Some(FreshTorpedo)) == objects;
    assert objects[..0] == [];
    assert Others(objects, 3) == Others([], 3) + [FreshTorpedo.obj.body];
  }

  /** As written, the player's own new torpedo sits on the player's centre
      and is a collision target: the tie of penetrations 1.5 and 1.5 pushes
      the player 1.5 to the right although it does not move. */
  lemma OwnTorpedoPushesPlayer()
    ensures UpdateAsWritten(Shooter, 0.1, [], [], Vec2(0.0, 0.0), 0.5, FreshTorpedo, Vec2(0.0, 0.0))
              .player.obj.body.position == Vec2(1.5, 0.0)
  {
    ShooterFires();
    ShooterTargets();
    assert Times(Vec2(0.0, 0.0), 0.1) == Vec2(0.0, 0.0);
    assert Shooter.obj.body.(velocity := Vec2(0.0, 0.0)) == DefaultGameObject;
    OwnTorpedoPhases();
  }

  /** Corrected, the same shot leaves the player where it was. */
  lemma OwnTorpedoIgnored()
    ensures Update(Shooter, 0.1, [], [], Vec2(0.0, 0.0), 0.5, FreshTorpedo, Vec2(0.0, 0.0))
              .player.obj.body.position == Vec2(0.0, 0.0)
  {
    assert Times(Vec2(0.0, 0.0), 0.1) == Vec2(0.0, 0.0);
    assert Targets([], [], 3) == [];
  }
}
