/** The server's game table (Game.cpp): removal of one player or object by
    address, and the per-tick player update.

    The source's `std::list` elements are told apart by address. Here a
    list is a sequence of handles, one per element, so that "the element at
    this address" is "the element equal to this handle"; addresses in a
    list are distinct, which `Distinct` states. */
module Game {
  import opened Geometry
  import opened Objects
  import opened Controls
  import opened Players

  /** No handle occurs twice. */
  predicate Distinct<T(==)>(xs: seq<T>)
  {
    forall i, j :: 0 <= i < j < |xs| ==> xs[i] != xs[j]
  }

  /** `remove_player` and `remove_object`: walk the list, erase the first
      element that is `x` and stop. `found` is what the source asserts; when
      it is false the list is left as it was. */
  method Erase<T(==)>(xs: seq<T>, x: T) returns (r: seq<T>, found: bool)
    ensures found <==> x in xs
    ensures !found ==> r == xs
    ensures found ==> exists k :: 0 <= k < |xs| && xs[k] == x && x !in xs[..k] && r == xs[..k] + xs[k + 1..]
    ensures found ==> multiset(r) + multiset{x} == multiset(xs)
    ensures found && Distinct(xs) ==> x !in r && Distinct(r)
  {
    r := xs;
    found := false;
    var i := 0;
    while i < |xs|
      invariant 0 <= i <= |xs|
      invariant x !in xs[..i]
    {
      if xs[i] == x {
        r := xs[..i] + xs[i + 1..];
        found := true;
        ErasedAt(xs, i);
        return;
      }
      assert xs[..i + 1] == xs[..i] + [xs[i]];
      i := i + 1;
    }
    assert xs[..i] == xs;
  }

  /** Cutting out position `k` removes one copy of `xs[k]` and nothing
      else; in a list without repeats, that element is gone and no repeat
      appears. */
  lemma ErasedAt<T>(xs: seq<T>, k: nat)
    requires k < |xs|
    ensures multiset(xs[..k] + xs[k + 1..]) + multiset{xs[k]} == multiset(xs)
    ensures Distinct(xs) ==> xs[k] !in xs[..k] + xs[k + 1..] && Distinct(xs[..k] + xs[k + 1..])
  {
    assert xs == xs[..k] + [xs[k]] + xs[k + 1..];
    var r := xs[..k] + xs[k + 1..];
    if Distinct(xs) {
      forall i | 0 <= i < |r|
        ensures r[i] == if i < k then xs[i] else xs[i + 1]
      {
      }
    }
  }

  /** One player's part of `Game::update`: move 20 units per second in the
      held direction, then clear the press counts. An axis with neither or
      both of its buttons held does not move. */
  function Stepped(p: Player, elapsed: real): (r: Player)
    ensures r.obj.id == p.obj.id && r.torpedoTimer == p.torpedoTimer
    ensures r.obj.body == p.obj.body.(position := r.obj.body.position)
    ensures r.controls == ResetDowns(p.controls)
    ensures var c := p.controls; var a := p.obj.body.position; var b := r.obj.body.position;
      && (c.right.pressed && !c.left.pressed ==> b.x == a.x + 20.0 * elapsed)
      && (c.left.pressed && !c.right.pressed ==> b.x == a.x - 20.0 * elapsed)
      && (c.left.pressed == c.right.pressed ==> b.x == a.x)
      && (c.up.pressed && !c.down.pressed ==> b.y == a.y + 20.0 * elapsed)
      && (c.down.pressed && !c.up.pressed ==> b.y == a.y - 20.0 * elapsed)
      && (c.down.pressed == c.up.pressed ==> b.y == a.y)
  {
    var body := p.obj.body;
    var dir := ControlDir(p.controls);
    var moved := body.(position := Add(body.position, Times(Times(dir, elapsed), 20.0)));
    p.(obj := p.obj.(body := moved), controls := ResetDowns(p.controls))
  }

  /** `Game::update`: every player, in list order, takes its step. */
  method Update(players: seq<Player>, elapsed: real) returns (r: seq<Player>)
    ensures |r| == |players|
    ensures forall i :: 0 <= i < |players| ==> r[i] == Stepped(players[i], elapsed)
  {
    r := [];
    var i := 0;
    while i < |players|
      invariant 0 <= i <= |players|
      invariant |r| == i
      invariant forall j :: 0 <= j < i ==> r[j] == Stepped(players[j], elapsed)
    {
      r := r + [Stepped(players[i], elapsed)];
      i := i + 1;
    }
  }
}
