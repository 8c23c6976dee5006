/**
  The movement resolver: admitting an intended velocity against the walls,
  the per-wall safety net, and the position update.
 */
module Movement {
  import opened Geometry

  /** Some wall collides with `probe` (at its position, under its velocity). */
  predicate AnyCollides(probe: Player, walls: seq<Boundary>) {
    exists b :: b in walls && Collides(probe, b)
  }

  /** A velocity component the game can hold: 0 or plus/minus the speed. */
  predicate IsSpeed(c: int) {
    c == -Speed || c == 0 || c == Speed
  }

  predicate ValidVelocity(v: Vec) {
    IsSpeed(v.x) && IsSpeed(v.y)
  }

  /**
    The scan `handleAllowedPath` performs with `every`: walls in order; on a
    colliding wall the target component becomes 0 and the scan stops, on any
    other the target component becomes the intended one and the scan goes on.
    `probe` is the player copy carrying the intended velocity, so the test
    does not depend on the velocity being rewritten.
   */
  function ScanWalls(probe: Player, intent: Vec, axis: Axis, walls: seq<Boundary>, velocity: Vec): (v: Vec)
    ensures v.Get(axis.Other()) == velocity.Get(axis.Other())
    ensures AnyCollides(probe, walls) ==> v.Get(axis) == 0
    ensures !AnyCollides(probe, walls) && walls != [] ==> v.Get(axis) == intent.Get(axis)
    ensures walls == [] ==> v == velocity
    decreases |walls|
  {
    if walls == [] then velocity
    else if Collides(probe, walls[0]) then velocity.With(axis, 0)
    else
      assert forall b :: b in walls ==> b == walls[0] || b in walls[1..];
      ScanWalls(probe, intent, axis, walls[1..], velocity.With(axis, intent.Get(axis)))
  }

  /**
    `handleAllowedPath`: try `intent` from the player's current position;
    only the `axis` component of the player's velocity is written.
   */
  function HandleAllowedPath(player: Player, intent: Vec, axis: Axis, walls: seq<Boundary>): (p: Player)
    ensures p.position == player.position && p.radius == player.radius
    ensures p.velocity.Get(axis.Other()) == player.velocity.Get(axis.Other())
    ensures AnyCollides(player.(velocity := intent), walls) ==> p.velocity.Get(axis) == 0
    ensures !AnyCollides(player.(velocity := intent), walls) && walls != [] ==>
      p.velocity.Get(axis) == intent.Get(axis)
    ensures walls == [] ==> p == player
  {
    player.(velocity := ScanWalls(player.(velocity := intent), intent, axis, walls, player.velocity))
  }

  /** Resolving the same intent a second time changes nothing. */
  lemma HandleAllowedPathIdempotent(player: Player, intent: Vec, axis: Axis, walls: seq<Boundary>)
    ensures HandleAllowedPath(HandleAllowedPath(player, intent, axis, walls), intent, axis, walls)
         == HandleAllowedPath(player, intent, axis, walls)
  {
    var p1 := HandleAllowedPath(player, intent, axis, walls);
    var p2 := HandleAllowedPath(p1, intent, axis, walls);
    assert p1.(velocity := intent) == player.(velocity := intent);
    assert p2.velocity.Get(axis) == p1.velocity.Get(axis);
    assert p2.velocity.Get(axis.Other()) == p1.velocity.Get(axis.Other());
  }

  /** An intent whose components are speeds keeps the velocity's components speeds. */
  lemma HandleAllowedPathKeepsSpeeds(player: Player, intent: Vec, axis: Axis, walls: seq<Boundary>)
    requires ValidVelocity(player.velocity) && ValidVelocity(intent)
    ensures ValidVelocity(HandleAllowedPath(player, intent, axis, walls).velocity)
  {
    var v := HandleAllowedPath(player, intent, axis, walls).velocity;
    assert IsSpeed(v.Get(axis)) && IsSpeed(v.Get(axis.Other()));
    match axis
    case X =>
    case Y =>
  }

  /** `handlePlayerBoundaries`: a full stop if the player's projected box meets `wall`. */
  function HandlePlayerBoundaries(player: Player, wall: Boundary): Player {
    if Collides(player, wall) then player.(velocity := Zero) else player
  }

  /**
    The safety net of a frame: `handlePlayerBoundaries` for every wall in
    order. The player stops dead exactly when its projection under the
    velocity it entered with meets some wall; otherwise nothing changes.
   */
  function SafetyNet(player: Player, walls: seq<Boundary>): (p: Player)
    ensures AnyCollides(player, walls) ==> p == player.(velocity := Zero)
    ensures !AnyCollides(player, walls) ==> p == player
    decreases |walls|
  {
    if walls == [] then player
    else
      assert forall b :: b in walls ==> b == walls[0] || b in walls[1..];
      SafetyNet(HandlePlayerBoundaries(player, walls[0]), walls[1..])
  }

  /**
    `Player.update`: the centre advances by the velocity, so the player comes
    to rest exactly where the collision test probed: it touches a wall at
    rest iff it collided with that wall under the velocity it moved by.
   */
  function Update(player: Player): (r: Player)
    ensures r.velocity == player.velocity && r.radius == player.radius
    ensures forall b :: Collides(AtRest(r), b) <==> Collides(player, b)
  {
    player.(position := player.position.Plus(player.velocity))
  }
}
