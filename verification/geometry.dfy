/**
  Integer plane geometry of the maze game: vectors, wall tiles, the player
  disc, and the closed box-overlap test that decides a collision.

  Every quantity in the game is an integer (tile size 40, start position 60,
  speed 5, radius 10), so the model uses unbounded `int` throughout and no
  rounding ever happens.
 */
module Geometry {

  /** Side length of a wall tile (`Boundary.width`, `Boundary.height`). */
  const TileSize: int := 40
  /** Radius of the player disc. */
  const PlayerRadius: int := 10
  /** Magnitude of every non-zero velocity component. */
  const Speed: int := 5

  datatype Axis = X | Y {
    function Other(): Axis {
      if X? then Y else X
    }
  }

  /** A point or a velocity. */
  datatype Vec = Vec(x: int, y: int) {

    function Get(axis: Axis): int {
      match axis
      case X => x
      case Y => y
    }

    /** This vector with the component along `axis` replaced by `value`. */
    function With(axis: Axis, value: int): (v: Vec)
      ensures v.Get(axis) == value
      ensures v.Get(axis.Other()) == Get(axis.Other())
    {
      match axis
      case X => Vec(value, y)
      case Y => Vec(x, value)
    }

    function Plus(d: Vec): Vec {
      Vec(x + d.x, y + d.y)
    }
  }

  const Zero: Vec := Vec(0, 0)

  /** A wall tile: top-left corner and size. */
  datatype Boundary = Boundary(position: Vec, width: int, height: int)

  /** The `Boundary` constructor: every wall is one tile wide and high. */
  function MakeBoundary(position: Vec): Boundary {
    Boundary(position, TileSize, TileSize)
  }

  /** The player: centre, velocity per frame, radius. */
  datatype Player = Player(position: Vec, velocity: Vec, radius: int)

  /** The player at the start of the game: centre of tile (1, 1), at rest. */
  const StartPlayer: Player :=
    Player(Vec(TileSize + TileSize / 2, TileSize + TileSize / 2), Zero, PlayerRadius)

  /** The same player with its velocity cleared: the box it occupies now. */
  function AtRest(p: Player): Player {
    p.(velocity := Zero)
  }

  /**
    The game's collision test: the player's bounding box, shifted by its
    velocity, meets the wall's rectangle. All four comparisons are
    non-strict, so boxes that merely touch collide.
   */
  predicate Collides(p: Player, b: Boundary)
    ensures Collides(p, b) <==> BoxesOverlap(ProjectedBox(p), WallBox(b))
  {
    && p.position.y - p.radius + p.velocity.y <= b.position.y + b.height
    && p.position.x + p.radius + p.velocity.x >= b.position.x
    && p.position.y + p.radius + p.velocity.y >= b.position.y
    && p.position.x - p.radius + p.velocity.x <= b.position.x + b.width
  }

  // ---------------------------------------------------------------------
  // Reference geometry: closed boxes as point sets

  /** The closed box [lo.x, hi.x] x [lo.y, hi.y]. */
  datatype Box = Box(lo: Vec, hi: Vec)

  predicate InBox(q: Vec, bx: Box) {
    bx.lo.x <= q.x <= bx.hi.x && bx.lo.y <= q.y <= bx.hi.y
  }

  /** The x-ranges and the y-ranges of two closed boxes both intersect. */
  predicate BoxesOverlap(a: Box, c: Box) {
    && a.lo.x <= c.hi.x && c.lo.x <= a.hi.x
    && a.lo.y <= c.hi.y && c.lo.y <= a.hi.y
  }

  /** Two closed boxes share at least one point. */
  ghost predicate Meet(a: Box, c: Box) {
    exists q :: InBox(q, a) && InBox(q, c)
  }

  /** The box the player would occupy after moving by its velocity. */
  function ProjectedBox(p: Player): Box {
    var centre := p.position.Plus(p.velocity);
    Box(Vec(centre.x - p.radius, centre.y - p.radius), Vec(centre.x + p.radius, centre.y + p.radius))
  }

  /** The closed rectangle covered by a wall, edges included. */
  function WallBox(b: Boundary): Box {
    Box(b.position, Vec(b.position.x + b.width, b.position.y + b.height))
  }

  function Max(a: int, b: int): int {
    if a < b then b else a
  }

  /**
    The collision test is exactly "the projected player box and the closed
    wall rectangle have a point in common", edges and corners included.
   */
  lemma CollidesIffMeet(p: Player, b: Boundary)
    requires p.radius >= 0 && b.width >= 0 && b.height >= 0
    ensures Collides(p, b) <==> Meet(ProjectedBox(p), WallBox(b))
  {
    var pb, wb := ProjectedBox(p), WallBox(b);
    if Collides(p, b) {
      var q := Vec(Max(pb.lo.x, wb.lo.x), Max(pb.lo.y, wb.lo.y));
      assert InBox(q, pb) && InBox(q, wb);
    }
    if Meet(pb, wb) {
      var q :| InBox(q, pb) && InBox(q, wb);
      assert Collides(p, b);
    }
  }
}
