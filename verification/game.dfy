/**
  The game loop of the maze: the state the event handlers and the frame
  callback share, one animation frame, the keydown and keyup handlers, and
  the invariants every run keeps: the resting player never touches a wall,
  and each velocity component is 0, 5 or -5.
 */
module Game {
  import opened Wrappers
  import opened Geometry
  import opened Maze
  import opened Movement
  import opened Controls

  /** Everything the handlers mutate: the player, the key flags and `lastKey`. */
  datatype State = State(player: Player, keys: Keys, lastKey: LastKey)

  /** The state before the first frame: player at the start, no key ever pressed. */
  const Start: State := State(StartPlayer, NoKeysPressed, NoKey)

  /** The walls compiled from the shipped maze; they never change during play. */
  const SourceWalls: seq<Boundary> := CompileMap(SourceMap)

  /** The player, at rest where it stands, touches no wall. */
  predicate Clear(p: Player, walls: seq<Boundary>) {
    !AnyCollides(AtRest(p), walls)
  }

  predicate Invariant(s: State, walls: seq<Boundary>) {
    Clear(s.player, walls) && ValidVelocity(s.player.velocity)
  }

  /**
    One call of `animate`, drawing left out: resolve the active key's
    intent, run the safety net over every wall, then move the player by its
    velocity. Either the player stops where it stood, or no wall meets the
    box it moves into.
   */
  function Animate(s: State, walls: seq<Boundary>): (s': State)
    ensures s'.keys == s.keys && s'.lastKey == s.lastKey
    ensures s'.player.radius == s.player.radius
    ensures var p := HandleKeyPresses(s.player, s.keys, s.lastKey, walls);
      if AnyCollides(p, walls) then s'.player == AtRest(s.player)
      else s'.player == p.(position := p.position.Plus(p.velocity))
  {
    var p := HandleKeyPresses(s.player, s.keys, s.lastKey, walls);
    s.(player := Update(SafetyNet(p, walls)))
  }

  /** A frame never moves a resting-clear player into a wall. */
  lemma AnimatePreservesClear(s: State, walls: seq<Boundary>)
    requires Clear(s.player, walls)
    ensures Clear(Animate(s, walls).player, walls)
  {
    var p := HandleKeyPresses(s.player, s.keys, s.lastKey, walls);
    var after := Animate(s, walls).player;
    if !AnyCollides(p, walls) {
      assert after == Update(p);
    }
  }

  /** A frame keeps both velocity components in {-5, 0, 5}. */
  lemma AnimateKeepsSpeeds(s: State, walls: seq<Boundary>)
    requires ValidVelocity(s.player.velocity)
    ensures ValidVelocity(Animate(s, walls).player.velocity)
  {
    HandleKeyPressesKeepsSpeeds(s.player, s.keys, s.lastKey, walls);
  }

  /** The space bar: both velocity components set to 0. */
  function Stop(s: State): State {
    s.(player := AtRest(s.player))
  }

  /**
    The keydown handler. A movement key is marked pressed and becomes the
    last key, so it drives the next frame; space stops the player; any
    other key does nothing.
   */
  function KeyDown(s: State, key: string): (s': State)
    ensures s'.player.position == s.player.position && s'.player.radius == s.player.radius
    ensures forall k :: key == KeyName(k) ==>
      && ActiveKey(s'.keys, s'.lastKey) == Some(k)
      && s'.lastKey == Last(k)
      && s'.keys == s.keys.Set(k, true)
      && s'.player == s.player
    ensures key == " " ==> s'.player.velocity == Zero && s'.keys == s.keys && s'.lastKey == s.lastKey
    ensures MovementKey(key) == None && key != " " ==> s' == s
  {
    match MovementKey(key)
    case Some(k) => s.(keys := s.keys.Set(k, true), lastKey := Last(k))
    case None => if key == " " then Stop(s) else s
  }

  /**
    The keyup handler. A movement key is marked released and `lastKey` is
    kept, so releasing the last key ends its intent while releasing another
    key leaves the intent as it was; space stops the player; any other key
    does nothing.
   */
  function KeyUp(s: State, key: string): (s': State)
    ensures s'.player.position == s.player.position && s'.player.radius == s.player.radius
    ensures s'.lastKey == s.lastKey
    ensures forall k :: key == KeyName(k) ==>
      && !s'.keys.Pressed(k)
      && s'.keys == s.keys.Set(k, false)
      && ActiveKey(s'.keys, s'.lastKey) == (if s.lastKey == Last(k) then None else ActiveKey(s.keys, s.lastKey))
      && s'.player == s.player
    ensures key == " " ==> s'.player.velocity == Zero && s'.keys == s.keys
    ensures MovementKey(key) == None && key != " " ==> s' == s
  {
    match MovementKey(key)
    case Some(k) => s.(keys := s.keys.Set(k, false))
    case None => if key == " " then Stop(s) else s
  }

  /** What the host delivers to the game: a frame tick or a key event. */
  datatype Event = Frame | KeyDownEvent(key: string) | KeyUpEvent(key: string)

  function Step(s: State, walls: seq<Boundary>, e: Event): State {
    match e
    case Frame => Animate(s, walls)
    case KeyDownEvent(key) => KeyDown(s, key)
    case KeyUpEvent(key) => KeyUp(s, key)
  }

  /** The state after the events, in order. */
  function Run(s: State, walls: seq<Boundary>, events: seq<Event>): State
    decreases |events|
  {
    if events == [] then s else Run(Step(s, walls, events[0]), walls, events[1..])
  }

  lemma StepPreservesInvariant(s: State, walls: seq<Boundary>, e: Event)
    requires Invariant(s, walls)
    ensures Invariant(Step(s, walls, e), walls)
  {
    match e
    case Frame =>
      AnimatePreservesClear(s, walls);
      AnimateKeepsSpeeds(s, walls);
    case KeyDownEvent(key) =>
      assert AtRest(KeyDown(s, key).player) == AtRest(s.player);
    case KeyUpEvent(key) =>
      assert AtRest(KeyUp(s, key).player) == AtRest(s.player);
  }

  /** Any sequence of frames and key events keeps the invariant. */
  lemma {:induction false} RunPreservesInvariant(s: State, walls: seq<Boundary>, events: seq<Event>)
    requires Invariant(s, walls)
    ensures Invariant(Run(s, walls, events), walls)
    decreases |events|
  {
    if events != [] {
      StepPreservesInvariant(s, walls, events[0]);
      RunPreservesInvariant(Step(s, walls, events[0]), walls, events[1..]);
    }
  }

  // ---------------------------------------------------------------------
  // The shipped maze

  /** Shipped-maze walls are exactly the wall cells of the grid. */
  lemma SourceWallCell(b: Boundary)
    requires b in SourceWalls
    ensures IsWallOf(SourceMap, b)
  {
  }

  /** The start position, centre of tile (1, 1), is clear of every wall. */
  lemma StartIsClear()
    ensures Invariant(Start, SourceWalls)
  {
    forall b | b in SourceWalls
      ensures !Collides(AtRest(StartPlayer), b)
    {
      SourceWallCell(b);
      assert Collides(AtRest(StartPlayer), b) ==> RowOf(b) == 1 && ColOf(b) == 1;
    }
  }

  /** However the game is played on the shipped maze, the player never overlaps a wall. */
  lemma ShippedGameNeverTouchesWall(events: seq<Event>)
    ensures Invariant(Run(Start, SourceWalls, events), SourceWalls)
  {
    StartIsClear();
    RunPreservesInvariant(Start, SourceWalls, events);
  }

  /** Pressing d and running one frame from the start moves the player 5 to the right. */
  lemma PressRightMovesOneStep()
    ensures Run(Start, SourceWalls, [KeyDownEvent("d"), Frame]).player.position == Vec(65, 60)
  {
    var s1 := KeyDown(Start, "d");
    assert s1 == Step(Start, SourceWalls, KeyDownEvent("d"));
    var p := HandleKeyPresses(s1.player, s1.keys, s1.lastKey, SourceWalls);
    assert p.velocity == Vec(5, 0) by {
      forall b | b in SourceWalls
        ensures !Collides(StartPlayer.(velocity := Vec(5, 0)), b)
      {
        SourceWallCell(b);
        assert Collides(StartPlayer.(velocity := Vec(5, 0)), b) ==> RowOf(b) == 1 && ColOf(b) == 1;
      }
    }
    assert Run(Start, SourceWalls, [KeyDownEvent("d"), Frame]) == Animate(s1, SourceWalls) by {
      assert [KeyDownEvent("d"), Frame][1..] == [Frame];
    }
  }

  /**
    Moving right along the top corridor, the player is stopped when its box
    would touch the east wall exactly (edge contact counts), and not one
    step earlier.
   */
  lemma EastWallStopsOnContact()
    ensures HandleAllowedPath(Player(Vec(225, 60), Zero, PlayerRadius), Vec(5, 0), X, SourceWalls).velocity.x == 0
    ensures HandleAllowedPath(Player(Vec(220, 60), Zero, PlayerRadius), Vec(5, 0), X, SourceWalls).velocity.x == 5
  {
    WallCellCompiled(SourceMap, 1, 6);
    assert Collides(Player(Vec(225, 60), Vec(5, 0), PlayerRadius), BoundaryAt(1, 6));
    forall b | b in SourceWalls
      ensures !Collides(Player(Vec(220, 60), Vec(5, 0), PlayerRadius), b)
    {
      SourceWallCell(b);
      assert Collides(Player(Vec(220, 60), Vec(5, 0), PlayerRadius), b) ==> RowOf(b) == 1 && ColOf(b) == 5;
    }
  }
}
