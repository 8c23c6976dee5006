/**
  Keyboard state and the choice of movement intent: four "pressed" flags,
  the last movement key pressed, and the velocity each key asks for.
 */
module Controls {
  import opened Wrappers
  import opened Geometry
  import opened Movement

  /** The four movement keys. */
  datatype Key = W | A | S | D

  /** `lastKey`: empty at start, afterwards the last movement key pressed. */
  datatype LastKey = NoKey | Last(key: Key)

  /** The `pressed` flag of each movement key. */
  datatype Keys = Keys(w: bool, a: bool, s: bool, d: bool) {

    function Pressed(k: Key): bool {
      match k
      case W => w
      case A => a
      case S => s
      case D => d
    }

    /** These flags with the one for `k` set to `pressed`. */
    function Set(k: Key, pressed: bool): (r: Keys)
      ensures r.Pressed(k) == pressed
      ensures forall k' :: k' != k ==> r.Pressed(k') == Pressed(k')
    {
      match k
      case W => this.(w := pressed)
      case A => this.(a := pressed)
      case S => this.(s := pressed)
      case D => this.(d := pressed)
    }
  }

  const NoKeysPressed: Keys := Keys(false, false, false, false)

  /** The event `key` string of a movement key. */
  function KeyName(k: Key): string {
    match k
    case W => "w"
    case A => "a"
    case S => "s"
    case D => "d"
  }

  /** Which movement key an event's `key` string names, if any. */
  function MovementKey(key: string): (r: Option<Key>)
    ensures forall k :: r == Some(k) <==> key == KeyName(k)
  {
    if key == "w" then Some(W)
    else if key == "a" then Some(A)
    else if key == "s" then Some(S)
    else if key == "d" then Some(D)
    else None
  }

  /**
    The key `handleKeyPresses` acts on, trying w, a, s, d in turn: a key
    qualifies when it is pressed and is the last key. Because the last key
    is a single key, at most one qualifies and the order never matters: the
    active key is the last key pressed, while it is still held down.
   */
  function ActiveKey(keys: Keys, last: LastKey): (r: Option<Key>)
    ensures r == (if last.Last? && keys.Pressed(last.key) then Some(last.key) else None)
  {
    if keys.w && last == Last(W) then Some(W)
    else if keys.a && last == Last(A) then Some(A)
    else if keys.s && last == Last(S) then Some(S)
    else if keys.d && last == Last(D) then Some(D)
    else
      assert last.Last? ==> last.key.W? || last.key.A? || last.key.S? || last.key.D?;
      None
  }

  /** The velocity component a key writes: y for w and s, x for a and d. */
  function IntentAxis(k: Key): Axis {
    if k == W || k == S then Y else X
  }

  /**
    The intended velocity of a key: speed 5 along its axis, 0 across it,
    towards the top of the screen for w, the left for a, the bottom for s
    and the right for d.
   */
  function IntentVelocity(k: Key): (v: Vec)
    ensures v.Get(IntentAxis(k).Other()) == 0
    ensures v.Get(IntentAxis(k)) == (if k == W || k == A then -Speed else Speed)
    ensures ValidVelocity(v)
  {
    match k
    case W => Vec(0, -Speed)
    case A => Vec(-Speed, 0)
    case S => Vec(0, Speed)
    case D => Vec(Speed, 0)
  }

  /**
    `handleKeyPresses`: while the last key is held and there are walls, its
    axis of the velocity becomes 0 if the player, moving by the key's intent,
    would meet a wall, and the intent's component otherwise; the other axis
    and the position are kept. In every other case nothing changes.
   */
  function HandleKeyPresses(player: Player, keys: Keys, last: LastKey, walls: seq<Boundary>): (p: Player)
    ensures last.Last? && keys.Pressed(last.key) && walls != [] ==>
      var axis := IntentAxis(last.key);
      && p.velocity.Get(axis) ==
           (if AnyCollides(player.(velocity := IntentVelocity(last.key)), walls) then 0
            else IntentVelocity(last.key).Get(axis))
      && p.velocity.Get(axis.Other()) == player.velocity.Get(axis.Other())
      && p.position == player.position && p.radius == player.radius
    ensures !(last.Last? && keys.Pressed(last.key) && walls != []) ==> p == player
  {
    match ActiveKey(keys, last)
    case None => player
    case Some(k) => HandleAllowedPath(player, IntentVelocity(k), IntentAxis(k), walls)
  }

  /** Every velocity component written while handling the keys is 0, 5 or -5. */
  lemma HandleKeyPressesKeepsSpeeds(player: Player, keys: Keys, last: LastKey, walls: seq<Boundary>)
    requires ValidVelocity(player.velocity)
    ensures ValidVelocity(HandleKeyPresses(player, keys, last, walls).velocity)
  {
    match ActiveKey(keys, last)
    case None =>
    case Some(k) => HandleAllowedPathKeepsSpeeds(player, IntentVelocity(k), IntentAxis(k), walls);
  }
}
