# Tile-maze movement core, modelled in Dafny

This project models the movement-and-collision core of a small canvas maze
game (a Pac-Man prototype). The core lives in `script.js`:

- a character grid is compiled into 40×40 wall tiles (`Boundary`);
- the player is a disc of radius 10 that starts at (60, 60), at rest;
- keydown of w, a, s or d sets that key's `pressed` flag and `lastKey`; keyup of w, a, s or d clears the flag only; space on either event stops the player;
- each animation frame does three things in order:
  - `handleKeyPresses` turns the active key into an intended velocity, and through `handleAllowedPath` admits the intent on one axis if no wall collides with the probe, and zeroes the axis at the first wall that does;
  - `handlePlayerBoundaries`, run for every wall, acts as a safety net and stops the player dead if its projected box meets a wall;
  - `Player.update` moves the player by its velocity.

Every quantity in the game is an integer: tile 40, start 60, speed 5 and
radius 10. The model therefore uses unbounded `int` throughout, and nothing
is rounded. The state is an immutable record. Each handler is a pure
function from state to state. The walls are a `seq<Boundary>` passed as a
parameter, since they are compiled once and never change.

Modules:

- `Geometry` (geometry.dfy) holds vectors, axes, walls and the player. It also holds the collision test `Collides` and a point-set reference for it.
- `Maze` (maze.dfy) is the grid-to-walls compiler and the shipped maze.
- `Movement` (movement.dfy) holds `handleAllowedPath` (the `every` scan), `handlePlayerBoundaries` with its fold over the walls, and `Player.update`.
- `Controls` (controls.dfy) holds the key flags, `lastKey`, the key names, the active-key choice, the four intents and `handleKeyPresses`.
- `Game` (game.dfy) holds the shared state, `animate`, the keydown and keyup handlers, event runs and the invariants. It also holds concrete facts about the shipped maze.
- `Wrappers` (wrappers.dfy) holds `Option`.

Notes on the model:

- The safety net tests the player's box projected by the player's current velocity (script.js:118 with 124-131), not the position already reached. This projection is what lets a frame preserve wall avoidance.
- `handleKeyPresses` tries w, a, s and d in that order. A key acts only if it is pressed and equal to `lastKey`. `lastKey` holds a single key, so at most one key can qualify. The order therefore never matters: the active key is the last key pressed, while it is still held (`Controls.ActiveKey`).
- `handleAllowedPath` probes a copy of the player that carries the intended velocity (`{...player, velocity}`). The model writes this copy as `player.(velocity := intent)`. The velocity written during the scan never feeds back into the test, and this is why the operation is idempotent.
- After resolving one axis, the other velocity component keeps its old value. For example, pressing w while moving right can give the velocity (5, −5). The safety net then tests that diagonal projection. The model keeps this behaviour as written.

## Model

| member | source | states |
|---|---|---|
| Geometry.Vec.With | script.js:96-99 | writing one velocity component sets that component to the written value and keeps the other |
| Geometry.Collides | script.js:124-131 | the four comparisons are exactly "the x-ranges and the y-ranges of the velocity-shifted player box and the closed wall rectangle both intersect" |
| Geometry.CollidesIffMeet | script.js:124-131 | the collision test holds exactly when the player's box, shifted by its velocity, and the wall's closed rectangle share a point, so edge and corner contact count as collisions |
| Maze.RowWalls | script.js:79-90 | a row yields exactly one 40×40 tile at (40 j, 40 i) per "-" cell at column j, nothing for any other symbol, in increasing column order |
| Maze.CompileMap | script.js:78-91 | the compiled list contains a boundary exactly when it is the 40×40 tile of a "-" cell, and it is strictly row-major ordered, so each wall cell appears once |
| Maze.WallCellCompiled | script.js:78-91 | the tile of every "-" cell (i, j), at (40 j, 40 i), is in the compiled list |
| Movement.ScanWalls | script.js:94-102 | the `every` scan leaves the non-target component alone; it writes 0 to the target component if any wall collides with the probe, writes the intent's component if none collides and there is a wall, and changes nothing with no walls |
| Movement.HandleAllowedPath | script.js:93-103 | position, radius and the other axis are unchanged; the target axis is 0 if any wall collides under the intended velocity, the intent's component otherwise (with at least one wall); an empty wall list leaves the player as it is |
| Movement.HandleAllowedPathIdempotent | script.js:95-99 | resolving the same intent twice gives the same player as resolving it once |
| Movement.HandleAllowedPathKeepsSpeeds | script.js:96-99 | with the velocity and the intent in {−5, 0, 5} per component, the resulting velocity is too |
| Movement.SafetyNet | script.js:117-142 | running `handlePlayerBoundaries` (lines 117-122) for each wall in the `forEach` of lines 139-142 zeroes both components if some wall meets the projected box, and otherwise leaves the player unchanged |
| Movement.Update | script.js:37-41 | velocity and radius are kept, and after moving by its velocity the player at rest touches a wall exactly when it collided with that wall under the velocity |
| Controls.Keys.Set | script.js:150-186 | writing one key's pressed flag sets that flag to the written value and leaves the other three flags as they were |
| Controls.MovementKey | script.js:148-164 | an event key string names movement key k exactly when it is k's name "w", "a", "s" or "d" |
| Controls.ActiveKey | script.js:105-115 | the key acted on is the last key if that key is still pressed, and none otherwise; the w, a, s, d priority cannot change the outcome |
| Controls.IntentVelocity | script.js:107-113 | each key's intent is 5 in magnitude along its axis (y for w and s, x for a and d) and 0 across it, negative for w and a, positive for s and d |
| Controls.HandleKeyPresses | script.js:105-115 | while the last key is held and there are walls, that key's axis becomes 0 if the player moving by the key's intent would meet some wall and the intent's ±5 otherwise, with the other axis, the position and the radius kept; in every other case the player is unchanged |
| Controls.HandleKeyPressesKeepsSpeeds | script.js:105-115 | key handling keeps both velocity components in {−5, 0, 5} |
| Game.Animate | script.js:133-144 | a frame leaves keys and lastKey alone; if the key-resolved projection meets a wall the player stops where it stood, otherwise it moves to the projected position |
| Game.AnimatePreservesClear | script.js:133-144 | if the resting player touches no wall before a frame, it touches none after it |
| Game.AnimateKeepsSpeeds | script.js:133-144 | a frame keeps both velocity components in {−5, 0, 5} |
| Game.KeyDown | script.js:147-171 | a movement key becomes pressed and the last key, and so the active key, with the player untouched; space zeroes the velocity and keeps the keys; any other key changes nothing; the position never changes |
| Game.KeyUp | script.js:173-193 | a movement key is released and lastKey kept, so the intent ends if it was the last key and is otherwise unchanged; space zeroes the velocity; any other key changes nothing |
| Game.StepPreservesInvariant | script.js:133-193 | each frame and each key event keeps "clear of walls at rest" and "components in {−5, 0, 5}" |
| Game.RunPreservesInvariant | script.js:133-193 | any sequence of frames and key events keeps that invariant |
| Game.SourceWallCell | script.js:70-91 | every wall compiled from the shipped maze is the tile of a "-" cell of that maze |
| Game.StartIsClear | script.js:44-51 | the start player, at (60, 60) with radius 10 and velocity 0, touches no wall of the shipped maze |
| Game.ShippedGameNeverTouchesWall | script.js:44-193 | on the shipped maze, after any sequence of events from the start, the player touches no wall and its velocity components are in {−5, 0, 5} |
| Game.PressRightMovesOneStep | script.js:133-164 | from the start, keydown "d" followed by one frame moves the player to (65, 60) |
| Game.EastWallStopsOnContact | script.js:93-131 | moving right in the top corridor, the player at x = 225 is stopped, because its box would touch the east wall exactly; at x = 220 it is admitted at speed 5 |

## Left out

- Canvas, context and window sizing (script.js:1-6): rendering setup with no effect on movement.
- All `draw()` methods, `Boundary.update`, `clearRect` and the per-wall `boundary.draw()` call (script.js:17-21, 30-36, 38, 135, 140): drawing output only.
- `requestAnimationFrame` and `addEventListener` registration (script.js:134, 147, 173): host event-loop plumbing. The frame body and the two handler bodies are modelled as pure transitions, and an arbitrary interleaving of them is modelled as a sequence of `Game.Event` values. The first direct call `animate()` (script.js:145) is the first `Frame` event of such a run.
- Ghosts, pellets, power-ups, scoring, scare timers, padding margins and win/lose states: `script.js` has no code for any of them.
- The `{x, y}` coordinates are JavaScript numbers. Every value the game can produce is a small integer, so the model uses `int` and does not model floating point.
