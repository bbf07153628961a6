# pinkpig game core in Dafny

A model of the simulation core of the pinkpig arcade game (`game.js`): a
player body ("bird") falls under gravity inside a field of width W and height
H, walls with a gap scroll in from the right, and the player scores once per
wall whose right edge it has passed. The core consists of:

- `checkCollision`: the player's bounding box against one wall.
- `createWall`: appends a wall at the right edge, with the gap's vertical
  position drawn at random.
- `update`: one frame tick. It freezes on game over. Otherwise it applies one
  Euler step of gravity and ends the game when the player leaves the field.
  Then it runs the wall pass from the last wall to the first: scroll, bounce on
  collision, score, remove walls that are off screen. Finally it spawns a wall
  when one is due.
- `jump`: the activate signal. It jumps while playing and restarts when the
  game is over.

The project has two modules.

- `GameRules` (`game_rules.dfy`) holds the game on values.
  - Datatypes: `Bird`, `Wall` and `Snapshot`. A `Snapshot` is the whole session
    state together with the field size.
  - Functions that state each rule: `CheckCollision`, `NewWall`, `TickWall`,
    `Sweep`, `OnScreen`, `Flips`, `Fall`, `Spawn`, `Step`, `Activate` and `Run`.
  - The lemmas about them.
  - The session invariant `Inv`: every wall is shaped as `createWall` shapes
    it, and no wall is right of the field or off screen. The walls are ordered
    left to right and lie more than the spawn spacing apart.
- `GameSession` (`game_session.dfy`) holds the session as the program keeps
  it.
  - The class `Session`. Its fields are `bird`, `walls`, `score`, `gameOver`,
    `canvasWidth` and `canvasHeight`. The methods `CreateWall`, `Update` and
    `Jump` update those fields in place.
  - `WallPass`: the imperative wall loop of `update`, with its loop invariant.
  - Each method's postcondition ties the new state to the value-level rule:
    `State() == Step(old(State()), r)` and `State() == Activate(old(State()))`.
    So every lemma about `Step` and `Activate` applies to the session.

`Math.random()` becomes a parameter `r` with `0 <= r < 1`. Numbers are exact
reals.

The wall pass visits the walls from last to first. `Sweep` models this order:
it handles `s[1..]` first and then `s[0]`, with the player the later walls
leave behind. One loop round extends the pass from `ws[i + 1..]` to `ws[i..]`.
`OnScreen` models the splicing-out of walls that are off screen. `Flips` counts
the walls whose `passed` flag turned on, which is the score gain.

Because the player is reset before the wall is scored, each wall is scored
against the player as the walls after it left it. `HitsAny` (some scrolled wall
collides with the player) gives that x without running the pass: 50 if one of
the walls from k on collides, the player's own x otherwise. `Due` counts the
scored walls with this rule, and the lemmas prove that the pass agrees with it.

The source's own literals are kept, even where a reader might expect the
starting values:

- A collision sets the player's x to the literal `50` (`ResetX`), not to the
  x it started with.
- A restart sets y to the literal `200` (`RestartY`) and leaves x alone.

## Model

| member | source | states |
|---|---|---|
| GameRules.CheckCollision | game.js:105-112 | collision holds exactly when the player's horizontal extent overlaps the wall's (strictly) and its vertical extent is not inside the gap |
| GameRules.NoOverlapNoCollision | game.js:106 | without horizontal overlap there is no collision, at any height of the player |
| GameRules.InsideGapNoCollision | game.js:107 | a player box that fits inside the gap never collides |
| GameRules.NewWall | game.js:45-59 | a new wall starts at x = W, unpassed, width 0.075W; bottomY - topHeight = 0.4H; topHeight = 0.1H + r(0.4H), so 0.1H <= topHeight < H - 0.4H - 0.1H; the wall lies within the field |
| GameSession.Session.CreateWall | game.js:45-59 | appends exactly NewWall(W, H, r) to the walls; player, score, flag and field are unchanged |
| GameRules.Fall | game.js:66-67 | semi-implicit Euler step: speed grows by gravity, then y grows by the new speed; nothing else of the player changes |
| GameRules.TickWall | game.js:77-90 | one loop round: the wall moves left by dx and keeps its shape; the player's x becomes 50 exactly when it collides with the moved wall, and the player is untouched otherwise; the wall is passed afterwards exactly when it was already or its right edge is behind the resulting x |
| GameRules.Sweep | game.js:75-90 | the pass keeps one entry per wall; only the player's x can change, and only to its old value or to 50 (the exact rules are SweepBounce and SweepScoring) |
| GameRules.SweepBounce | game.js:79-83 | after the pass the player's x is 50 exactly when some scrolled wall collides with the player it was given, and the player is unchanged otherwise; in particular any collision resets x to 50 |
| GameRules.SweepMovesEachWall | game.js:75-90 | each wall of the pass moves left by exactly dx and keeps its shape; a passed flag never reverts |
| GameRules.SweepScoring | game.js:79-90 | wall k is passed after the pass exactly when it was already or its scrolled right edge is behind the x the player has when wall k is reached: 50 if one of walls k.. collides with the player, the player's own x otherwise |
| GameRules.SweepNoHit | game.js:79-90 | in a pass where no scrolled wall collides, the player is unchanged and a wall is passed afterwards exactly when it was already or its scrolled right edge is behind the player's x |
| GameRules.Flips | game.js:86-88 | the score gain of a pass, one per wall whose flag turned on, never exceeds the walls that were unpassed |
| GameRules.SweepFlipsDue | game.js:86-88 | the score gain of a pass equals Due, the walls counted one by one with the scoring rule of SweepScoring |
| GameSession.PassLoopStep | game.js:75-96 | the in-place scroll, bounce, score and splice of wall i take the loop state for ws[i + 1..] to the state for ws[i..] |
| GameSession.WallPass | game.js:75-96 | the reverse loop over the walls yields the player of Sweep, the on-screen walls of Sweep, and the old score plus Flips |
| GameRules.OnScreen | game.js:93-95 | removal keeps no more walls than it is given, and no kept wall is off screen (right edge < 0) |
| GameRules.OnScreenKeeps | game.js:93-95 | every wall whose right edge is not left of the screen is kept |
| GameRules.OnScreenCounts | game.js:93-95 | every wall occurs among the kept walls exactly as often as in the input if its right edge is >= 0, and not at all otherwise: each on-screen entry is kept, each off-screen one removed |
| GameRules.OnScreenInOrder | game.js:93-95 | the kept walls are the input's walls at strictly increasing positions, so removal keeps their order |
| GameRules.OnScreenSpaced | game.js:93-95 | removal keeps walls more than a given gap apart |
| GameRules.FlipsConserveUnpassed | game.js:86-90 | when flags never revert, walls that flipped plus walls still unpassed equal the walls unpassed before, so each wall scores at most once |
| GameRules.Spawn | game.js:99-101 | a wall is appended exactly when there are no walls or the last one is left of W - 0.4W; it is NewWall and earlier walls are unchanged |
| GameRules.Step | game.js:62-102 | a tick keeps the field size and the player's constants; the game is over afterwards exactly when it was over or the fallen player left the field; the score never falls |
| GameSession.Session.Update | game.js:62-102 | the session's new state is Step of its old state for the draw r, and a session that satisfied the invariant still does |
| GameRules.StepFrozen | game.js:63 | on game over a tick changes nothing |
| GameRules.StepFatal | game.js:65-72 | a fall out of the field sets the game-over flag and keeps the fall; walls and score are untouched |
| GameRules.StepCollisionNonFatal | game.js:79-83 | a tick inside the field never ends the game; the player is the fallen player, with its x set to 50 exactly when some scrolled wall collides with the fallen player |
| GameRules.StepScore | game.js:86-90 | the score rises by exactly the walls due to be scored (Due of the fallen player), and score plus unpassed walls is conserved |
| GameRules.SurvivorsMoved | game.js:75-96 | the survivors of a tick are walls of the old list at increasing positions, in order, each the ticked wall at its position, moved left by dx, and still passed if it was passed |
| GameRules.StepWalls | game.js:92-101 | after a tick inside the field no wall is off screen; the walls are the survivors, followed by one NewWall exactly when a spawn is due |
| GameRules.InvWallsInField | game.js:45-58 | under the invariant every wall's gap lies within the field: 0 <= topHeight < bottomY <= H |
| GameRules.SweepKeepsShape | game.js:77 | scrolling keeps every wall's shape and the spacing between walls |
| GameRules.SpawnKeepsSpacing | game.js:99-101 | a wall spawned at x = W when one is due is more than 0.4W right of every wall |
| GameRules.SurvivorsKeepShape | game.js:75-96 | the survivors keep their shape and spacing, and none is off screen |
| GameRules.SpawnKeepsInv | game.js:99-101 | the spawn rule keeps the wall part of the invariant |
| GameRules.StepInv | game.js:62-102 | every tick keeps the session invariant |
| GameRules.Activate | game.js:237-249 | after the activate signal the game is playing; the field, the player's x and constants are kept; the score does not rise |
| GameSession.Session.Jump | game.js:237-249 | the session's new state is Activate of its old state, and a session that satisfied the invariant still does |
| GameRules.ActivateJumps | game.js:238-239 | while playing, activate only sets the speed to the jump impulse |
| GameRules.RestartForgetsHistory | game.js:240-248 | two finished sessions with the same player x, constants and field restart to the same state: no walls, score 0, y = 200, speed 0 |
| GameRules.ActivateInv | game.js:237-249 | the activate signal keeps the session invariant |
| GameSession.Session.constructor | game.js:22-41 | the start-up session satisfies the invariant; the player is scaled to the field (radius 0.0375W, x 0.125W, y 0.5H, gravity 0.0008H, jump -0.015H); no walls, score 0, playing |
| GameRules.Run | game.js:230-234 | a run of ticks without input keeps the field size |
| GameRules.RunFrozen | game.js:63 | once the game is over, any number of ticks changes nothing |
| GameRules.RunGravity | game.js:66 | a run that is still playing at its end added gravity to the speed once per tick, and was playing from the start |
| GameRules.RunScoreMonotone | game.js:86-89 | the score never falls during a run of ticks |
| GameRules.RunInv | game.js:230-234 | a run of ticks keeps the session invariant |

## Left out

- Rendering is not modelled: `draw`, the meteor starfield (`initMeteors`) and every canvas drawing call only paint the state.
- The score label (`scoreElement.textContent`) is not modelled: it is DOM output only.
- Scheduling and input are not modelled as such. `gameLoop`, `requestAnimationFrame` and the click, key and touch listeners become calls of `Update` and `Jump`, and `Run` stands for a stretch of frames without input.
- A resize during play (`resizeCanvas` from the resize listener) is not modelled: the field size is fixed once the session is built. The constructor models the resize done at start-up.
- Session.constructor: takes any positive width and height, not only the 4:3 field of at most 800 pixels wide that `resizeCanvas` computes from the container.
- Session.Update: requires a positive field height, as do Step and NewWall. With a container narrower than 20 pixels the source would compute a non-positive field, and the model does not cover that case.
- `Math.random()` is a parameter `r` with `0 <= r < 1`, not a random source.
- Arithmetic is on exact reals, not IEEE doubles, so rounding is not modelled.
- The browser truncates `canvas.width` and `canvas.height` to integers. The model takes them equal to `canvasWidth` and `canvasHeight`. The source reads `canvas.height` for the boundary check and `canvas.width` for the spawn check.
- GameRules.RestartForgetsHistory: requires the same player x in both sessions, because a restart keeps x: only y and speed are reset, so the player is not returned to its starting position.
- Walls are values in a sequence, not shared objects, so aliasing of wall objects is not modelled; the source never aliases them.
