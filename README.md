# Kitty catch — a verified model of the game loop

The game is a small browser arcade game: the player (a kitty sprite) moves left
and right along the bottom of a 500 × 600 arena, catching falling hearts (one
point each) and dodging falling muds (one life each). A game starts with three
lives and ends in the frame in which no life is left.

This project models the game's session logic in `game.js`:

- `entities.dfy`, module `Entities`: the player and falling-object records,
  the strict rectangle overlap test, how an object falls by its own speed,
  which objects one frame keeps (`Survivors`) and how many hit the player
  (`Collisions`) or fall out (`Missed`), keyboard steering, the touch-drag
  clamp, the spawn formulas, and the lemmas about all of these.
- `game.dfy`, module `Game`: class `Session`, holding `score`, `lives`,
  `running`, `player`, `hearts` and `muds`, updated in place by methods that
  follow the source functions: the two reverse loops of `update` that advance
  each object and splice out the ones that fell out or touched the player, the
  keyboard step, `endGame`, `startGame` (which runs the first frame at once,
  as the source's call to `gameLoop` does), the two spawners and their timer
  guards, the touch drag, and the start/restart button guard. `Valid()` is
  the session invariant: every method keeps it except `StepHearts` and
  `StepMuds`, the two halves of `Update`, which run between its states (after
  the muds a running game may have no life left until `EndGame` is called).
  `EndGame` restores it from any `Consistent()` state, that is any state
  that meets it apart from the running flag.

Positions and speeds are exact reals. `Math.random()` is a parameter `r` with
`0 <= r < 1` (each spawn draws twice: one for x, one for speed); image
readiness is a `bool` parameter; the number of loaded images is an `int`
parameter of the button handler; the held keys are two `bool` parameters of
each frame; a touch drag is given as its delta in arena units.

Two behaviours of the code that are easy to get wrong:

- Keyboard movement is not clamped. Left moves only while `x > 0`, right only
  while `x < 440`, each by the player's speed of 5, so after a drag to x = 2.3
  a left press gives x = -2.7 (`SteerCanLeaveArena`). What does hold is that
  the player never gets more than one step outside the arena
  (`SteerStaysNearArena`, kept by `Session.Valid`).
- Lives are not kept non-negative: two muds landing in one frame on the last
  life leave lives at -1 (`TwoMudsCostTwoLives`). What holds instead is that a
  running game always has a life left (`Session.Valid`).

## Model

| member | source | states |
|---|---|---|
| Entities.Overlaps | game.js:84 | the strict overlap test: an object of positive size whose centre is strictly inside the player overlaps it, and rectangles that only touch along an edge do not |
| Entities.Fall | game.js:82 | advancing an object by its speed changes only its y, downwards for a positive speed, and is undone by moving it back up by its speed |
| Entities.FellOut | game.js:83 | after advancing an object is below the arena exactly when it was within one step of the bottom; an object already below that does not move up stays out |
| Entities.Survivors | game.js:80-100 | the objects kept by a frame's reverse loop are never more than before |
| Entities.SurvivorsSound | game.js:82-84 | every kept object is on screen (y <= 600), clear of the player, and is an earlier object moved down by exactly its speed with x, size and speed unchanged |
| Entities.StayingIsKept | game.js:82-88 | every object that after advancing is on screen and clear of the player is kept |
| Entities.SurvivorsPartition | game.js:80-100 | each object is kept, hits the player, or falls out, exactly one of these: the counts add up to the length |
| Entities.SurvivorsAppend | game.js:80-89 | filtering and counting hits commute with concatenation, so kept objects keep their relative order |
| Entities.SurvivorsAt | game.js:80-89 | filtering from position i is the verdict on i followed by the filtering of the rest, for both kept objects and hits |
| Entities.ReverseFilterStep | game.js:80-89 | one iteration of the reverse loop (splice out, or write back the advanced object) takes the half-filtered array at i+1 to the half-filtered array at i |
| Entities.Collisions | game.js:84-85 | the number of objects that hit the player in a frame is at most the number of objects |
| Entities.Missed | game.js:83 | the number of objects that fall out in a frame is at most the number of objects |
| Entities.OverlapIffCommonPoint | game.js:84 | for rectangles of positive size the overlap test holds exactly when some point lies strictly inside both |
| Entities.EdgeContactIsNoCollision | game.js:95 | rectangles touching only along an edge do not collide |
| Entities.Steer | game.js:77-78 | a keyboard step changes only x, and by minus one step, zero or plus one step |
| Entities.SteerSingleKey | game.js:77-78 | left alone subtracts the speed exactly when x > 0; right alone adds it exactly when x < 440; no key changes nothing |
| Entities.SteerBothKeys | game.js:77-78 | with both keys held the two steps cancel for 0 < x < 445; at or left of 0 only the right step applies, at or beyond 445 only the left one |
| Entities.SteerStaysNearArena | game.js:77-78 | a player within one step of the arena stays within one step of it, whatever keys are held |
| Entities.SteerCanLeaveArena | game.js:77 | a left press at x = 2.3 leaves x = -2.7: keyboard movement does not clamp |
| Entities.DragX | game.js:62-64 | a touch drag leaves 0 <= x <= 440, equal to x + delta when that is in range and to the nearer bound otherwise |
| Entities.NewHeart | game.js:36 | a new heart is 30 × 30 at y = -30 with x in [0, 470) and speed in [2, 4) |
| Entities.NewMud | game.js:41 | a new mud is 40 × 40 at y = -40 with x in [0, 460) and speed in [2, 5) |
| Entities.SurvivorsWellFormed | game.js:80-100 | objects that had their spawn shape, a speed in range and y in [-size, 600] still do after a frame |
| Entities.CatchOneHeart | game.js:84-87 | a heart at (110, 520) over a player at (100, 500) is caught in one frame: one point, nothing kept |
| Entities.TwoMudsCostTwoLives | game.js:96 | two muds landing in one frame cost two lives, so one life left becomes -1 |
| Game.Session.constructor | game.js:8-32 | the page starts idle with score 0, lives 3, no objects and the player centred |
| Game.Session.SpawnHeart | game.js:34-38 | with the heart image ready exactly one heart is appended; otherwise nothing changes |
| Game.Session.SpawnMud | game.js:39-43 | with the mud image ready exactly one mud is appended; otherwise nothing changes |
| Game.Session.HeartTimerFires | game.js:108 | the heart timer spawns only while the game runs |
| Game.Session.MudTimerFires | game.js:109 | the mud timer spawns only while the game runs |
| Game.Session.Drag | game.js:58-67 | while running, a drag moves the player by delta clamped to [0, 440]; when not running nothing changes |
| Game.Session.EndGame | game.js:130-135 | the game stops, score, lives, player and objects stay as they are, and the session invariant holds again |
| Game.Session.StepHearts | game.js:80-89 | the reverse splice loop leaves exactly the survivors of the hearts and adds the number of caught hearts to the score, leaving lives alone |
| Game.Session.StepMuds | game.js:91-100 | the reverse splice loop leaves exactly the survivors of the muds and takes the number of hits off the lives, leaving the score alone |
| Game.Session.Update | game.js:76-104 | one frame: keyboard step, then hearts and muds filtered against the moved player, score and lives changed by the counts, the game stopped exactly when lives <= 0, and the session invariant kept |
| Game.Session.GameLoop | game.js:150-156 | a frame runs the update only while the game runs and otherwise changes nothing |
| Game.Session.StartGame | game.js:116-128 | a start leaves score 0, lives 3, no objects, the game running and the player centred at (220, 520) moved by the first frame's keys |
| Game.Session.PressStart | game.js:181-182 | start and restart start the game exactly when three images have loaded, and otherwise change nothing |
| Game.FirstHeartScenario | game.js:106-128 | refused start, start, one heart spawned by its timer, one frame: one heart on screen, score 0, lives 3, still running |

## Left out

- Canvas drawing (`draw`) and `resizeCanvas`: rendering and layout that depend on the page and window metrics.
- The scoreboard, final-score and overlay updates and the `alert` on a refused start: display side effects only.
- `playSound`: fire-and-forget audio through browser APIs.
- `startSpawning`, `stopSpawning`, `setInterval`, `clearInterval` and `requestAnimationFrame`: the host scheduler. A timer firing is `HeartTimerFires` or `MudTimerFires`, a frame is `GameLoop`; the loop's rescheduling of itself and a stale frame callback still pending across a quick restart are not modelled.
- Image loading: the per-image `complete && naturalWidth > 0` tests become `bool` parameters, and `imagesLoaded` a parameter of `PressStart`.
- `Math.random`: each draw is a real parameter in [0, 1).
- Event wiring, the `keys` map and `clientXToVirtual`: the held keys are parameters of each frame, and a drag arrives as its delta in arena units.
- Game.Session.Drag: does not model the `lastTouchVirtualX === null` and empty-touch-list guards of the touch handler, which belong to the input plumbing; only the running guard and the clamp are kept.
- Game.Session.EndGame: does not model the stopping of the spawn timers, which belong to the scheduler.
- JavaScript floating point: positions and speeds are exact reals, so rounding in `h.y += h.speed` and in `Math.random() * (GW - 30)` is not modelled.
