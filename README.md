# Pizza merge: game-state core

This project models the game logic of `game.js`, a Suika-style merge game built on a
2D physics engine. Pizzas of fifteen levels are dropped into a field. Two pizzas of the
same level that touch merge into one pizza of the next level and earn points. The game
ends when a pizza crosses a wall.

The model leaves the engine and the page out and keeps the state the game logic owns:

- the score and the high score;
- the game-over flag;
- the aimed piece (`currentPizza`) and the drop cooldown flag;
- the merge lock map;
- the world, seen as a sequence of bodies. Each body has an engine id, a label (pizza
  of a level, or boundary), a position, a velocity, a radius and the static and sensor
  flags.

Modules:

- `Catalog` (`catalog.dfy`): the level table and its closed forms. The score is the
  triangular number of the level. The radius is 40, then 60 plus 10 per level above 2.
- `Bodies` (`bodies.dfy`): the body record and the world operations the game uses:
  - create a pizza, add a body, remove a body by id, move or release a body by id;
  - find the body an id refers to.
- `Spawn` (`spawn.dfy`): spawn placement as a loop (`FindSafeSpawnY`) proved against a
  declarative description of the height it must return (`IsSpawnY`).
- `Merge` (`merge.dfy`): the merge rule for one collision pair (`MergeStep`), folded over
  a batch (`ProcessPairs`). These are pure functions over the part of the state a merge
  changes.
- `Pointer` (`pointer.dfy`): the horizontal clamp applied to pointer positions.
- `Game` (`session.dfy`): class `Session` holds the module-level variables of the game.
  Its methods are the game's functions, and each changes the fields in place. The
  collision handler is a loop proved equal to `Merge.ProcessPairs`. The game-over check
  is a loop proved to end the game exactly when some non-aimed pizza has crossed a wall
  centre.

The class invariant `Valid` says:

- the lock map is empty between pairs;
- every body carries an id already handed out;
- the aimed piece, when there is one, is a static sensor pizza in the world;
- the score lies between 0 and the high score;
- there is no aimed piece once the game is over.

Behaviours of the code that are easy to miss, modelled as written:

- **Lock map.** The comments at `game.js:337` and `game.js:346` say the lock map skips
  pizzas already waiting to merge and locks a pair against repeated merges. But both ids
  are deleted from the map again within the same pair (`game.js:369-370`), so the check
  at `game.js:338` never sees a lock set by an earlier pair. `Merge.SharedBodyMergesTwice`
  proves that pairs (A, B) and (A, C) of one batch both merge:
  - the score rises twice;
  - two new pizzas appear.
- **Cooldown timer.** The timer scheduled by a drop (`game.js:272-275`) spawns through
  `spawnNextPizza`, whose only guard is the game-over flag (`game.js:238`). A restart
  clears that flag, so a timer scheduled before the restart fires in the new game.
  `Game.StaleCooldownAfterRestart` proves the result: two static sensor pizzas are in the
  world, and only the newer one is aimed.
- **Loss rule.** The loss rule is the wall-crossing test at `game.js:395-402`.

The claims below are what the Dafny verifier accepts about the model.

## Model

| member | source | states |
|---|---|---|
| Catalog.TableShape | game.js:18-35 | the table has fifteen rows, so MAX_LEVEL is 15, and row i describes level i + 1 |
| Catalog.ScoreOf | game.js:18-34 | the score awarded for creating level L is L(L+1)/2 |
| Catalog.ScoreIsTriangular | game.js:18-34 | every row's score equals the triangular number of its level |
| Catalog.RadiusOf | game.js:18-34 | the radius of level L is 40 for L = 1 and 60 + 10(L-2) above, and never below 40 |
| Catalog.RadiusFormula | game.js:18-34 | every row's radius follows that formula |
| Catalog.DefinitionFor | game.js:182-183 | looking a level up finds a row exactly when the level is 1..15; the row found carries that level, its radius and its score |
| Catalog.ScoreIncreasing | game.js:18-34 | a higher level always earns strictly more |
| Catalog.RadiusIncreasing | game.js:18-34 | a higher level is always strictly larger |
| Bodies.Mid | game.js:354-355 | the merge point is equidistant from both inputs and lies between them |
| Bodies.CreatePizza | game.js:181-205 | a body is created exactly when the level has a table row; it is a pizza of that level at the given point, at rest, dynamic and solid, with the table radius times the scale factor |
| Bodies.StaticSensor | game.js:252-253 | the spawned piece is static and a sensor, and otherwise equal to the created pizza |
| Bodies.RemoveBodyMembers | game.js:368 | after removal the world holds exactly the bodies with other ids |
| Bodies.RemoveAbsent | game.js:368 | removing a body that is no longer in the world changes nothing |
| Bodies.SetXEffect | game.js:475 | moving the aimed piece changes its x in place and leaves every other body as it was |
| Bodies.ReleaseEffect | game.js:266-268 | dropping the aimed piece sets its x and clears its static and sensor flags in place; every other body is unchanged |
| Bodies.LookupSetX | game.js:475 | after the move, the aimed id refers to the same body with the new x |
| Bodies.LookupRelease | game.js:266-268 | after the drop, the released id refers to the same body, moved, dynamic and solid |
| Merge.ResultLevel | game.js:350-351 | the level a merge creates is one above its inputs and always has a table row, so the score lookup never misses; that row carries the level and its score |
| Merge.MergedPizza | game.js:350-381 | the merged pizza is one level up, at the midpoint of the inputs, moving with the mean of their velocities, with the scaled table radius, dynamic and solid |
| Merge.LockUnlock | game.js:347-370 | locking two free ids and deleting them again gives back the lock map |
| Merge.MergeStep | game.js:338-381 | one pair changes the state exactly when neither id is locked and the pair is mergeable (two pizzas, same level, below 15, neither aimed); otherwise the state is untouched; the lock map is the same after the pair; the score never decreases |
| Merge.MergeAccepted | game.js:347-381 | an accepted pair raises the score by exactly the next level's score, uses one new id, leaves the lock map as it was, and replaces both inputs by the merged pizza at the end of the world |
| Merge.MergeMembership | game.js:368-381 | after an accepted pair the world holds the bodies it held other than the two inputs, plus the merged pizza |
| Merge.MergeStepKeepsWorld | game.js:338-381 | a pair keeps the lock map empty and all ids handed out, and keeps the aimed piece in the world as a static sensor |
| Merge.ProcessPairs | game.js:334-385 | a batch leaves the lock map as it was and never lowers the score or the next id |
| Merge.BatchGain | game.js:350-352 | the points a batch earns are never negative |
| Merge.MergeCount | game.js:334-385 | a batch merges at most once per pair |
| Merge.BatchEffect | game.js:334-385 | from an empty lock map, a batch raises the score by the sum of the next-level scores of its mergeable pairs and uses one id per mergeable pair |
| Merge.NoMergeablePairs | game.js:340-344 | a batch without a mergeable pair, in particular an empty one, changes nothing |
| Merge.SharedBodyMergesTwice | game.js:338-370 | a body in two mergeable pairs of one batch is merged twice: the score rises by twice the next level's score and both merged pizzas are in the world |
| Spawn.ProbeYAntitone | game.js:226 | later probes are never lower than earlier ones |
| Spawn.FindSafeSpawnY | game.js:208-234 | the loop returns the height `IsSpawnY` describes. That is the desired height when it is free; otherwise the first step k in 1..19 whose height is at least the radius and free; otherwise the desired height. It probes at most 20 heights, at desiredY - k·step |
| Spawn.SpawnYUnique | game.js:208-234 | the description admits exactly one height |
| Spawn.SpawnYAtMostDesired | game.js:208-234 | the spawn height is never below the desired height |
| Spawn.SpawnYFreeOrFallback | game.js:208-234 | the spawn height is free and at least the radius, or it is the desired height |
| Spawn.OneStepUp | game.js:222-230 | when the desired height is taken and one step up is free and inside the field, that step is chosen |
| Pointer.ClampX | game.js:470-473 | the clamped x is at most the right bound, and at least the left bound when the field is wide enough; an x already inside is kept; the result is x or one of the bounds |
| Pointer.ClampIdempotent | game.js:472-473 | clamping a clamped x changes nothing |
| Pointer.ClampMonotone | game.js:486-487 | the clamp keeps the order of pointer positions |
| Pointer.ClampInsideWalls | game.js:470-473 | when padding plus radius reaches the wall centre and the field is wide enough, a clamped x lies between the wall centres at 10 and width - 10 |
| Game.Session.constructor | game.js:39-46 | the initial module state: empty world, score 0, the stored high score, no aimed piece, flags cleared, empty lock map, no timers |
| Game.Session.CurrentRadius | game.js:484 | the radius used by the release clamp is 0 without an aimed piece, and at least the smallest scaled radius with one |
| Game.Session.UpdateScoreUI | game.js:416-423 | the high score becomes the larger of itself and the score; nothing else changes |
| Game.Session.Init | game.js:138-177 | a start clears the game-over and cooldown flags, sets the score to 0 and empties the lock map. The world then holds exactly one static sensor pizza of the drawn level 1..3, centred, at 10% of the height, and it is the aimed piece. The high score and pending timers are kept |
| Game.Session.SpawnNextPizza | game.js:237-257 | unless the game is over, exactly one body is appended: a static sensor pizza of the drawn level, centred horizontally, at the height spawn placement returns, and it becomes the aimed piece. After game over nothing changes |
| Game.Session.AddAimed | game.js:250-255 | the new piece is appended to the world under the next id and becomes the aimed piece |
| Game.Session.DropCurrentPizza | game.js:260-276 | with no aimed piece, during the cooldown or after game over, nothing changes. Otherwise the aimed piece becomes dynamic and solid at x with its y kept, nothing is aimed, drops are disabled and one more cooldown timer is pending |
| Game.Session.CooldownElapsed | game.js:272-275 | a firing timer re-enables drops and, unless the game is over, spawns exactly one aimed piece of the drawn level |
| Game.Session.EndGame | game.js:426-442 | the game ends once. The flag is set, and the aimed piece is removed from the world and no longer found by its id. A second call changes nothing |
| Game.Session.CheckGameOver | game.js:389-413 | while the game runs, it ends exactly when some non-aimed pizza's centre is left of 10 or right of width - 10. Otherwise nothing changes, and after game over nothing changes |
| Game.Session.HandleCollision | game.js:329-386 | a batch has exactly the effect of `Merge.ProcessPairs` on world, score, ids and locks. The high score follows the score, and the aimed piece and flags are untouched. After game over nothing changes |
| Game.Session.MergePair | game.js:347-383 | the accepted branch has exactly the effect of `Merge.MergeStep` and refreshes the high score |
| Game.Session.OnPointerMove | game.js:464-476 | with an aimed piece and the game running, the aimed piece moves to the clamped pointer x with everything else kept; otherwise nothing changes |
| Game.Session.OnRelease | game.js:478-490 | outside the cooldown and before game over, the aimed piece is dropped at the clamped pointer x; otherwise nothing changes |
| Game.StaleCooldownAfterRestart | game.js:272-275 | drop, end the game, restart, then the old timer fires: the world holds two distinct static sensor pizzas, and only the newer one is aimed |

## Left out

- Canvas resizing, display scale updates and sprite scaling (`resizeCanvas`). These are layout and rendering. The width, height and scale factor are fixed per session.
- Wall construction (`updateBoundaries`). The walls are not bodies of the modelled world. Only the wall-centre constants 10 and width - 10 used by the loss check are kept.
- The particle effect shown at a merge. It is DOM animation with random values.
- Score display, the game-over modal, console logging and localStorage. These are DOM and persistent I/O. `updateScoreUI` is reduced to `highScore := max(highScore, score)`. The stored high score is a constructor argument.
- Engine, runner and renderer creation and teardown (`init`, `restartGame`). These are the physics and render lifecycle. A start is modelled as an empty world; the engine's id counter keeps running across restarts.
- Event listener wiring and touch handlers. These are input plumbing. Only the clamp arithmetic and the calls to move and drop are modelled.
- Physics: gravity, motion, and which bodies touch. Collision batches are inputs to `HandleCollision`, each pair a snapshot of two bodies. The engine's point query plus distance filter is an abstract occupancy predicate on the probed height.
- Floating-point rounding. Positions, radii and the scale factor are exact reals.
- `Math.random`. The drawn level is an argument in 1..3.
- `setTimeout` timing. A scheduled timer is a counter, and its firing is the method `CooldownElapsed`.
- Game.Session.Init: requires that no piece is aimed. This holds at page load and after game over, which is the only state from which the restart button is reachable.
- Game.Session.CurrentRadius: states only a lower bound for an aimed piece, not that it is the table radius of that piece's level, which its body computes.
- Bodies.SetX, Bodies.Release: their own contracts state only that the world keeps its length. Their full effect is stated by `Bodies.SetXEffect` and `Bodies.ReleaseEffect`.
- Uniqueness of body ids in the world is not part of `Valid`. Ids below the next id are invariant, and fresh bodies get the next id.
