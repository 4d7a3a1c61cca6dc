# haxagon: board engine, playing mode and mode stack

Haxagon is a puzzle game played on a hexagonal board of coloured marbles.
Marbles spawn one at a time along the board's wall and fall outwards
under gravity. Touching marbles of one colour form a blob, and a blob of at
least the clearing size (four in every preset) clears and scores. The player draws closed loops
through neighbouring marbles. A loop rotates the marbles along it one step.
A loop that is a regular hexagon with corners of one colour deletes every
marble of that colour instead. The game is lost when a marble is due to
spawn and there is no empty cell left to plan it on.

This Dafny project models that core in nine modules:

- `Hex`: the hexagonal geometry the game uses from the hex2d crate, defined
  from scratch. It covers axial coordinates, the six directions and
  angles, distance, rings, the board range and direction from the centre.
- `Marbles`: marble colours, `Marble::random` (the random draw is a
  parameter), `Marble::another`, board actions and their durations, the
  settings presets, and the spawn-timer tiers of `timer_max`.
- `Gravity`: `is_in_bounds`, `is_solid`, `gravity_step` and
  `gravity_all`. It proves that falling ends: every step strictly lowers a
  height measure taken from the geometry.
- `Blobs`: `floodfill` and `find_blobs` as loop methods over the marble map.
- `Spawn`: `find_next_spawnpoint`. It follows the wall with the left hand
  and falls back to the nearest empty cell, and gravity then shunts the result.
- `Actions`: the specifications of the three actions (Cycle, DeleteColor,
  ClearBlobs) and of the spawn retry loop.
- `Engine`: the `Board` as a class whose fields are updated in place. It
  covers `new`, `spawn_marble`, `gravitate`, `execute_action`,
  `push_action` and `tick`.
- `Playing`: `is_pattern_valid`, `pattern_to_action` with its hexagon
  test loop, and the `ModePlaying` class with the pattern-drawing branch
  of `actually_update`.
- `Modes`: `Transition` and `Transition::apply` over a stack of modes,
  with the `on_reveal` calls kept in a log.

## Model

| member | source | states |
|---|---|---|
| Hex.AngleBetween | src/modes/playing/mod.rs:284-287 | the angle from one direction to another turns the first into the second, and it is Forward exactly when the two are equal |
| Hex.Neighbors | src/model.rs:346 | there are six neighbours, and the one at index d is the step in direction d |
| Hex.DistanceFacts | src/model.rs:134-136 | hex distance is non-negative, zero exactly between equal cells, symmetric, and half the sum of the cube-coordinate differences |
| Hex.RingIsDistanceFromOrigin | src/model.rs:134-136 | a cell's ring is its distance from the centre, the quantity `is_in_bounds` compares with the radius |
| Hex.AdjacentIffStep | src/modes/playing/mod.rs:380 | two cells are at distance 1 exactly when one step in some direction leads from one to the other, and adjacency is symmetric |
| Hex.DirectionTo | src/modes/playing/mod.rs:280-283 | the direction found between two neighbours steps from the first onto the second |
| Hex.DirectionFromCenterNoneIffOrigin | src/model.rs:296 | only the centre has no direction from the centre, so only there does gravity default to YX |
| Hex.Range | src/model.rs:207-212 | `range_iter(r)` lists exactly the cells of ring r or less |
| Hex.RingCells | src/model.rs:46-50 | `ring_iter(d)` lists exactly the cells of ring d |
| Marbles.Random | src/model.rs:389-401 | a random marble is never Pink and its index is below the colour count |
| Marbles.AnotherAdvances | src/model.rs:405-416 | `another` moves one step round the seven colours |
| Marbles.AnotherNIndex | src/model.rs:405-416 | k calls of `another` move k steps round the seven colours |
| Marbles.AnotherIsSevenCycle | src/model.rs:405-416 | the first seven colours `another` visits are all different, and the seventh call returns to the start |
| Marbles.Time | src/model.rs:434-447 | every action takes at least one tick |
| Marbles.ClassicSettings | src/model.rs:471-481 | the classic preset has its border within the radius, clears blobs of at least two and has at least one colour |
| Marbles.AdvancedSettings | src/model.rs:483-493 | the advanced preset has its border within the radius, clears blobs of at least two and has at least one colour |
| Marbles.NoGravitySettings | src/model.rs:495-505 | the no-gravity preset has its border within the radius, clears blobs of at least two and has at least one colour |
| Marbles.TimerMax | src/model.rs:218-228 | the spawn interval stays between 20 and 60 ticks, is at most 36 after two minutes, and is 20 from ten minutes on (36000 ticks) |
| Gravity.FirstOpenUnlessPropped | src/model.rs:298-320 | there is no target exactly when two of the three cells below are solid; otherwise the target is the first open one in Forward, Left, Right order |
| Gravity.GravityStep | src/model.rs:295-321 | a marble stays exactly when two of the three cells below it are solid; otherwise it moves to the first open one, which is an empty cell of the board |
| Gravity.CandidatesLower | src/model.rs:296-303 | each of the three cells below a cell is strictly lower in the gravity height order |
| Gravity.GravityStepDescends | src/model.rs:295-321 | a cell that falls lies on the board and lands strictly lower, at a non-negative height |
| Gravity.GravityAll | src/model.rs:324-329 | the cell reached is at rest, a cell at rest is returned unchanged, an empty cell of the board stays an empty cell of the board, and a cell off the board is unchanged |
| Gravity.Move | src/model.rs:281-282 | moving a marble empties its old cell, fills the new one with it and leaves every other marble alone |
| Gravity.MoveKeepsColors | src/model.rs:281-282 | moving a marble keeps the number of marbles of every colour |
| Gravity.MoveLowersHeight | src/model.rs:279-284 | a falling marble lowers the board's total height, so `gravitate` ends |
| Blobs.Floodfill | src/model.rs:332-350 | an empty cell gives nothing. A marble gives a blob that starts at it, is of one colour, connected and without repeats, and contains every same-coloured neighbour of its cells |
| Blobs.BlobWithinClosed | src/model.rs:332-350 | any blob that meets a flood fill lies inside it and is no longer, so the flood fill is the whole blob |
| Blobs.FindBlobs | src/model.rs:111-127 | every blob returned is a whole one-colour blob of at least `clear_blob_size` cells, the blobs share no cell, there are none exactly when nothing is clearable, and their cells are exactly the clearable cells |
| Blobs.FlattenDistinct | src/model.rs:256 | flattening disjoint blobs that have no repeats lists no cell twice |
| Spawn.WallFollow | src/model.rs:191-203 | the direction found keeps the left hand on the wall and is the first such in `Direction::all` order; finding none means no direction does |
| Spawn.NearestEmptyIsNearest | src/model.rs:204-213 | the fallback finds a cell exactly when there is an empty one, and it is empty and no farther from the previous spawn point than any other empty cell |
| Spawn.NearestEmptyIsFirst | src/model.rs:207-212 | among equally near empty cells, the first in range order is taken, as `min_by_key` does |
| Spawn.NextSpawnpointEmpty | src/model.rs:189-216 | the next spawn point is an empty cell of the board that would not fall, and there is none exactly when the board is full |
| Spawn.NextSpawnpointFollowsWall | src/model.rs:191-203 | when some direction hugs the wall, the spawn point is the first such neighbour, shunted by gravity |
| Spawn.NextSpawnpointFallsBack | src/model.rs:204-215 | when no direction hugs the wall, the spawn point is a nearest empty cell of the board, shunted by gravity |
| Actions.SwappedContent | src/model.rs:236-245 | after exchanging two cells, each holds what the other held, an empty cell included, and all other cells are unchanged |
| Actions.SwapKeepsColors | src/model.rs:236-245 | exchanging two cells keeps the number of marbles of every colour |
| Actions.RotateStep | src/model.rs:236-245 | each swap of the reversed `windows(2)` loop carries the rotation one cell further towards the start of the path |
| Actions.RotationDeterminesBoard | src/model.rs:233-247 | two boards that are both the rotation of one board along a path, and agree with it off the path, are equal |
| Actions.CycleKeepsInBounds | src/model.rs:233-247 | a Cycle along cells of the board leaves every marble on the board |
| Actions.WithoutColorFacts | src/model.rs:248-252 | deleting a colour leaves none of it, keeps every other marble in place, and removes exactly as many marbles as there were of that colour |
| Actions.ClearedCells | src/model.rs:253-259 | the flattened blobs list every clearable cell exactly once, and they are empty exactly when no blob was found |
| Actions.ClearScore | src/model.rs:258-260 | clearing n marbles scores n, plus one more for each marble past the sixth, times the multiplier and the number of blobs |
| Actions.ExecutedFacts | src/model.rs:231-270 | whatever the action, the score does not go down, and the queue is unchanged or gains the next ClearBlobs at its front |
| Actions.ExecutedInBounds | src/model.rs:231-270 | an action whose cells are on the board leaves every marble on the board |
| Actions.ClearStepFacts | src/model.rs:253-268 | a clearing step does not lower the score, only re-queues ClearBlobs(multiplier + 1), and keeps marbles on the board |
| Actions.RetryStep | src/model.rs:361-369 | a colour that makes a big enough blob is one of the neighbours' colours, so the retry loop moves to `another` with one more neighbour colour ruled out |
| Actions.TriedAtMostSix | src/model.rs:367-368 | since there are seven colours and only six neighbours, the retry loop fails at most six times |
| Actions.FailingColorIsNeighbor | src/model.rs:361-365 | a fresh marble whose flood fill reaches another marble has the colour of one of its neighbours |
| Actions.SpawnKeepsNoClearable | src/model.rs:362-365 | when the flood fill from the new marble is smaller than the clearing size, so is every blob through it, and a board with nothing clearable stays so |
| Actions.Attempt | src/model.rs:361-369 | one pass of the retry loop either places a marble that fits or moves on to the next colour with the retry state kept |
| Engine.KeysOf | src/model.rs:277 | the keys are listed once each and are exactly the map's keys |
| Engine.InitialSpawnAtRest | src/model.rs:32-54 | on the new board, the planned spawn point (pad, 0) would not fall |
| Engine.InitialConsistent | src/model.rs:32-54 | the new board is consistent: marbles on the board, an empty queue, and a planned spawn point at rest |
| Engine.Board.constructor | src/model.rs:32-54 | `Board::new` fills exactly the outer `border_width` rings with nothing clearable, zeroes score, queue and timers, and plans the first spawn at (pad, 0) |
| Engine.Board.FillRings | src/model.rs:46-50 | the rings beyond `pad` and up to the radius are filled, and nothing is clearable |
| Engine.Board.SpawnRing | src/model.rs:47-49 | spawning along a ring fills exactly its cells on the board and keeps nothing clearable |
| Engine.Board.SpawnMarble | src/model.rs:355-371 | a marble is placed exactly when the cell is empty and on the board; only that cell changes; its colour is the first of the rotation from the rolled colour that makes no blob big enough to clear |
| Engine.Board.PlaceFitting | src/model.rs:360-370 | the retry loop ends with the first colour of the rotation from the rolled one that forms no clearable blob at the cell |
| Engine.Board.TryColor | src/model.rs:361-369 | one try puts the colour in the cell and reports a fit exactly when it forms no clearable blob there; otherwise it sets up the next colour |
| Engine.Board.GravityPass | src/model.rs:274-286 | one pass over the marbles keeps colour counts and keeps marbles on the board; if something moved, the total height fell, otherwise the board is at rest; a board already at rest moves nothing |
| Engine.Board.Fall | src/model.rs:279-285 | a marble moves exactly when `gravity_step` gives a target, and it moves to that target |
| Engine.Board.Gravitate | src/model.rs:272-292 | without gravity, or on a board already at rest, nothing changes; with gravity every marble ends at rest; colour counts are kept, and marbles stay on the board |
| Engine.Board.SwapCells | src/model.rs:237-244 | the contents of the two cells are exchanged |
| Engine.Board.CycleMarbles | src/model.rs:233-247 | with two or more distinct cells, the marbles rotate one step along the path; cells off the path and colour counts are unchanged |
| Engine.Board.DeleteColorMarbles | src/model.rs:248-252 | every marble of the colour is removed, and the score grows by their number |
| Engine.Board.ClearBlobsMarbles | src/model.rs:253-268 | the clearable cells are emptied and scored; the next ClearBlobs is queued at the front exactly when something was clearable |
| Engine.Board.RemoveAll | src/model.rs:264-266 | exactly the listed cells are emptied |
| Engine.Board.ExecuteAction | src/model.rs:231-270 | the board, score and queue change as the action's specification says |
| Engine.Board.PushAction | src/model.rs:139-141 | the action joins the back of the queue |
| Engine.Board.SpawnPhase | src/model.rs:58-71 | the spawn timer restarts when due; the game is lost exactly when it is due with no planned spawn point; otherwise a due spawn places, on an empty planned point, a marble of a colour that forms no clearable blob there (and nothing else changes without gravity), gravity then keeps the colours and leaves the board at rest, ClearBlobs(1) is queued, the next point is planned, and the board stays valid |
| Engine.Board.SpawnAt | src/model.rs:62-66 | on an empty planned point a marble of a fitting colour is placed and one marble is added; on a taken point the colours are kept; without gravity the board is exactly the one with the new marble, with gravity it ends at rest; ClearBlobs(1) is queued, the next spawn point is planned, and the board stays consistent |
| Engine.Board.PlaceAndFall | src/model.rs:63-64 | `spawn_marble` at the point and then `gravitate`: the same marble count, colours and final board as stated for SpawnAt |
| Engine.Board.PollAction | src/model.rs:73-91 | only ClearBlobs with nothing to clear leave the front of the queue; the action timer advances exactly when an action remains, and the action is due exactly when the timer reaches its time |
| Engine.Board.RunAction | src/model.rs:92-95 | the front action leaves the queue and is executed, the action timer restarts, the score does not fall, and everything stays on the board |
| Engine.Board.Settle | src/model.rs:96-102 | gravity runs, and the planned spawn point, if any, is shunted by gravity on the new board |
| Engine.Board.Tick | src/model.rs:57-108 | the game is lost exactly when the spawn timer runs out with no planned spawn point, and then nothing but the spawn timer changes; otherwise the tick count goes up by one, the spawn timer restarts when due, and the action timer stays put with an empty queue, goes up by one while the front action is not yet due, or restarts at 0 after an action ran; the score never falls, and the board stays valid |
| Playing.LinkedAt | src/modes/playing/mod.rs:374-383 | the pair check holds exactly when every consecutive pair are neighbours that both hold marbles |
| Playing.IsPatternValid | src/modes/playing/mod.rs:370-416 | a pattern that is not Invalid passes the pair check; a Finished pattern has at least four cells and ends where it starts; up to two cells it may continue exactly when it passes the pair check |
| Playing.ContinueIsDistinct | src/modes/playing/mod.rs:396-414 | a pattern grown one valid cell at a time that may still continue repeats no cell |
| Playing.ExtendKeepsWellDrawn | src/modes/playing/mod.rs:396-414 | extending a continuing pattern by a cell that is not refused keeps it free of crossings, and closes it exactly when the new cell is the first one and at least three came before |
| Playing.ExtendAcceptedIff | src/modes/playing/mod.rs:385-415 | conversely, a cell extending a continuing pattern is accepted (not Invalid) exactly when the pair check still passes and the pattern stays free of crossings |
| Playing.FinishedIsLoop | src/modes/playing/mod.rs:370-416 | a finished pattern is a closed loop of at least three distinct neighbouring marbles |
| Playing.TrianglePrefixes | src/modes/playing/mod.rs:385-415 | three mutually adjacent marbles drawn in order continue at every step and finish when the first is drawn again |
| Playing.Deltas | src/modes/playing/mod.rs:280-283 | the deltas hold one direction per step, each leading from a cell to the next |
| Playing.Angles | src/modes/playing/mod.rs:284-287 | the angles hold one turn per pair of consecutive deltas |
| Playing.SidesRegular | src/modes/playing/mod.rs:303-330 | the side loop succeeds exactly when every turn is Forward or a corner, all corners turn the same way, and all sides before a corner have the same length |
| Playing.IsHexagon | src/modes/playing/mod.rs:279-333 | the closure succeeds exactly when every corner and the first cell hold the same marble and the sides are regular |
| Playing.PatternToAction | src/modes/playing/mod.rs:276-346 | a finished hexagon deletes the colour of its first cell; any other finished loop cycles its cells without the repeated last one |
| Playing.LoopAction | src/modes/playing/mod.rs:335-345 | the cycle path has at least three distinct cells, all holding marbles, each next to the following one and the last next to the first |
| Playing.RingIsHexagon | src/modes/playing/mod.rs:279-333 | drawing the six neighbours of a cell, all of one colour, finishes as a hexagon |
| Playing.TriangleIsNoHexagon | src/modes/playing/mod.rs:279-333 | a three-cell loop is never a hexagon, since its turns are sharper than a corner |
| Playing.LoopActionInBounds | src/modes/playing/mod.rs:212-217 | the action of a finished loop on the board names only cells of the board |
| Playing.QueueGrows | src/modes/playing/mod.rs:215-217 | queuing the loop's action and ClearBlobs(0) keeps the board consistent |
| Playing.Extended | src/modes/playing/mod.rs:171-205 | holding the button either keeps the pattern or adds the pointed cell, which lies on the board and leaves the pattern not Invalid |
| Playing.ModePlaying.constructor | src/modes/playing/mod.rs:130-151 | the mode starts with a fresh board from the settings and no pattern |
| Playing.ModePlaying.UpdatePattern | src/modes/playing/mod.rs:164-222 | a click starts a pattern on a cell of the board; holding extends it; releasing queues the action of a finished pattern and ClearBlobs(0), then forgets the pattern |
| Playing.ModePlaying.Release | src/modes/playing/mod.rs:207-221 | a finished pattern queues its action followed by ClearBlobs(0); any other pattern queues nothing |
| Playing.ModePlaying.Update | src/modes/playing/mod.rs:154-264 | the pattern is handled against the board before the tick; the mode reports a loss exactly when the tick does; the score never falls |
| Modes.NoneKeepsStack | src/boilerplates.rs:68 | `None` leaves the stack alone and reveals nothing |
| Modes.SwapReplacesTop | src/boilerplates.rs:69-75 | `Swap` replaces the top (or adds one to an empty stack), keeps the rest, and reveals the new mode |
| Modes.PushAddsTop | src/boilerplates.rs:76-79 | `Push` keeps the old stack underneath and reveals the new top |
| Modes.PopRemovesTop | src/boilerplates.rs:80-90 | `Pop` removes exactly the top of a stack of two or more and hands it to the revealed mode below; otherwise nothing happens |
| Modes.PopNAndPushTruncates | src/boilerplates.rs:91-103 | `PopNAndPush` keeps the bottom max(lower limit, len - count) modes and pushes the new ones; popping only reveals the new top together with the removed modes |
| Modes.RevealsFinalTop | src/boilerplates.rs:66-105 | every transition but `None` and a refused `Pop` calls `on_reveal` exactly once, on the mode that ends on top |
| Modes.NeverEmptied | src/boilerplates.rs:80-103 | a stack with a mode on it keeps one through every transition |
| Modes.ModeStack.RevealTop | src/boilerplates.rs:23-28 | `on_reveal` is called on the top mode with the popped modes |
| Modes.ModeStack.Apply | src/boilerplates.rs:66-105 | `apply` reshapes the stack in place as the transition's specification says, and makes the `on_reveal` calls it lists |

## Left out

- Rendering, audio and music selection, assets, profiles, the pause check and `main.rs` are not modelled.
- `mouse_to_hex` and the `bg_funni_timer` background speed are floating-point code. The cell under the mouse is a parameter `pos`, and the background speed is left out.
- Marbles.TimerMax: the final division by `spawn_multiplier` is in `f32`, so only the integer tier table is modelled. The advanced preset's multiplier (1.2) and the no-gravity preset's multiplier (0.8) change the actual interval, so the timing is exact only for the classic preset (multiplier 1.0).
- Randomness: `Marble::random` takes a caller-supplied roll, `Board::new` takes a draw per cell, and the music track is not chosen.
- Hash-map iteration order: the order in which `gravitate` and `find_blobs` visit the marbles is an arbitrary choice, and only order-independent facts are proved.
- Engine.Board.Gravitate: the contract states that marbles end at rest with colour counts kept, but not which cell each marble ends in. That depends on the hash-map order.
- The hex2d crate is not part of this model. Its coordinates, directions, angles, distance, rings, range and `direction_from_center_cw` are defined from scratch. `range_iter` is listed row by row, which may differ from the crate's own order. The rings are listed row by row too, while `Board::new` walks `ring_iter` clockwise from the XY direction (src/model.rs:47), so the model's `Board::new` spends its random draws on the cells in a different order.
- Integer widths: score, timers and `tick_count` are unbounded, so the `u32` overflow of the source is not modelled. The saturating subtraction in `timer_max` and in the clearing score is modelled.
- Engine.Board.constructor: `Board::new` subtracts `border_width` from `radius` as unsigned numbers, so it requires `border_width <= radius`. It also requires `clear_blob_size >= 2` and at least one colour, as every preset has. With a clearing size of 1 the retry loop of `spawn_marble` never ends, and with no colour `Marble::random` panics.
- Modes.ModeStack.Apply: it requires what keeps `apply` from panicking. `PopNAndPush` needs `count` no larger than the stack, and at least one mode when it pushes nothing.
- The planned spawn point is not claimed to be always empty. A Cycle can move a marble onto it, and `spawn_marble` then refuses, as the code does. Only that the point is at rest is kept invariant.
- Modes are opaque values, and `on_reveal` is recorded in a log rather than run. The losing screen that `actually_update` swaps to is reported as the `lost` result of `ModePlaying.Update`.
- The sound played for the next action uses `get_score_from_action`. That function is not part of this model, and that sound code is left out.
- Marbles.Time: the contract states only that every duration is positive. The durations themselves (10, 30 and 20 ticks) are the function's values.
- Engine.Board.Tick: the contract states the loss condition, the spawn timer, the three ways the action timer can move, the tick count, the score and validity. It does not say which of those three happened, nor which action ran. The queue and action timer after the poll, and the marbles after a spawn or an action, are stated by SpawnPhase, SpawnAt, PollAction, RunAction and Settle, which it calls, not by Tick itself.
- Playing.ModePlaying.Update: the board after the tick is described by `Engine.Board.Tick`, not restated.
