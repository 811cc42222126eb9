# Froggy Jump: the gameplay core in Dafny

Froggy Jump is a browser game. A frog hops forward, row by row, across a pond of
three lanes. It lands on lily pads, and it sinks if it lands on water. This project
models the game logic of `script.js` and proves properties about it:

- **The row generator** (`generateRow`). A cursor, `lastSafeLane`, moves by at most
  one lane per row. The lane it lands on always gets a pad. The other lanes get a pad
  when a coin comes up.
- **The world strip.** `generateInitialWorld` builds a fully paved safe zone of
  three rows, followed by seventeen generated rows. `spawnNextRows` appends five rows
  beyond the furthest row and culls pads more than five rows behind the frog.
- **The jump state machine.** This covers `jump`, `checkCollision`, `die`,
  `createFrog`, `resetGame`, `startGame`, the landing part of an `animate` frame, and
  the arrow keys of `onKeyDown`.
- **Whole runs.** Any sequence of page events (reset, start, key, frame) keeps an
  invariant, starting from the page load.

The invariant has these parts:
- The frog is always in a lane.
- Its row equals the score.
- Pads are listed in creation order, so no (lane, row) pair appears twice.
- A route of pads, each one jump from the last, runs from the frog's row to the
  furthest row. That row is row 19 plus five rows per completed block of five points.
- That route starts at row 0 or later. No pad lies below its start, and every pad is in
  a lane, so no pad is at a negative row and the rows from the lowest pad to the furthest
  have no gaps.

Randomness is a parameter. Each generated row consumes one `RowDraw`:
- an index that picks one of the legal moves;
- one coin per lane for the "extra pad" draw.

Times are whole milliseconds, passed in where the source calls `performance.now()`.

Files:
- `board.dfy`: `Options` and `Board`. Lanes, platforms, creation order and routes.
- `generator.dfy`: `Generator`. `generateRow` and the cursor threaded through it.
- `world.dfy`: `WorldStrip`. The initial world, extension, culling and the route
  guarantee.
- `game.dfy`: `Gameplay`. The frog, the jump state machine and the keys.
- `runs.dfy`: `Runs`. Page events, whole runs and the invariant.

## Model

| member | source | states |
|---|---|---|
| Generator.LegalMovesExactly | script.js:197-200 | Staying (0) is always a legal move. -1 is legal exactly when the cursor is above lane 0, and +1 exactly when it is below lane 2. From any lane, the legal moves are exactly the steps of at most one lane that stay on the pond. |
| Generator.LegalMoves | script.js:197-200 | There are between one and three legal moves. |
| Generator.PickMove | script.js:202 | The random pick always selects one of the listed legal moves. |
| Generator.EveryLegalMoveIsDrawn | script.js:202 | Every legal move is selected by some pick, so the pick parameter loses no behaviour. |
| Generator.SafeLane | script.js:202-204 | The new guaranteed lane is one jump from the old cursor, and it stays in lanes 0..2 when the cursor was. |
| Generator.PadContents | script.js:207-219 | A lane holds at most one pad, in its own lane and row. The pad is there exactly when the lane is the guaranteed lane or its coin came up. |
| Generator.GenerateRow | script.js:194-221 | The cursor left for the next row is the new guaranteed lane. |
| Generator.RowContents | script.js:194-221 | A generated row holds pads only in that row and only in valid lanes. The guaranteed lane is one jump from the old cursor and always has a pad. Any other lane has a pad exactly when its coin came up. |
| Generator.RowShape | script.js:207-220 | A row's pads are listed left to right with no lane twice. From a valid cursor a row has between one and three pads. |
| Generator.CursorAfter | script.js:203-204 | After n rows the cursor is still in a lane, and it has moved at most n lanes. |
| Generator.SafeLanes | script.js:202-204 | There is one guaranteed lane per generated row. The first is one jump from the starting cursor, and the last is the cursor left behind. |
| Generator.GenerateRows | script.js:250-252 | n consecutive `generateRow` calls leave the cursor at `CursorAfter`. Every pad they create lies in the n rows asked for, in a valid lane. |
| Generator.GeneratedRowsOrdered | script.js:250-252 | Consecutive generated rows list their pads in creation order, with no (lane, row) pair twice. |
| Generator.GeneratedRowsCrossable | script.js:194-221 | The guaranteed lanes of consecutive generated rows form a route through them, each lane a pad one jump from the previous one. |
| Board.PathIsIndexed | script.js:201-204 | The recursive definition of a route agrees, in both directions, with the lane-by-lane one: lane i has a pad in row start+i, and neighbouring lanes are one jump apart. |
| Board.PathAt | script.js:201-204 | Each lane of a route is a valid lane with a pad in its row, one jump from the next lane. |
| Board.PathOccupiesRows | script.js:201-204 | Every row a route crosses holds a pad. |
| Board.OrderedIsUnique | script.js:207-220 | Pads in creation order never repeat a (lane, row) pair. |
| WorldStrip.FullRow | script.js:243-247 | A paved row holds exactly the three lanes of that row, left to right. |
| WorldStrip.SafeZone | script.js:243-247 | The safe zone holds exactly lanes 0..2 of rows 0..2, in creation order. |
| WorldStrip.GenerateInitialWorld | script.js:223-253 | Old pads are dropped. Rows 0..2 are paved in every lane. Every pad lies in rows 0..19 in a valid lane. The cursor ends in a lane: the one reached from lane 1 by seventeen moves. |
| WorldStrip.InitialWorldOrdered | script.js:231-252 | The initial world lists its pads in creation order, so no (lane, row) pair occurs twice. |
| WorldStrip.InitialWorldRoute | script.js:250-252 | Rows 3..19 of the initial world are crossed by their guaranteed lanes. |
| WorldStrip.InitialWorldRows | script.js:231-252 | Every row 0..19 of the initial world holds a pad, and row 19 is the furthest row. |
| WorldStrip.InitialWorldCrossable | script.js:223-253 | The initial world has a route of 20 lanes. It starts at the frog's lane 1 of row 0, ends in the cursor lane of row 19, and nothing lies beyond row 19. |
| WorldStrip.FurthestRow | script.js:256 | The maximum row is missing exactly when there are no pads. |
| WorldStrip.FurthestRowBounds | script.js:256 | When pads exist, the maximum row is the row of some pad, and no pad lies beyond it. |
| WorldStrip.FurthestRowIs | script.js:256 | A pad that no pad lies beyond gives the maximum row. |
| WorldStrip.Cull | script.js:263-271 | Culling never lengthens the list. |
| WorldStrip.CullMembers | script.js:263-271 | A pad survives culling exactly when it was present and lies at or ahead of the threshold. |
| WorldStrip.CullAppend | script.js:263-271 | Culling distributes over concatenation, so survivors keep their relative order. |
| WorldStrip.CullKeepsAhead | script.js:263-271 | A list lying wholly at or ahead of the threshold is left exactly as it was. |
| WorldStrip.CullOrdered | script.js:263-271 | Culling preserves creation order. |
| WorldStrip.CullIdempotent | script.js:263-271 | Culling twice at one threshold is the same as culling once. |
| WorldStrip.CullKeepsPath | script.js:263-271 | A route lying at or ahead of the threshold survives culling. |
| WorldStrip.CullKeepsFurthest | script.js:256-271 | Culling below the furthest pad leaves the furthest row unchanged. |
| WorldStrip.Extend | script.js:256-260 | After the five new rows, the cursor is the one the five draws lead to. |
| WorldStrip.ExtendAdvancesFront | script.js:256-260 | From furthest row f, the new rows f+1..f+5 are crossed by their guaranteed lanes, and nothing lies beyond f+5. |
| WorldStrip.AppendRows | script.js:256-260 | Rows crossed by a route, appended after rows up to f, make a route in the whole list with nothing beyond f+5. |
| WorldStrip.SpawnNextRows | script.js:255-272 | The cursor moves on by the five draws, even when there are no pads. |
| WorldStrip.SpawnCulls | script.js:263-271 | Nothing more than five rows behind the frog survives. Every old pad at or ahead of that threshold survives. An empty world stays empty. |
| WorldStrip.SpawnKeepsPadsFrom | script.js:255-272 | If every pad was in a lane at or above row `bottom`, then after `spawnNextRows` every pad is in a lane at or above both `bottom` and the cull threshold. |
| WorldStrip.SpawnAdvancesFront | script.js:255-272 | From furthest row f, and with the cull threshold at most f+5, the furthest row after `spawnNextRows` is exactly f+5. |
| WorldStrip.SpawnContents | script.js:255-272 | The result is the old pads that survive the cull, unchanged and in their order, followed by all five new rows. This holds when the threshold is at most one row past the old front. |
| WorldStrip.SpawnKeepsOrdered | script.js:255-272 | `spawnNextRows` keeps creation order, so it never duplicates a (lane, row) pair. |
| WorldStrip.OrderedAfter | script.js:256-260 | Proof helper: rows generated beyond the furthest row come after every old pad in creation order. |
| WorldStrip.FrontIsFurthest | script.js:256 | The end of a guaranteed route is the maximum row over all pads. |
| WorldStrip.FrontFromParts | script.js:256-260 | Proof helper: a route that ends in the cursor lane, with nothing beyond its last row, is a guaranteed route. |
| WorldStrip.SafeZoneRoute | script.js:243-247 | The three paved rows are crossed straight up the centre lane. |
| WorldStrip.RouteStart | script.js:263-264 | Proof helper: the later of a route's start row and the cull threshold. CullKeepsRoute proves the culled route is kept from that row on. |
| WorldStrip.ExtendKeepsRoute | script.js:256-260 | The five new rows continue the world's guaranteed route up to the new front, five rows further. |
| WorldStrip.CullKeepsRoute | script.js:263-271 | Culling at or below the front keeps the part of the route at or ahead of the threshold. |
| WorldStrip.SpawnCullsRoute | script.js:255-272 | The cull step of `spawnNextRows` keeps the extended route from the threshold on. |
| WorldStrip.SpawnKeepsPath | script.js:255-272 | After `spawnNextRows`, a route leads from the cull threshold (or the old start) to the new furthest row, five rows beyond the old one, with no gaps. |
| WorldStrip.HasPlatformAt | script.js:313 | The `some` scan finds a pad exactly when the (lane, row) pair is in the list. |
| Gameplay.CreateFrog | script.js:134-142 | A new frog stands in lane 1 of row 0 and is not jumping. |
| Gameplay.ResetGame | script.js:446-470 | A reset produces a fresh initial world, a fresh frog and score 0. The frog is alive, and play is on exactly when asked for. |
| Gameplay.StartGame | script.js:439-444 | The start button switches play on and changes nothing else. |
| Gameplay.Die | script.js:321-323 | Dying sets the dead flag and stops play. World, frog and score are unchanged. |
| Gameplay.Jump | script.js:276-300 | A jump is rejected, and nothing changes, when the frog is airborne, dead or not playing, or would leave lanes 0..2. An accepted jump moves one row forward and `laneOffset` lanes sideways, records the take-off time and scores one point. It spawns new rows with the frog's new row exactly when the new score is a multiple of 5, and otherwise leaves the world alone. |
| Gameplay.ScoringJumpResult | script.js:276-300 | An accepted jump that makes the score a multiple of five leaves the whole state determined: the world after `spawnNextRows` at the frog's new row, the frog one row on and `laneOffset` lanes across, in the air since `now`, one more point, playing and alive. |
| Gameplay.JumpTakesOffUnlessRejected | script.js:277-282 | A jump changes the state exactly when none of the guards (airborne, dead, not playing, off the pond) applies. |
| Gameplay.DeadFrogCannotJump | script.js:277 | After `die`, every jump, key and frame leaves the state unchanged. |
| Gameplay.NoDoubleJump | script.js:277-285 | A second jump while the first is in the air is rejected. |
| Gameplay.CheckCollision | script.js:302-319 | Nothing happens until 300 ms after take-off or while not jumping. After that the frog lands, and world and score are unchanged. It dies exactly when no pad lies at its lane and row. Landing on a pad leaves the phase flags alone. |
| Gameplay.LandingTiming | script.js:305-308 | Before take-off + 300 ms the landing check is a no-op. From then on, it lands the frog. |
| Gameplay.CheckCollisionIdempotent | script.js:308-310 | The landing check fires at most once per jump: every later check is a no-op. |
| Gameplay.JumpThenLand | script.js:276-319 | A whole jump: the frog stays in the air until 300 ms have passed, then lands one row ahead with one more point. It is dead exactly when the world after the jump has no pad at its new lane and row, and it is playing exactly when alive. |
| Gameplay.Tick | script.js:343-361 | A frame changes nothing unless the game is being played and the frog is alive. Otherwise it runs the landing check. |
| Gameplay.KeyOffset | script.js:393-400 | Left maps to offset -1, right to +1 and up to 0. Every other key maps to nothing. |
| Gameplay.OnKeyDown | script.js:393-400 | A key does nothing unless play is on and it is an arrow key. Otherwise it requests a jump with that key's offset. |
| Gameplay.KeysSteer | script.js:393-400 | While playing, a key changes the state exactly when it is an arrow key whose jump is accepted. The frog then moves one row on: one lane left for the left arrow, one lane right for the right arrow, and straight ahead for the up arrow. |
| Runs.FrontRow | script.js:256-260 | The expected furthest row is at least 15 rows ahead of the score. |
| Runs.FrontRowStep | script.js:293-299 | The expected front moves by 5 rows exactly when a point makes the score a multiple of 5, and otherwise stays put. |
| Runs.InvConsequences | script.js:255-319 | In any state satisfying the invariant, the furthest row is `FrontRow(score)`, at least 15 rows ahead of the frog. Every row from the frog's to the furthest holds a pad. Every pad is in a lane at row 0 or later, and every row from any pad's row to the furthest holds a pad, so the rows have no gaps. No (lane, row) pair occurs twice. |
| Runs.InvIgnoresPhase | script.js:302-323 | Changing only the phase flags and the jump fields keeps the invariant. |
| Runs.ResetEstablishesInv | script.js:446-470 | Every reset establishes the invariant. |
| Runs.JumpPreservesInv | script.js:276-300 | Every jump, accepted or rejected, keeps the invariant. |
| Runs.QuietJumpPreservesInv | script.js:284-296 | A jump that does not spawn keeps the invariant. |
| Runs.MovePreservesInv | script.js:284-296 | Moving one row and one point in the same world keeps the invariant while the front stays put. |
| Runs.ScoringJumpPreservesInv | script.js:296-299 | A jump that spawns keeps the invariant: the route continues through the five new rows. |
| Runs.ScoringStep | script.js:293-299 | Proof helper: the state a scoring jump leaves keeps the invariant, given the route start that witnessed it before. |
| Runs.SpawnStep | script.js:255-272 | A spawn at the frog's new row keeps the cursor in range and the creation order. It continues the route to a front five rows further. |
| Runs.StartPreservesInv | script.js:439-444 | The start button keeps the invariant. |
| Runs.CheckCollisionPreservesInv | script.js:302-319 | The landing check keeps the invariant. |
| Runs.TickPreservesInv | script.js:343-361 | A frame keeps the invariant. |
| Runs.OnKeyDownPreservesInv | script.js:393-400 | A key press keeps the invariant. |
| Runs.Step | script.js:79-85 | A reset starts over at score 0 with a new frog, alive, playing exactly when asked to. A key scores at most one point. The start button and a frame leave the world, the score and the frog's position alone. |
| Runs.RunAppend | script.js:79-85 | Running two batches of events one after the other is the same as running them all in order. |
| Runs.Boot | script.js:88 | The page loads with nothing playing, alive, at score 0. |
| Runs.StepPreservesInv | script.js:79-88 | Every page event keeps the invariant. |
| Runs.RunPreservesInv | script.js:79-88 | Every sequence of page events keeps the invariant. |
| Runs.BootedRunKeepsInv | script.js:79-88 | Every run from the page load keeps the invariant. In particular, the score always equals the frog's row. |

## Left out

- Three.js scene, camera, renderer, meshes, materials and resizing (script.js:43-76, 89-90, 98-134, 164-188, 428-437) are left out. They are rendering only and never affect gameplay state. The listener wiring and the initial `resetGame(false)` (script.js:78-88) are modelled by `Runs.Step` and `Runs.Boot`.
- DOM updates are left out: the score text, the start and game-over screens, and the `setTimeout` that shows the final score (script.js:35-40, 326-334). They are presentation only.
- The jump arc, rotation, camera follow and sinking animation in `animate` (script.js:344-387) are left out. These are floating-point presentation. Only the `checkCollision` call of a frame is modelled (`Tick`).
- `updateFrogPosition` and lane widths (script.js:151-161) are left out. They turn lanes and rows into scene coordinates.
- `randomizePalette`, colours and flowers (script.js:92-96, 171, 180-186) are left out. They are cosmetic randomness.
- `onInput`, the mouse and touch handler (script.js:402-426), is left out. It maps screen halves to lane offsets and needs the window size.
- `Math.random` is left out. Its draws are `RowDraw` parameters, so every outcome of the random choices is covered, but the 40% probability itself (`Math.random() > 0.6`, script.js:213) is not modelled.
- `createPlatform`'s `active` flag (always true) and its mesh are left out.
- Fractional times are not modelled: times are integers. `performance.now()` is fractional, but the landing time is take-off plus `0.3 * 1000`, which is 300 in double arithmetic, so the comparison is kept.
- The restart button (script.js:85) calls `resetGame` with its click event, which is truthy. The model therefore treats a restart as `Reset(true)`, the same event as any reset that starts play.
- WorldStrip.SpawnNextRows on a world with no pads is modelled as all new rows culled, keeping only the moved cursor. In that case `Math.max` of no rows is minus infinity, so every new row is below the cull threshold. No reachable state has an empty world.
- WorldStrip.SpawnNextRows: the function's own contract states only the cursor. Its effect on the pads is stated by SpawnFromFront, SpawnCulls, SpawnContents, SpawnKeepsOrdered and SpawnKeepsPath.
- Generator.GenerateRow: the function's own contract states only the cursor. The pads of a row are characterised by RowContents, RowShape and PadContents.
- WorldStrip.FurthestRow: the function's own contract states only when the maximum exists. Its value is characterised by FurthestRowBounds and FurthestRowIs.
