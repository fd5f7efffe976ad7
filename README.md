# Vax-man game core in Dafny

This project models the game logic of `Pacman_pygame/main.py` ("Vax-man"), a Pac-Man-like game on a 15 × 15 board whose edges wrap around. The player collects dots and removes ghosts. The ghosts wander at random and double in number on every duplication tick. The game is won when no dots remain and lost when 50 or more ghosts exist.

The model has five modules, one per part of the game:

- `Geometry` (geometry.dfy): cells, the four directions in the order of `DIRECTIONS`, the wrapping step `% 15`, and `will_collide`. The collision test is written as the source computes it, as a pygame `colliderect` test of the 40-pixel square of the destination against each wall's square. It is then proved equal to "the wrapped destination is a wall cell".
- `Topology` (topology.dfy): `set_up_grid`. The first pass scans the map lines and collects walls (`'0'`), dots (`'1'`) and ghost spawns (`'2'`). The second pass collects the junction cells, which are the cells with more than two open exits.
- `Policy` (policy.dfy): `rand_direction` and one ghost's move. Each `randint` is an explicit input (`Draws`): the junction coin, the draw that removes the reverse direction, and the successive picks of the rejection loop.
- `Registry` (registry.dfy): the first-match scan that `player_at_ghost` and `player_at_dot` run, `list.remove`, and ghost duplication.
- `Simulation` (simulation.dfy): the class `Game`, which holds the state `play` mutates: walls, junctions, dots, ghosts, the player and the score. It has one method per kind of event, the frame (drain the events, then check win before loss) and the play loop, each proved against a function on `State` values.

The source uses one random stream. The model replaces it with explicit draws. The rejection loop in `rand_direction` stops at the first pick whose candidate does not collide. `Fits` says that the given draws fit: every pick the loop makes is in range, and one of them hits a candidate that does not collide. When a ghost tick's draws do not fit, `Game.Frame` ends the frame as `Hang`: the given draws do not end the loop. This does not mean the source loops forever. Longer draws might still end the loop. It does loop forever in a dead end entered head-on once the reverse is removed (`Policy.DeadEndNeverFits`). With two or more open exits, some draws always end it (`Policy.TwoExitsAlwaysFit`).

The game state that `play` changes is also modelled as a value. `State` holds the player, the ghosts, the dots and the score. `ApplyEvent` is one pass of the event loop's body. `RunEvents` and `RunFrame` cover one frame, and `PlayFrames` covers the play loop. The methods of `Game` are proved to produce exactly these states.

Some behaviour of the code is easy to miss:

- A duplicated ghost gets a freshly drawn direction (`Player.__init__`, line 75). It does not copy the direction of the ghost it duplicates.
- The map is not validated. Jagged rows and unknown characters raise no error.
- The junction scan's width is the length of the first line, trailing newline included.
- The game is lost at 50 ghosts (line 244). The file's opening comment says 40.
- The play loop always runs at least one frame (`game_over` starts false, line 191). A state that is already won or lost still handles the first frame's events before the end-of-frame check.

## Model

| member | source | states |
|---|---|---|
| `Geometry.Opposite` | Pacman_pygame/main.py:165 | the reverse direction has both vector components negated, and differs from the direction itself |
| `Geometry.Directions` | Pacman_pygame/main.py:62 | `DIRECTIONS`: right, left, down, up, in that order (definition) |
| `Geometry.DirectionsComplete` | Pacman_pygame/main.py:62 | `DIRECTIONS` lists every direction |
| `Geometry.Step` | Pacman_pygame/main.py:154-155 | the wrapped destination `((x+dx) % 15, (y+dy) % 15)` is always on the board |
| `Geometry.StepWraps` | Pacman_pygame/main.py:201-202 | from a cell on the board, a move off one edge lands on the opposite edge (-1 wraps to 14, 15 to 0); any other move is the plain sum |
| `Geometry.StepThenBack` | Pacman_pygame/main.py:208-209 | from a cell on the board, a wrapped move followed by a move in the reverse direction returns to the starting cell |
| `Geometry.CellRect` | Pacman_pygame/main.py:88-89 | the 40-pixel square a cell covers, as a wall's rect and as `next_rect` at lines 154-156 (definition) |
| `Geometry.Colliderect` | Pacman_pygame/main.py:157 | pygame's overlap test of two rectangles: each starts before the other ends, on both axes (definition; `SquaresCollideIffSameCell` characterises it on grid squares) |
| `Geometry.AnyCollides` | Pacman_pygame/main.py:157 | `any(colliderect ...)` over the wall list, first wall first (definition; `AnyCollidesIffMember` characterises it) |
| `Geometry.WillCollide` | Pacman_pygame/main.py:153-157 | the 40-pixel square of the wrapped destination overlaps some wall's square (definition; `WillCollideIffWall` characterises it) |
| `Geometry.SquaresCollideIffSameCell` | Pacman_pygame/main.py:154-157 | two 40-pixel grid-aligned squares `colliderect` exactly when they are the same cell |
| `Geometry.AnyCollidesIffMember` | Pacman_pygame/main.py:157 | `any(colliderect ...)` over the wall list is true exactly when the cell is in the list |
| `Geometry.WillCollideIffWall` | Pacman_pygame/main.py:153-157 | `will_collide(p, d)` holds iff the wrapped destination is a wall cell, and depends on nothing else |
| `Geometry.OffBoardWallNeverHit` | Pacman_pygame/main.py:154-157 | a wall parsed at a column or row outside 0..14 never blocks a move |
| `Topology.Cells` | Pacman_pygame/main.py:105-112 | the cells holding one character, in the row-major order of the first pass (definition; `CellsExactly` characterises it) |
| `Topology.CellsExactly` | Pacman_pygame/main.py:105-112 | a cell is listed for a character iff the map holds that character there (any other character, newline included, adds nothing); the list is in row-major order |
| `Topology.CellsDisjoint` | Pacman_pygame/main.py:107-112 | walls, dots and ghost spawns never share a cell |
| `Topology.ScanGrid` | Pacman_pygame/main.py:105-112 | the nested scan yields exactly the row-major lists of `'0'`, `'1'` and `'2'` cells |
| `Topology.OpenExits` | Pacman_pygame/main.py:117 | `count_valid_dirs`: the number of directions whose wrapped step does not collide (definition) |
| `Topology.IsJunction` | Pacman_pygame/main.py:118 | more than two open exits (definition; `JunctionIffAtMostOneWall` characterises it) |
| `Topology.JunctionIffAtMostOneWall` | Pacman_pygame/main.py:117-118 | more than two non-colliding directions iff at most one of the four wrapped neighbours is a wall |
| `Topology.Junctions` | Pacman_pygame/main.py:114-119 | the cells of the scanned rectangle that pass the junction test, row by row (definition; `JunctionsExactly` characterises it) |
| `Topology.ScanWidth` | Pacman_pygame/main.py:114-115 | the scan's width: the length of the first line, newline included, or 0 for an empty map (definition) |
| `Topology.JunctionsExactly` | Pacman_pygame/main.py:114-119 | a cell is a junction iff it lies in rows `0..len(grid)-1` and columns `0..len(grid[0])-1` and has more than two open exits; the list is row-major |
| `Topology.ScanWhere` | Pacman_pygame/main.py:114-115 | the nested row/column loops append exactly the cells that pass the test, row by row |
| `Topology.ScanJunctions` | Pacman_pygame/main.py:114-119 | the second pass yields exactly the junction cells of the scanned rectangle |
| `Policy.Candidates` | Pacman_pygame/main.py:163-165 | with the reverse removed, the three other directions in the order of `DIRECTIONS`; otherwise all four |
| `Policy.WithoutReverse` | Pacman_pygame/main.py:163-165 | `directions.remove` of the reverse on a copy of `DIRECTIONS` leaves exactly those three candidates, in order |
| `Policy.Redecides` | Pacman_pygame/main.py:161-162 | the ghost reconsiders iff its way ahead collides, or it is on a junction and the coin came up 1 (definition) |
| `Policy.FirstFree` | Pacman_pygame/main.py:166-168 | the rejection loop returns the candidate of the first non-colliding pick; there is none iff every pick collides |
| `Policy.Fits` | Pacman_pygame/main.py:161-168 | the given draws let `rand_direction` return: a ghost that keeps its direction draws nothing more; otherwise every pick is in range and one hits a free candidate (definition) |
| `Policy.SkipCollidingPick` | Pacman_pygame/main.py:167-168 | a pick whose candidate collides is redrawn: the loop's outcome is that of the remaining picks |
| `Policy.NextDirection` | Pacman_pygame/main.py:160-170 | the result never collides; without a reason to re-decide it is the current direction; when the reverse was removed it is never the reverse |
| `Policy.RandDirection` | Pacman_pygame/main.py:160-170 | the loop-based procedure returns exactly `NextDirection` for the same draws |
| `Policy.Advance` | Pacman_pygame/main.py:206-210 | a ghost takes the new direction and moves one wrapped cell along it; the new cell is on the board and not a wall |
| `Policy.DeadEndNeverFits` | Pacman_pygame/main.py:164-168 | in a dead end entered head-on, with the reverse removed, no draws let the loop end |
| `Policy.TwoExitsAlwaysFit` | Pacman_pygame/main.py:164-168 | with at least two open exits, some single pick ends the loop whichever way the reverse draw goes |
| `Registry.FirstIndex` | Pacman_pygame/main.py:174-175 | the index of the first entry equal to x, with no earlier one; the length of the list iff there is none |
| `Registry.FindFirst` | Pacman_pygame/main.py:174-175 | the loop finds the index of the first entry on the player's cell, or the length of the list when none is there; it equals `FirstIndex` |
| `Registry.RemoveAt` | Pacman_pygame/main.py:176 | removing one entry shortens the list by one and keeps the others in order |
| `Registry.RemoveAtMultiset` | Pacman_pygame/main.py:176 | removing entry i loses exactly one copy of that entry and nothing else |
| `Registry.RemoveFirst` | Pacman_pygame/main.py:165 | `list.remove(x)` drops the first entry equal to x (none before it is x) and keeps the rest in order |
| `Registry.RemoveFirstAt` | Pacman_pygame/main.py:165 | when the first x is at k, `list.remove(x)` drops entry k |
| `Registry.Capture` | Pacman_pygame/main.py:173-178 | the first ghost on the player's cell is removed and the rest keep their order; with no ghost there the list is unchanged; no ghost is added |
| `Registry.Collect` | Pacman_pygame/main.py:181-186 | the first dot on the player's cell is removed and the rest keep their order; with no dot there the list is unchanged; no dot is added |
| `Registry.Duplicated` | Pacman_pygame/main.py:218-222 | k ghosts become 2k; the first k are unchanged; new ghost k+i stands on ghost i's cell |
| `Registry.DuplicatedNext` | Pacman_pygame/main.py:219-222 | the loop's (i+1)-th append is a ghost on ghost i's cell with the direction its constructor drew |
| `Registry.DuplicatedCells` | Pacman_pygame/main.py:218-222 | after duplication every ghost stands on a cell some ghost stood on before |
| `Registry.DuplicatedDoublesPositions` | Pacman_pygame/main.py:218-222 | after duplication every occupied cell occurs exactly twice as often |
| `Registry.DuplicatedTimesCount` | Pacman_pygame/main.py:218-222 | n duplication ticks without captures turn k ghosts into k·2ⁿ |
| `Simulation.Outcome` | Pacman_pygame/main.py:238-249 | won iff no dots remain, even with 50 or more ghosts; lost iff dots remain and there are at least 50 ghosts; running otherwise |
| `Simulation.GameOver` | Pacman_pygame/main.py:191-249 | the play loop stops (lines 197-198, 234, 243, 249) after a quit or backspace, a win or a loss; also after a `Hang` frame, which only the model has (definition) |
| `Simulation.OneGhostLosesAfterSixDuplications` | Pacman_pygame/main.py:244 | from one ghost, 5 duplications (32 ghosts) leave the game running and 6 (64 ghosts) lose it while dots remain |
| `Simulation.Consistent` | Pacman_pygame/main.py:196-234 | the invariant of the game state: player on the board, score not negative, no ghost or dot on a wall (definition) |
| `Simulation.DrawsFit` | Pacman_pygame/main.py:205-207 | every ghost's draws let its `rand_direction` call return (definition) |
| `Simulation.PlayerMoved` | Pacman_pygame/main.py:200-203 | the player enters the wrapped neighbour iff it is not a wall cell, and otherwise stays; the direction is unchanged |
| `Simulation.PlayerTurned` | Pacman_pygame/main.py:224-232 | the direction becomes d iff the wrapped neighbour along d is not a wall cell; the position is unchanged |
| `Simulation.GhostsMoved` | Pacman_pygame/main.py:205-210 | ghost i advances under its own draws; every ghost ends on the board and off the walls |
| `Simulation.Resolved` | Pacman_pygame/main.py:212-216 | the capture check, then the dot check, on the player's cell, with 10 and 1 points (definition; `ResolvedCounts` states its effect) |
| `Simulation.ResolvedCounts` | Pacman_pygame/main.py:173-186 | one ghost and one dot at most are removed, each exactly when one is on the player's cell; the score grows by 10 per ghost and 1 per dot removed |
| `Simulation.Handles` | Pacman_pygame/main.py:205-207 | an event can be handled unless it is a ghost tick whose draws do not fit (definition) |
| `Simulation.Moved` | Pacman_pygame/main.py:200-210 | the movement part of an event: the player on a player tick, the ghosts on a ghost tick (definition) |
| `Simulation.ApplyEvent` | Pacman_pygame/main.py:197-232 | one pass of the event loop: only a move tick or a key changes the player, and a key never moves it; without movement or duplication only a capture changes the ghosts; a quit, backspace or other event only runs the checks; the ghost count never grows except on a duplication tick, which at most doubles it |
| `Simulation.EveryEventChecksPlayerCell` | Pacman_pygame/main.py:212-216 | for every kind of event, the dot and capture checks run on the player's cell after the move: the dot count drops by one iff a dot is there, and the score grows by 10 per capture and 1 per dot |
| `Simulation.ApplyEventKeepsConsistent` | Pacman_pygame/main.py:197-232 | every event keeps the invariant |
| `Simulation.RunEvents` | Pacman_pygame/main.py:196-232 | the event loop of one frame, stuck at the first ghost tick whose draws do not fit (definition) |
| `Simulation.RunEventsKeepsConsistent` | Pacman_pygame/main.py:196-232 | a frame's events keep the invariant, never add dots and never lower the score |
| `Simulation.QuitSeen` | Pacman_pygame/main.py:197-198 | some event among the first n is a quit or backspace (definition) |
| `Simulation.QuitSeenLast` | Pacman_pygame/main.py:197-198 | a quit among all events is one before the last, or the last |
| `Simulation.QuitAtLast` | Pacman_pygame/main.py:197-198 | the quit flag after the last event is the flag before it, or that event is a quit or backspace |
| `Simulation.RunEventsQuit` | Pacman_pygame/main.py:197-198 | a frame that completes has its quit flag set iff one of its events was a quit or a backspace key |
| `Simulation.StuckAt` | Pacman_pygame/main.py:205-207 | event i is a ghost tick reached with the earlier events handled, and its draws do not fit (definition) |
| `Simulation.StuckAtPrefix` | Pacman_pygame/main.py:196 | whether the frame sticks at event i does not depend on later events |
| `Simulation.StuckAtLast` | Pacman_pygame/main.py:196 | a frame is stuck after its last event iff it was stuck before it or sticks at it |
| `Simulation.HangHasCause` | Pacman_pygame/main.py:205-207 | a frame that hangs has a ghost tick, reached with the earlier events handled, whose draws do not fit |
| `Simulation.StuckAtHangs` | Pacman_pygame/main.py:205-207 | such a ghost tick makes the whole frame hang |
| `Simulation.RunEventsNext` | Pacman_pygame/main.py:196 | handling one more event: stuck stays stuck, an unfit ghost tick sticks, any other event is applied |
| `Simulation.StuckStays` | Pacman_pygame/main.py:196 | once stuck, a frame stays stuck at the same state whatever follows |
| `Simulation.GhostsGrowOnlyByDuplication` | Pacman_pygame/main.py:196-222 | a frame without duplication ticks ends with at most the ghosts it started with |
| `Simulation.RunFrame` | Pacman_pygame/main.py:196-249 | a frame handles its events, then checks for a win before a loss (definition) |
| `Simulation.ZeroGhostsNeverLose` | Pacman_pygame/main.py:196-249 | a frame that starts without ghosts ends without ghosts, and its end-of-frame check never reports a loss |
| `Simulation.PlayFrames` | Pacman_pygame/main.py:191-249 | the play loop always runs a first frame; after n frames at most n have run, fewer only when one ended the game, and the last one's verdict describes the final state |
| `Simulation.PlayFramesNext` | Pacman_pygame/main.py:193-196 | while no frame has ended the game, the loop runs the next frame from the state the last one left |
| `Simulation.EarlierFramesKeptRunning` | Pacman_pygame/main.py:193 | every frame before the last one played left the game running |
| `Simulation.StopsWhenOver` | Pacman_pygame/main.py:193 | once a frame ends the game, no further frame runs |
| `Simulation.ZeroGhostsNeverLoseGame` | Pacman_pygame/main.py:189-249 | a game that starts without ghosts keeps none over any number of frames and never ends lost |
| `Simulation.LastDotWinsDespiteGhosts` | Pacman_pygame/main.py:191-249 | a state already lost by the ghost count, whose last dot is under the player with no ghost there, is won by its first frame of any unrelated event, and the score grows by 1 |
| `Simulation.Game.Valid` | Pacman_pygame/main.py:196-234 | the object's fields satisfy `Consistent` (definition) |
| `Simulation.Game.constructor` | Pacman_pygame/main.py:100-119 | walls, dots and spawns as parsed; every ghost at its spawn with the direction it drew; junctions as scanned; player at (0, 0) with score 0; the invariant holds |
| `Simulation.Game.MovePlayer` | Pacman_pygame/main.py:200-203 | the player becomes `PlayerMoved` of the old player |
| `Simulation.Game.Turn` | Pacman_pygame/main.py:224-232 | the player becomes `PlayerTurned` of the old player |
| `Simulation.Game.MoveGhosts` | Pacman_pygame/main.py:205-210 | the loop turns the ghost list into `GhostsMoved` of the old list; the invariant holds |
| `Simulation.Game.PlayerAtGhost` | Pacman_pygame/main.py:173-178 | returns true iff some ghost is on the player's cell; the list becomes `Capture` of the old list |
| `Simulation.Game.PlayerAtDot` | Pacman_pygame/main.py:181-186 | returns true iff a dot is on the player's cell; the list becomes `Collect` of the old list |
| `Simulation.Game.Resolve` | Pacman_pygame/main.py:212-216 | the state becomes `Resolved` of the old state, so only the first ghost and the first dot on the player's cell are removed |
| `Simulation.Game.DuplicateGhosts` | Pacman_pygame/main.py:218-222 | the loop turns the ghost list into its duplication; the invariant holds |
| `Simulation.Game.HandleEvent` | Pacman_pygame/main.py:196-234 | the new state is `ApplyEvent` of the old state and the event; quit iff a quit or backspace event |
| `Simulation.Game.Frame` | Pacman_pygame/main.py:193-249 | the verdict and the new state are `RunFrame` of the old state and the events; the invariant holds |
| `Simulation.Game.Play` | Pacman_pygame/main.py:189-249 | the frames played, the last verdict and the final state are `PlayFrames` of the old state; a first frame always runs; fewer frames than given only when one ended the game |

## Left out

- Rendering: `draw_window`, fonts, colours, screen positions and radii, the "YOU WIN" and "YOU LOSE" text, `pygame.display`, and the 3-second delay. None of these change the game state.
- File input: the map is given as its lines, each with its trailing newline, as `readlines` returns them.
- Timers, the event queue and the frame clock (`set_timer`, `event.get`, `clock.tick`): each frame is a given sequence of events.
- Key codes: a direction key arrives already mapped to its direction (`TurnKey`). Quit and backspace only set the quit flag. `pygame.quit` and `sys.exit` are process control.
- Probabilities: the 1/2, 2/3 and uniform distributions are not modelled. Every random result is an input, and each call of `rand_direction` gets its own draws. The order in which one shared random stream serves all calls is not modelled, including the direction drawn for the dummy player in the junction scan (line 116).
- Termination of the rejection loop: `RandDirection` requires draws that end the loop (`Fits`). At frame level, a ghost tick whose draws do not end the loop ends the frame as `Hang`. The frame stops there and keeps the state it had reached. Whether more draws would end the loop is not modelled, except in the dead-end and two-exit lemmas.
- Object identity: ghosts and dots are values in sequences, and the state `play` changes is also mirrored as a `State` value. `list.remove(ghost)` removes the very object the scan found, which is the entry at the index `FindFirst` returns. Aliasing between ghost objects is not modelled, and none is created.
- `Player.score` is kept as the `score` field of `Game`.
- Vectors: pygame `Vector2` floats are modelled as integers, since they only ever hold small whole numbers here.
- `colliderect`'s special case for rectangles of zero size: every rectangle here is 40 × 40.
