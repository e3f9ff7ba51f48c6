# Maze horror raytracer: a verified model of the game core

This project models the game logic of a small first-person maze horror game
written in C on top of raylib. The model is written in Dafny and its
properties are proved.

- **The maze grid** (`src/maze.c`, `include/maze.h`).
  - A width×height row-major buffer of 4-bit wall masks.
  - `Maze_Create` starts every cell with all four walls.
  - `Maze_Generate` carves the grid by randomized depth-first backtracking over an explicit stack.
  - The read-only queries: `CellIndex`, `Maze_HasWall`, `Maze_CellToWorld`, `Maze_WorldToCell` and `Maze_IsExit`.
  - `Maze_GetWallRects`, which turns the standing walls into collision rectangles.
- **The torches and flame particles** (`src/assets.c`).
  - `Torches_Generate` collects every standing wall side and mounts a torch on a few of them.
  - `ParticleSystem_Create` and `ParticleSystem_Update`: a fixed-capacity particle pool. An emission accumulator fills it, and dead particles are removed by swapping in the last live one.
- **The game rules** (`src/main.c`).
  - The collision tests, and the "try X, then try Z" slide move shared by the player and the pursuers.
  - Jump and gravity under the ceiling.
  - The pursuers' seek, where the first capture ends the loop.
  - The exit test, and the starting layout that `InitGame` builds.

Modules, one per file:

| file | module | contents |
|---|---|---|
| `raylib_types.dfy` | `RaylibTypes` | the raylib value records, squared distance, the C float-to-int cast |
| `maze_flags.dfy` | `MazeFlags` | the wall bit flags and the `Cell` and `WallRect` records |
| `maze_grid.dfy` | `MazeGrid` | indexing, wall tests, cell/world conversion |
| `maze_topology.dfy` | `MazeTopology` | shape invariants of a mask buffer, the effect of one carve, passage counting, reachability, perfect mazes |
| `maze_search.dfy` | `MazeSearch` | the invariant of the depth-first search and one lemma per step |
| `maze_build.dfy` | `MazeBuild` | class `Maze`: creation, the random neighbour choice, generation |
| `maze_walls.dfy` | `MazeWalls` | `Maze_GetWallRects`, as corrected and as written |
| `collision.dfy` | `Collision` | `clampf`, the circle tests, `CollidesAny`, the slide move |
| `torches.dfy` | `Torches` | `Torches_Generate` |
| `particles.dfy` | `Particles` | class `ParticleSystem` |
| `game.dfy` | `Game` | the frame rules and class `World` (the main loop's variables, `InitGame`, one PLAYING frame) |

How the source's effects appear in the model:

- **Floats** are mathematical reals. A C cast `(int)f` is truncation toward zero (`RaylibTypes.Trunc`).
- **`rand()`** is an oracle function `rand: nat -> nat`, read at consecutive call numbers `k, k + 1, …`. Every method that draws from it returns the next call number. Every proof holds for every oracle.
- **`sqrtf`** is an oracle `sqrt: real -> real`.
- **Failing allocations** are boolean parameters. `Game.Allocations` gathers the ones `InitGame` makes.
- **Buffers updated in place** are arrays: the mask buffer, `visited`, the stack, the three direction tables, the wall rectangles, the torch buffer, the particle buffer and the pursuers.
- **Records the source updates in place** are classes: `Maze`, `ParticleSystem`, and `World` for the main loop's variables.

## Model

| member | source | states |
|---|---|---|
| MazeFlags.FlagsAreDistinctBits | include/maze.h:7-11 | The four direction flags are distinct single bits. Each lies inside MAZE_ALL and their union is MAZE_ALL. |
| MazeGrid.TablesAligned | src/maze.c:110-113 | Entry i of the dx/dy tables is the step of direction i. The opposite table holds the flag pointing straight back. |
| MazeGrid.CellIndex | src/maze.c:7-10 | The result is -1 exactly for positions outside the grid. Otherwise it is an index inside the width*height buffer. |
| MazeGrid.CellIndexDecodes | src/maze.c:7-10 | An in-grid index decodes back to its column (`% width`) and row (`/ width`). |
| MazeGrid.CellIndexInjective | src/maze.c:7-10 | Distinct in-grid cells never share a byte of the buffer. |
| MazeGrid.SameCellSameIndex | src/maze.c:7-10 | Two in-grid positions share an index if and only if they are the same cell. |
| MazeGrid.IndexCell | src/maze.c:7-10 | Every buffer index is the index of some in-grid cell. |
| MazeGrid.IsValidUnvisited | src/maze.c:13-17 | Definition: the position is inside the grid and its visited flag is clear. |
| MazeGrid.IsValidUnvisitedMeaning | src/maze.c:13-17 | A position is a valid unvisited cell exactly when some unvisited slot of the buffer decodes to it (column `i % width`, row `i / width`). |
| MazeGrid.HasWall | src/maze.c:154-158 | Definition: true off the grid, otherwise the direction's bit of the cell's mask. Its properties are OutsideIsSolid and HasWallInGrid. |
| MazeGrid.OutsideIsSolid | src/maze.c:154-156 | Every side of a position outside the grid counts as a wall. |
| MazeWalls.HasWallInGrid | src/maze.c:154-158 | Inside the grid, a wall is present exactly when its bit is set in the cell's mask. |
| MazeGrid.WorldToCellInsideCell | src/maze.c:229-243 | Every world point in the square of an in-grid cell maps back to that cell under the truncating conversion. The west and north edges belong to the square. |
| MazeGrid.CellWorldRoundTrip | src/maze.c:229-243 | `WorldToCell(CellToWorld(x, y)) == (x, y)` for every in-grid cell. |
| MazeGrid.CellToWorld | src/maze.c:229-234 | Definition: the world XZ centre of a cell, the maze centred on the origin. Partner: CellWorldRoundTrip. |
| MazeGrid.WorldToCell | src/maze.c:237-243 | Definition: the cell under a world XZ point, with the C cast's truncation toward zero. Partner: WorldToCellInsideCell. |
| MazeGrid.IsExit | src/maze.c:246-248 | Definition: the cell equals the exit cell. Used by Game.Outcome and Game.World.Frame. |
| MazeBuild.Maze.constructor | src/maze.c:57-73 | A fresh mask buffer of width*height cells, all of them MAZE_ALL. The start is (0,0) and the exit is (width-1,height-1). |
| MazeBuild.Create | src/maze.c:51-76 | Null exactly when width<1, height<1, cellSize≤0 or one of the two allocations fails. Otherwise a fresh, fully walled maze with the start and exit corners. |
| MazeTopology.AllClosedIsWellFormed | src/maze.c:67-70 | A fully walled grid has masks in 0..15, symmetric walls and a closed boundary, and every wall test on it answers true. |
| MazeTopology.Carve | src/maze.c:138-139 | Definition: the two mask updates of one carve, clearing a cell's wall toward a direction and the neighbour's opposite wall. Its properties are CarveEffect and the Carve* lemmas below. |
| MazeTopology.ClosedHasNoPassages | src/maze.c:67-70 | A fully walled grid has no passage. |
| MazeTopology.CarveEffect | src/maze.c:138-139 | A carve removes exactly two wall faces, the two sides of one shared wall, and leaves every other wall in place. |
| MazeTopology.CarvePreservesShape | src/maze.c:131-142 | Carving toward an in-grid neighbour keeps masks in 0..15, keeps walls symmetric and never opens the boundary. |
| MazeTopology.CarveKeepsSymmetric | src/maze.c:138-139 | Adjacent cells still agree about every wall after a carve. |
| MazeTopology.CarveKeepsBoundary | src/maze.c:138-139 | The outer boundary stays walled after a carve. |
| MazeTopology.CarveKeepsMasksInRange | src/maze.c:138-139 | Every mask stays within MAZE_ALL after a carve. |
| MazeTopology.ConnectedOpens | src/maze.c:138-139 | Opening walls never disconnects a cell from the start. |
| MazeSearch.WallSeenFromBothSides | src/maze.c:110-113 | In a symmetric grid, a cell's wall toward a neighbour is present exactly when the neighbour's opposite wall is. |
| MazeSearch.CarveAddsOnePassage | src/maze.c:131-142 | Carving from a cell into a fully walled neighbour opens exactly one passage. |
| MazeSearch.CarveOnlyOpens | src/maze.c:138-139 | A carve never closes a wall. |
| MazeSearch.InvariantInit | src/maze.c:102-107 | With only (0,0) visited and stacked, the search invariant holds on a fully walled grid. |
| MazeSearch.InvariantPush | src/maze.c:131-142 | Carving into an unvisited neighbour, marking it and pushing it keeps the invariant. The invariant has four parts: unvisited cells keep all their walls, passages number one less than visited cells, every visited cell reaches the start, and a visited cell with an unvisited neighbour is on the stack. |
| MazeSearch.InvariantPop | src/maze.c:143-146 | Popping a cell with no unvisited neighbour keeps the invariant. |
| MazeSearch.InvariantFinal | src/maze.c:116-147 | When the stack runs empty, every cell is visited and the grid is a perfect maze: well formed, width*height-1 passages, every cell reachable from the start. |
| MazeSearch.AllVisited | src/maze.c:116-147 | Suppose the start is visited and no visited cell has an unvisited neighbour. Then every cell is visited. |
| MazeSearch.LoopPush | src/maze.c:131-142 | A push keeps the loop invariant and strictly raises the number of visited cells, up to at most width*height. |
| MazeSearch.LoopPop | src/maze.c:143-146 | A pop keeps the loop invariant. |
| MazeBuild.Maze.Generate | src/maze.c:87-151 | The search only opens walls and keeps the shape. Nothing changes when a work buffer cannot be allocated. With both buffers and a fully walled start, the result is a perfect maze. |
| MazeBuild.SearchStep | src/maze.c:116-146 | One loop turn keeps the loop invariant (the stack stays within width*height) and takes three rand() calls. It either raises the visited count or shrinks the stack, which proves that the loop ends. |
| MazeBuild.Forward | src/maze.c:131-142 | The carving branch keeps the loop invariant and visits one more cell. |
| MazeBuild.PushNeighbour | src/maze.c:131-142 | Both faces of the shared wall are cleared, the neighbour is marked visited and it is pushed. Nothing else changes. |
| MazeBuild.GetRandomNeighbor | src/maze.c:20-48 | It reports a direction exactly when some neighbour is in the grid and unvisited, whatever the shuffle. The reported direction is a flag that leads to such a neighbour. Three rand() calls are made. |
| MazeBuild.FirstOpen | src/maze.c:39-47 | The scan returns the first table entry that leads to an in-grid unvisited cell, or 4 when there is none. |
| MazeBuild.Shuffle | src/maze.c:26-37 | The three tables stay aligned entry by entry, and the flags stay a permutation of the four directions. |
| MazeBuild.Swap | src/maze.c:28-36 | The three-assignment exchange swaps two entries and leaves the rest alone. |
| MazeBuild.SwapKeepsAligned | src/maze.c:26-37 | Swapping the same two entries of all three tables keeps them aligned. |
| MazeBuild.DirectionLeadsOut | src/maze.c:39-45 | An entry of a shuffled table that leads to an unvisited cell is a direction flag, and the cell has an unvisited neighbour. |
| MazeBuild.NoDirectionLeadsOut | src/maze.c:39-47 | When no entry of a shuffled table leads to an unvisited cell, the cell has no unvisited neighbour at all. |
| MazeBuild.DirectionIndex | src/maze.c:123-129 | For a direction flag the result is its position in the table. For any other value it is 0. |
| MazeWalls.CellRectsCount | src/maze.c:175-221 | A cell emits one rectangle per wall it is responsible for: North and West, East in the last column, South in the last row. |
| MazeWalls.AllRectsBound | src/maze.c:161-226 | A maze has at most 2·W·H + W + H wall rectangles. |
| MazeWalls.AllRects | src/maze.c:161-226 | Definition: every rectangle of the maze in the scan's order, row by row and cell by cell, each cell giving its North, West, last-column East and last-row South walls. |
| MazeWalls.AsWritten | src/maze.c:161-226 | Definition: what Maze_GetWallRects stores as written, with the capacity test only at the loop heads. Its properties are AsWrittenOverflows, AsWrittenOverrun and AsWrittenRoomy. |
| MazeWalls.GetWallRects | src/maze.c:161-226 | The count is 0 for a missing maze or buffer or a non-positive maxRects. Otherwise count = min(maxRects, number of rectangles of the maze), and the buffer holds the first `count` rectangles in scan order. |
| MazeWalls.Scan | src/maze.c:168-221 | The row loop fills the buffer with the rectangles of the maze, up to the capacity. |
| MazeWalls.EmitRow | src/maze.c:169-221 | The cell loop appends the rectangles of one row, up to the capacity. |
| MazeWalls.EmitCell | src/maze.c:175-221 | One cell appends its North, West, last-column East and last-row South rectangles, each kept only while there is room. |
| MazeWalls.AsWrittenOverflows | src/maze.c:168-221 | Take a 1×1 fully walled maze with maxRects = 1. The code as written stores 4 rectangles. |
| MazeWalls.AsWrittenOverrun | src/maze.c:168-221 | The code as written overruns its buffer by at most 3 rectangles. |
| MazeWalls.AsWrittenRoomy | src/maze.c:168-221 | When every rectangle fits, the code as written stores exactly what the corrected scan stores. |
| Collision.Clamp | src/main.c:45-47 | Below lo the result is lo. At or above lo and above hi it is hi, also for an empty interval lo > hi. For lo ≤ hi the result lies in [lo, hi], and it equals v exactly when v already does. |
| Collision.ClampIsNearest | src/main.c:45-47 | The clamped value is the point of [lo, hi] nearest to v. |
| Collision.NearestIsClosest | src/main.c:50-56 | The clamped point lies in the rectangle, and no point of the rectangle is closer to the centre. |
| Collision.CircleRectIntersect | src/main.c:50-56 | Definition: the squared distance from the centre to the clamped nearest point is at most r². Partner: CircleRectMeaning. |
| Collision.CircleRectMeaning | src/main.c:50-56 | For a rectangle with non-negative extent, the test holds exactly when some point of the rectangle lies within r of the centre, boundary included. |
| Collision.CircleRectInside | src/main.c:50-56 | A centre inside the rectangle always collides. |
| Collision.CircleCircleIntersect | src/main.c:59-65 | Definition: the squared distance of the centres is at most (r1 + r2)². Partners: CircleCircleSymmetric and CircleCircleTouching. |
| Collision.CircleCircleSymmetric | src/main.c:59-65 | The circle test does not depend on the order of the circles. |
| Collision.CircleCircleTouching | src/main.c:59-65 | Circles exactly r1 + r2 apart count as touching. |
| Collision.CollidesAny | src/main.c:68-74 | The result is true exactly when one of the first `count` walls touches the circle, and false for count ≤ 0. |
| Collision.SlideMove | src/main.c:459-477 | Definition: the x step alone, kept if the circle is free there, then the z step from the resulting x. Partners: SlideMoveStaysFree, SlideMoveOutcomes and MoveAxisSeparated. |
| Collision.SlideMoveStaysFree | src/main.c:459-477 | A collision-free position stays collision-free after the slide move. |
| Collision.SlideMoveOutcomes | src/main.c:459-477 | Each coordinate takes its whole step or stays. With no walls the whole step is taken. When both half-steps are blocked nothing moves. |
| Collision.SlideAlongWall | src/main.c:459-477 | A worked example, not the general property (that is SlideMoveStaysFree and SlideMoveOutcomes): from (0,0), the step (1,1) against a wall over x∈[0.5,1.5], z∈[-1,1] keeps only its free component and ends at (0,1). |
| Collision.MoveAxisSeparated | src/main.c:526-539 | The two CollidesAny calls compute the slide move over the live walls, and a collision-free start stays collision-free. |
| Game.PlayerStep | src/main.c:459-477 | The player's slide along its wish never enters a wall from a free position. |
| Game.VerticalStep | src/main.c:480-498 | After jump and gravity the feet are at most WALL_HEIGHT − PLAYER_EYE_HEIGHT. The player is on the ground exactly when standing there without a jump press. |
| Game.VerticalCases | src/main.c:480-498 | Standing without a jump gives rest at 0. A jump rises at JUMP_SPEED unless the ceiling stops it, and at the ceiling upward speed is zeroed. In the air the velocity gains GRAVITY·dt, and a falling player never gains upward speed. |
| Game.Pursue | src/main.c:506-540 | A pursuer keeps its speed, radius, height and y. From a collision-free position it stays collision-free. |
| Game.PursuerOnPlayerStays | src/main.c:515-516 | A pursuer within 0.001 of the player does not move. |
| Game.Chase | src/main.c:501-548 | Definition: the pursuer loop from an index on, where each pursuer moves and is then tested, and the first capture stops the loop. Partners: ChaseOrder and World.ChaseAll. |
| Game.ChaseOrder | src/main.c:505-547 | In the pursuer loop every pursuer up to the catching one moves once and is tested at its new position. Only the last tested one catches. Pursuers after a capture are neither moved nor tested. |
| Game.ChaseStep | src/main.c:505-547 | One loop turn either stops with the capture or goes on with the next pursuer. |
| Game.ChaseKeepsFree | src/main.c:526-539 | Pursuers clear of every wall stay clear of every wall. |
| Game.FrameKeepsFree | src/main.c:459-547 | A playing frame keeps the player and every pursuer clear of every wall. |
| Game.Outcome | src/main.c:543-555 | Reaching the exit wins, even in a frame with a capture. Otherwise a capture ends the game. Otherwise play goes on. |
| Game.StartLayout | src/main.c:137-171 | On the 15×15 maze of 3-unit cells, the player starts in cell (0,0), away from the exit. Each pursuer starts in its own cell: the exit, (14,0) and (0,14). No pursuer touches the player at the start. |
| Game.World.constructor | src/main.c:338-374 | The main loop's variables as declared: no maze, walls, torches or particle systems, the player at the origin on the ground, and PLAYING. |
| Game.World.InitGame | src/main.c:76-177 | Creation failure leaves no maze and changes nothing else. The maze is a fresh 15×15 grid of 3-unit cells, perfect when its work buffers allocate. A failed wall buffer stops there. Otherwise the wall buffer holds exactly the rectangles that Maze_GetWallRects as written stores, all the maze's rectangles; then torches and flames are built, the player and the pursuers are placed, the view is level and the game is PLAYING. |
| Game.World.Populate | src/main.c:114-176 | Walls, torches and flames are built on the maze, then the bodies are placed and play starts. |
| Game.World.PlaceBodies | src/main.c:134-176 | The player is at the start cell's centre on the floor. The pursuers are at the exit, (width-1,0) and (0,height-1), with speed 3.5, radius 0.35 and height 2.2. Yaw and pitch are 0 and the game is PLAYING. |
| Game.NewMaze | src/maze.c:51-151 | The game's maze is null exactly when an allocation fails. Otherwise it is fresh and 15×15 with the corner start and exit, and perfect when the work buffers allocate. |
| Game.Furnish | src/main.c:114-132 | A wall buffer of 900 rectangles holds the first rectangles of the maze, and, when all of them fit, exactly what the scan as written stores. The torches placed along its walls follow. There is one particle system slot per torch, and a slot is null exactly when its allocation failed. |
| Game.GameWallsAsWritten | src/main.c:113-120 | On the game's 15×15 maze there are at most 480 wall rectangles, fewer than the 900 slots, so the scan as written stores exactly the maze's rectangles and never overruns. |
| Game.CreateSystems | src/main.c:125-131 | Each slot holds an empty 20-particle system, or null when its allocation failed. |
| Game.World.Frame | src/main.c:431-556 | Outside PLAYING nothing changes. In PLAYING the new state is fixed in order: the player's slide move, then jump and gravity, then the pursuer loop from the player's new position, then the outcome with the exit test last. |
| Game.World.MovePlayer | src/main.c:459-477 | The player's x and z become the slide move along its wish, at walking or running speed. |
| Game.World.Jump | src/main.c:480-498 | The vertical position, velocity and ground flag become VerticalStep's. |
| Game.World.ChaseAll | src/main.c:501-548 | The pursuers and the capture flag become those of the pursuer loop, with its break. |
| Game.World.PursueOne | src/main.c:506-546 | One pursuer moves as Pursue says, and the capture test uses its new position. |
| Torches.CollectedBound | src/assets.c:147-170 | After y rows and x more cells at most 4·(y·W + x) sides are collected, so the 4·W·H scratch buffer is never overrun. |
| Torches.Collected | src/assets.c:150-170 | Definition: the standing sides of the first rows and cells, in scan order, north, south, west, east per cell. Partners: CollectedBound, CollectedAreWalls and CollectWalls. |
| Torches.CollectedAreWalls | src/assets.c:150-170 | Every collected entry is a standing side of an in-grid cell, placed at the middle of that side. |
| Torches.TorchAtPlacement | src/assets.c:175-219 | A torch hangs at height 2.0, 0.11 behind its wall line along a unit normal. Along the wall it lies between 0.25 and cellSize−0.25. Its flicker phase is in [0, 6.28) and its intensity in [0.6, 0.9). |
| Torches.TorchAt | src/assets.c:180-219 | Definition: the torch on one side from three draws, giving its offset along the wall, flicker phase and intensity. Partner: TorchAtPlacement. |
| Torches.PlaceBound | src/assets.c:173-223 | The placement never exceeds maxTorches, adds at most one torch per wall, and only appends. |
| Torches.Place | src/assets.c:173-223 | Definition: the placement loop, with one chance draw per wall and three more per torch, stopping at maxTorches. Partners: PlaceBound, PlacedOnWalls and PlaceTorches. |
| Torches.PlacedOnWalls | src/assets.c:173-223 | Every placed torch is mounted on one of the collected walls. |
| Torches.Generate | src/assets.c:129-227 | There is no buffer and a count of 0 for a missing maze or output, maxTorches ≤ 0 or a failed allocation. Otherwise there are maxTorches slots, whose first `count` entries are the torches the placement loop mounts. |
| Torches.GenerateBounds | src/assets.c:129-227 | The count is at most maxTorches and the collected side count at most 4·W·H. |
| Torches.CollectWalls | src/assets.c:147-170 | The collection loop writes exactly the standing sides, in scan order. |
| Torches.CollectCell | src/assets.c:152-168 | One cell appends its standing sides in the order north, south, west, east. |
| Torches.PlaceTorches | src/assets.c:173-223 | The placement loop produces the torches and the next rand() call number of the placement function. |
| Particles.NewParticleRanges | src/assets.c:294-311 | A new particle has life 1.0, sits 0.25 above the emitter, and has velocity, lifetime and colour within the ranges the formulas allow. |
| Particles.NewParticle | src/assets.c:294-310 | Definition: a particle at the emitter raised by 0.25, with full life and six rand() draws in reading order. Partner: NewParticleRanges. |
| Particles.EmittedFresh | src/assets.c:294-301 | Every particle emitted in an update starts at full life just above the emitter. |
| Particles.EmitCount | src/assets.c:292 | The number emitted is the whole part of the accumulator, cut down to the free slots. It is 0 when either is not positive. |
| Particles.Advance | src/assets.c:318-324 | One step ages a particle by exactly dt and leaves its lifetime, size and colour unchanged. |
| Particles.Fraction | src/assets.c:288-290 | The accumulator keeps only the part after truncation: it lies in (-1, 1), and is non-negative for a non-negative sum. |
| Particles.SurvivorsAreAdvancedLiving | src/assets.c:314-332 | Survivors are alive, and they are exactly the particles advanced once whose life stayed positive. |
| Particles.SwapRemoveKeepsSurvivors | src/assets.c:327-331 | Replacing a dead particle by the last live one leaves the survivors unchanged as a multiset. |
| Particles.Create | src/assets.c:255-272 | Null exactly when an allocation fails. Otherwise the system is empty with the given capacity, emit rate 15 and accumulator 0. |
| Particles.ParticleSystem.constructor | src/assets.c:264-269 | An empty pool of the given capacity with rate 15, accumulator 0 and the emitter at the origin. |
| Particles.ParticleSystem.Update | src/assets.c:282-334 | Afterwards activeParticles ≤ maxParticles, and the accumulator keeps its fraction. Six rand() calls are made per emitted particle. The live particles are, as a multiset, the survivors of the old live ones plus the emitted ones, and each has life > 0. |
| Particles.ParticleSystem.Accumulate | src/assets.c:288-290 | toEmit is the truncated sum, and the accumulator keeps the rest. |
| Particles.ParticleSystem.Emit | src/assets.c:292-312 | The live particles gain exactly EmitCount new particles, appended in order. |
| Particles.ParticleSystem.Push | src/assets.c:293-311 | The particle is appended to the live ones. |
| Particles.ParticleSystem.Step | src/assets.c:314-332 | The live particles become, as a multiset, the survivors of the old ones, each with life > 0. |
| Particles.ParticleSystem.SwapOut | src/assets.c:327-330 | The last live particle moves into the slot and the count drops by one. |
| Particles.ParticleSystem.StepSlot | src/assets.c:316-331 | One loop pass keeps the loop invariant and strictly shrinks the slots left to visit. |
| Particles.ParticleSystem.DropSlot | src/assets.c:327-331 | A dead particle is dropped and the loop invariant holds for the same slot. |
| Particles.ParticleSystem.KeepSlot | src/assets.c:316-324 | A living particle is written back advanced and the loop moves on. |
| Particles.KeepStep | src/assets.c:316-324 | Writing back a living particle keeps the loop invariant one slot further on. |
| Particles.RemoveStep | src/assets.c:327-331 | Swap-removing a dead particle keeps the loop invariant at the same slot (the `i--`). |
| Particles.StepDone | src/assets.c:314 | After the last slot, the live particles are the survivors and all are alive. |
| Particles.UpdateSystem | src/assets.c:282-334 | A missing system changes nothing and uses no rand() call. A present one is updated as ParticleSystem.Update states: the emitter moves, the accumulator keeps its fraction, six rand() calls are made per emitted particle, the live particles are the multiset of survivors of the old and emitted ones, and each is alive. |
| RaylibTypes.Trunc | src/maze.c:238-239 | The cast truncates toward zero: the result is within 1 of the value, on the side of zero. |

## Left out

- IEEE float rounding, infinities and NaN: all floats are reals. For example, 0.11f and 0.08f are exact here.
- `sqrtf` is an oracle. The normalisation of the wish vector (src/main.c:452-457) is left out: the wish direction is an input of the frame. A pursuer's step is the direction divided by the oracle's value.
- Key polling, mouse look and the camera trigonometry. The frame's input is the wish direction, the run key and a fresh press of the jump key.
- `rand()` is an oracle, with RAND_MAX set to the glibc value 2147483647. The C order of the six `rand()` calls in a particle's initializer is unspecified, and the model takes them in reading order.
- `malloc` and `calloc` are boolean parameters that say whether each allocation succeeds. Particles.Create reads a negative capacity as a failed allocation.
- Torches.Generate: the scratch buffer of wall sides (src/assets.c:147) is used without a NULL check, and the model lets that allocation succeed.
- Torches.Generate: the `outTorches` pointer is modelled as a flag saying whether it was given, and the buffer is the method's result.
- `free` and `Maze_Destroy`: InitGame drops its references to the old objects. The model does not track memory ownership.
- MazeBuild.GetRandomNeighbor: it reads `visited` as a sequence of its contents, so aliasing is not modelled. Its `*outDir` is a result, left 0 when no neighbour is found, where C leaves it untouched.
- MazeBuild.Maze.Generate: a perfect maze is promised only when the grid starts fully walled. This is the only way the game calls it, right after Maze_Create. The `!maze->cells` early return is not modelled, since a `Maze` always has its buffer.
- Game.World.Frame requires a maze and a wall buffer. After a failed InitGame the C frame would read a NULL maze and a NULL wall buffer with a stale count, and the model does not cover that undefined behaviour.
- Game.World.InitGame: the pursuer array is fixed at the game's three (SCARY_CHAR_COUNT). The branches for a NULL array or fewer pursuers (src/main.c:138, 148, 160) are not modelled.
- Game.World.InitGame: the maze is fixed at the game's 15×15 grid of 3-unit cells. A failed maze allocation leaves the wall and torch counts at their old values, as in the C code.
- The spawn layout and steering follow the code, not the design notes: the pursuers start at fixed cells, with no random placement, and steer by a direct seek with no random heading perturbation.
- Best-time persistence, a restart key beyond InitGame itself, and the win/lose HUD are outside the game logic.
- `Torches_Update` flicker wrapping, `Lighting_UpdateTorchLights` (a no-op) and all rendering and texture generation have no stateable behaviour beyond drawing.
- Exact reproducibility of a seeded maze is implicit: Maze.Generate reads `rand()` only through the oracle, but its contract does not pin down the exact masks a given oracle yields.
- `WallRect.isVertical` follows the code. It is true for West and East segments, the ones that run along Z, although the header's comment says "N/S".
- `Maze_WorldToCell` truncates toward zero, as its C cast does, rather than flooring. A point just west or north of the grid, within one cell, maps to column or row 0.

## Findings

| source | as written | input that shows it | evidently intended | confidence | as-written member | corrected member |
|---|---|---|---|---|---|---|
| src/maze.c:168-221 | The `count < maxRects` capacity test runs only at the loop heads, before each cell. One cell can then write up to four rectangles. | A 1×1 maze with all four walls and maxRects = 1: four rectangles are written into a buffer of one. | Test the capacity before every write, so that at most maxRects rectangles are stored. | not executed | MazeWalls.AsWrittenOverflows | MazeWalls.GetWallRects |

In the game itself the buffer holds 900 entries, and MazeWalls.AllRectsBound shows that a 15×15 maze has at most 480 rectangles. The overrun needs a smaller buffer.
