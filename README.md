# Pac-Fish grid pursuit engine in Dafny

This project models the simulation core of Pac-Fish, a Pac-Man style maze game
written in Python with pygame (`pacman_fish_game/pacman_fish.py`). The player is
a fish. It swims through a maze carved by recursive backtracking and eats the
pellet on every floor tile. Three sharks hunt it with breadth-first search.

The model covers:

- the tile grid and the pixel/tile conversions (`grid.dfy`, `coords.dfy`);
- the maze generator `make_maze` (`maze.dfy`);
- the path finder `bfs` (`pathfinding.dfy`);
- the fish's four-corner collision test `try_move` (`movement.dfy`);
- the pellet set built at start-up and the simulation half of one frame of
  the main loop (`game.dfy`);
- one shark frame as the code writes it, with the Python type of the shark's
  position tracked, which exposes a crash (`float_positions.dfy`, see
  Findings).

Python's lists of lists become `seq<seq<int>>` values indexed `g[y][x]`, where
1 is a wall and 0 is floor. The pellet set becomes a `set<Cell>`. The global
game state becomes the class `PacFish.Game`. Each shark, a dictionary that the
frame mutates in place, becomes the class `PacFish.Shark`.

The random source is a parameter:

- `make_maze` receives `draw: nat -> nat`, the stream of integers that
  `random.shuffle` consumes. CPython's shuffle swaps position `i` with
  position `randbelow(i + 1)` for `i` from the end down to 1.
- Each frame, each shark receives a `Roll`. It carries the frame's random
  draws (whether the shark wanders, and which direction it picks). It also
  carries the result of the float arithmetic the model does not carry out:
  whether the shark is within a pixel of its waypoint, and where its glide
  leaves it otherwise.

What is proved:

- **Maze.** The generator returns a `w` x `h` grid of 0s and 1s. Every odd
  cell is floor. Every cell with two even coordinates stays wall. The whole
  border stays wall when `w` and `h` are odd. Every floor cell can be walked
  to from (1, 1). One round of the generator carves in the first shuffled
  direction whose target is still wall, or pops the stack when there is none.
  A new game's grid keeps all of these facts, and the sharks spawn on floor.
- **Search.** `bfs` returns `None` exactly when the goal cannot be walked to.
  Otherwise it returns the cells after `start` of a walk that no other walk
  from start to goal undercuts. Such a path is empty exactly when start is the
  goal, runs over adjacent floor cells, ends at the goal, and never visits a
  cell twice. Every cell joins the queue at most once, so the search scans at
  most as many cells as there are floor tiles, plus the start.
- **Collision.** Sampling the four corner pixels of the fish's box is exact:
  a corner is in a wall tile iff the box overlaps a wall tile. So a fish clear
  of walls stays clear, whatever keys are held.
- **Frame invariant.** Each frame keeps the game's invariant:
  - pellets lie only on floor and are never put back;
  - the score is 10 for each floor tile that has lost its pellet;
  - the game is won exactly when no pellet is left;
  - the fish overlaps no wall;
  - every shark path runs over floor;
  - the game is over exactly when a shark overlaps the fish.

  A frame of a won or lost game changes nothing.
- **Float positions.** A shark's glide leaves its position a float, and a
  snap onto its next waypoint makes it an integer again. A re-plan that comes
  while the position still holds floats, away from the fish's tile, indexes
  the grid with floats and raises TypeError. The corrected frame, which takes the tile of an integer
  position, is the one `PacFish.Game.Tick` uses.

## Model

| member | source | states |
|---|---|---|
| Coords.PixelToGrid | pacman_fish_game/pacman_fish.py:85-86 | the tile returned is the one whose span of TILE pixels holds the pixel, on each axis |
| Coords.GridToPixel | pacman_fish_game/pacman_fish.py:87-88 | the pixel returned is a multiple of TILE on each axis, and dividing it by TILE gives the tile back |
| Coords.GridPixelRoundTrip | pacman_fish_game/pacman_fish.py:85-88 | converting a tile to pixels and back gives the same tile |
| Coords.PixelGridFloor | pacman_fish_game/pacman_fish.py:85-88 | a pixel lies between the top-left pixel of its tile and that of the next tile |
| Coords.PixelToGridUnique | pacman_fish_game/pacman_fish.py:85-86 | any tile whose pixel span holds the pixel is the tile it converts to |
| Movement.Collide | pacman_fish_game/pacman_fish.py:256-259 | two TILE x TILE rectangles intersect iff their corners are less than TILE apart on both axes |
| Movement.TryMove | pacman_fish_game/pacman_fish.py:190-198 | the move is taken whole when the moved box overlaps no in-bounds wall tile, and refused whole otherwise; a box clear of walls stays clear |
| Movement.SpanTiles | pacman_fish_game/pacman_fish.py:193-195 | a tile whose pixel span meets the box's span is the tile of the box's first pixel or of its last pixel |
| Movement.CornersDecideBox | pacman_fish_game/pacman_fish.py:193-197 | some corner pixel lies in a wall tile iff the box overlaps a wall tile |
| Movement.BoxOnTile | pacman_fish_game/pacman_fish.py:190-198 | a box standing exactly on a tile is clear of walls iff that tile is not a wall |
| Movement.OffGridNeverBlocks | pacman_fish_game/pacman_fish.py:196 | a move whose four corner pixels all lie outside the grid is always taken |
| Maze.Swap | pacman_fish_game/pacman_fish.py:46 | exchanging two positions keeps the length and the multiset of elements and changes only those two positions |
| Maze.Shuffle | pacman_fish_game/pacman_fish.py:46 | the shuffle of the directions is a permutation of them, whatever the random draws |
| Maze.MakeMaze | pacman_fish_game/pacman_fish.py:34-59 | a w x h grid of walls and floor: (1, 1) is floor, every odd cell is floor, cells with two even coordinates are walls, the border is wall when w and h are odd, and every floor cell can be walked to from (1, 1) |
| Maze.Advance | pacman_fish_game/pacman_fish.py:45-57 | one round of the generator keeps its invariant and shrinks its measure; it carves the target of the first direction whose target is an in-bounds wall, and the cell in between, pushes that target and takes it out of the walled odd cells, or, when no direction's target is a wall, leaves the grid and pops the stack |
| Maze.FirstOpen | pacman_fish_game/pacman_fish.py:48-55 | the index of the first direction whose target is an in-bounds wall, with no earlier such direction, or the number of directions when there is none |
| Maze.InitialInv | pacman_fish_game/pacman_fish.py:36-43 | the all-wall grid with (1, 1) carved, and (1, 1) on the stack, satisfy the generator's invariant, with every other odd cell still walled |
| Maze.CarveCells | pacman_fish_game/pacman_fish.py:49-52 | carving from an odd cell two steps to an in-bounds target makes exactly the target, which is odd, and the cell in between floor |
| Maze.CarveShape | pacman_fish_game/pacman_fish.py:50-52 | carving keeps the grid's shape: 0s and 1s, floor only inside the odd bounding box and never at two even coordinates |
| Maze.CorridorReachable | pacman_fish_game/pacman_fish.py:51-53 | adding a two-cell corridor off a reachable floor cell keeps every floor cell reachable from the root |
| Maze.CarveClosed | pacman_fish_game/pacman_fish.py:48-55 | after a carve, every odd floor cell off the stack still has no carvable neighbour |
| Maze.CarveStep | pacman_fish_game/pacman_fish.py:48-55 | carving from the top of the stack keeps the generator's invariant and removes the target from the set of walled odd cells |
| Maze.PopStep | pacman_fish_game/pacman_fish.py:56-57 | popping a top that has no carvable neighbour keeps the invariant |
| Maze.AllStepsTried | pacman_fish_game/pacman_fish.py:48-56 | when no direction of the shuffled four is carvable, the cell has no carvable neighbour |
| Maze.OddCellCarved | pacman_fish_game/pacman_fish.py:44-57 | once no floor odd cell has a carvable neighbour, every odd cell is floor |
| Maze.ClosedStep | pacman_fish_game/pacman_fish.py:48-50 | no two-cell step from a cell without a carvable neighbour reaches a wall |
| Maze.OpenOddFloor | pacman_fish_game/pacman_fish.py:36 | an odd cell of the grid that is not a wall is floor, since every cell holds 0 or 1 |
| Maze.Finished | pacman_fish_game/pacman_fish.py:44-59 | with the stack empty, the invariant gives every promise of the generator |
| Pathfinding.Reverse | pacman_fish_game/pacman_fish.py:75 | the reversed sequence has the same length and holds element `|s| - 1 - i` at position i |
| Pathfinding.ReverseSnoc | pacman_fish_game/pacman_fish.py:73-75 | reversing a sequence with an element appended puts that element first |
| Pathfinding.AdjacentStep | pacman_fish_game/pacman_fish.py:77 | every 4-neighbour is one of the four unit steps the search tries |
| Pathfinding.WalkSettled | pacman_fish_game/pacman_fish.py:66-81 | a walk from start that is no longer than the current level, or any walk once the queue is empty, ends at a discovered cell no deeper than the walk is long |
| Pathfinding.HeadIsNearest | pacman_fish_game/pacman_fish.py:66-68 | no walk from start to the head of the queue is shorter than the head's depth |
| Pathfinding.Exhausted | pacman_fish_game/pacman_fish.py:66-82 | once the queue is empty, every cell reachable from start has been discovered |
| Pathfinding.Around | pacman_fish_game/pacman_fish.py:77-78 | the four neighbours of a cell, in the scan's order, all different |
| Pathfinding.FreshMembers | pacman_fish_game/pacman_fish.py:77-81 | the first k steps of the scan discover exactly the undiscovered floor cells among the first k neighbours, none twice |
| Pathfinding.FreshNext | pacman_fish_game/pacman_fish.py:77-81 | one more step of the scan appends its neighbour exactly when it is an undiscovered floor cell, and that neighbour was not appended before |
| Pathfinding.ScanTake | pacman_fish_game/pacman_fish.py:79-81 | discovering an undiscovered floor neighbour keeps the scan's invariant one step further |
| Pathfinding.ScanSkip | pacman_fish_game/pacman_fish.py:79 | passing over a wall, an out-of-bounds cell or a known cell keeps the scan's invariant one step further |
| Pathfinding.ScanQueue | pacman_fish_game/pacman_fish.py:77-81 | after the scan the queue is the old queue followed by exactly the newly discovered cells in scan order, and a cell is known iff it was known before or was just discovered |
| Pathfinding.ScanLinks | pacman_fish_game/pacman_fish.py:79-81 | every newly discovered cell is a floor neighbour of the scanned cell and is in the queue |
| Pathfinding.ScanCovers | pacman_fish_game/pacman_fish.py:77-81 | after the scan every floor neighbour of the scanned cell is known |
| Pathfinding.Expand | pacman_fish_game/pacman_fish.py:77-81 | the neighbour scan keeps old links, gives each new cell the scanned cell as parent one level deeper, appends exactly the new cells to the queue in scan order without repeats, and discovers every floor neighbour |
| Pathfinding.Reconstruct | pacman_fish_game/pacman_fish.py:70-76 | following parent links back from the goal and reversing gives a walk from start to goal with one step per level of depth |
| Pathfinding.TreeStep | pacman_fish_game/pacman_fish.py:79-80 | discovering neighbours of a discovered cell keeps the parent links a tree rooted at start |
| Pathfinding.FrontierStep | pacman_fish_game/pacman_fish.py:67-81 | dequeuing the head and appending new cells one level deeper keeps the queue ordered by depth within two levels |
| Pathfinding.SettledStep | pacman_fish_game/pacman_fish.py:67-81 | after the head's scan, every cell that has left the queue has its floor neighbours discovered at most one level deeper |
| Pathfinding.DiscoverShrinks | pacman_fish_game/pacman_fish.py:79-80 | discovering a cell shrinks the number of cells left to discover |
| Pathfinding.CardMono | pacman_fish_game/pacman_fish.py:79-80 | a subset is no larger than its superset |
| Pathfinding.DistinctCard | pacman_fish_game/pacman_fish.py:66-81 | a sequence without repeats has as many distinct elements as positions |
| Pathfinding.JoinDistinct | pacman_fish_game/pacman_fish.py:79-81 | appending cells not known before, none twice, to a queue of known cells without repeats leaves no repeats |
| Pathfinding.OnceStep | pacman_fish_game/pacman_fish.py:67-81 | dequeuing the head and appending new cells keeps every known cell queued at most once, with the count of scanned cells and queued cells equal to the count of known cells |
| Pathfinding.ScanOnce | pacman_fish_game/pacman_fish.py:67-81 | a round's neighbour scan keeps every known cell queued at most once |
| Pathfinding.SearchStep | pacman_fish_game/pacman_fish.py:66-81 | a round whose head is not the goal keeps the search's loop invariant |
| Pathfinding.FoundShortest | pacman_fish_game/pacman_fish.py:68-76 | the path rebuilt when the goal is dequeued shows the goal reachable, and no walk from start to the goal is shorter |
| Pathfinding.NotFound | pacman_fish_game/pacman_fish.py:66-82 | a search whose queue runs dry without dequeuing the goal proves the goal unreachable |
| Pathfinding.Progress | pacman_fish_game/pacman_fish.py:66-81 | a round either discovers a new cell or shortens the queue, so the search terminates |
| Pathfinding.Round | pacman_fish_game/pacman_fish.py:66-81 | one round keeps the loop invariant, keeps every known cell queued at most once, and makes progress |
| Pathfinding.Bfs | pacman_fish_game/pacman_fish.py:62-82 | returns None iff the goal cannot be walked to from start; otherwise a path no walk from start to the goal undercuts; it scans at most one cell per floor tile, plus the start |
| Pathfinding.Shortcut | pacman_fish_game/pacman_fish.py:62-82 | cutting the loop out of a walk that repeats a cell leaves a shorter walk between the same ends |
| Pathfinding.ShortestSimple | pacman_fish_game/pacman_fish.py:62-82 | a shortest walk never visits a cell twice |
| Pathfinding.DistinctTail | pacman_fish_game/pacman_fish.py:70-76 | with start first and no repeats, start is not in the path and the path has no repeats |
| Pathfinding.WalkCells | pacman_fish_game/pacman_fish.py:70-76 | the path's first cell is next to start, each cell is next to the one before, all are floor, and the last is the goal |
| Pathfinding.ShortestPathShape | pacman_fish_game/pacman_fish.py:62-82 | a shortest path is empty iff start is the goal; it is made of adjacent floor cells, ends at the goal, never visits start and never repeats a cell |
| PacFish.Intent | pacman_fish_game/pacman_fish.py:183-187 | each axis moves PLAYER_SPEED pixels towards the key held, and a later key on the same axis (right, down) overrides an earlier one |
| PacFish.PlayerStep | pacman_fish_game/pacman_fish.py:200-201 | a fish clear of walls is still clear after its two axis moves |
| PacFish.PlayerStepAxes | pacman_fish_game/pacman_fish.py:200-201 | the x move is taken iff the box moved along x is clear; the y move, from where the x move left the fish, iff the box moved along y is clear |
| PacFish.Bite | pacman_fish_game/pacman_fish.py:204 | the tile bitten is the one holding the centre pixel of the fish's box |
| PacFish.BiteAligned | pacman_fish_game/pacman_fish.py:204 | a fish standing exactly on a tile bites that tile |
| PacFish.BiteNotWall | pacman_fish_game/pacman_fish.py:204 | a fish clear of walls never bites a wall tile |
| PacFish.Eat | pacman_fish_game/pacman_fish.py:205-207 | removing the bitten tile removes one pellet when there was one on it, and none otherwise |
| PacFish.InitPellets | pacman_fish_game/pacman_fish.py:124-129 | the row-by-row scan puts a pellet on exactly the floor tiles of the grid |
| PacFish.ReplannedFloor | pacman_fish_game/pacman_fish.py:223-229 | a re-planned path runs over floor, starts next to the shark's tile and ends at the fish's tile |
| PacFish.Replan | pacman_fish_game/pacman_fish.py:223-229 | the new path is a shortest path to the goal when one exists that moves, and empty when the shark is on the goal's tile or the goal cannot be reached |
| PacFish.Follow | pacman_fish_game/pacman_fish.py:230-253 | on arrival, the shark snaps onto its first waypoint and drops it; otherwise it glides with its path kept; with no path it stays put, and takes a one-tile path iff it wanders and the chosen neighbour is floor; a path on floor stays on floor |
| PacFish.SteppedFloor | pacman_fish_game/pacman_fish.py:219-253 | a shark's frame keeps its path on floor tiles |
| PacFish.Shark.constructor | pacman_fish_game/pacman_fish.py:141-146 | a shark starts on the top-left pixel of its spawn tile, with no path and a frame count of 0 |
| PacFish.Shark.Update | pacman_fish_game/pacman_fish.py:219-253 | the frame count goes up by one; the shark re-plans exactly when the new count is a multiple of PATHFIND_INTERVAL or its path is empty, then follows the plan |
| PacFish.NewBoard | pacman_fish_game/pacman_fish.py:117-129 | the board is a MAP_W x MAP_H grid of walls and floor in which every odd tile is floor, tiles with two even coordinates and the border are wall, and every floor tile can be walked to from (1, 1); a pellet lies on every floor tile, the fish's start tile among them, and the fish's start box is clear of walls |
| PacFish.SpawnsOnFloor | pacman_fish_game/pacman_fish.py:139 | the three shark spawn tiles of such a maze are floor |
| PacFish.Game.constructor | pacman_fish_game/pacman_fish.py:116-151 | a new game keeps the frame invariant: all pellets present, score 0, neither won nor over, the fish on tile (1, 1) and three sharks on the other three odd corners, which are floor; its constant grid has every maze property of `NewBoard` |
| PacFish.Game.StartsValid | pacman_fish_game/pacman_fish.py:131-151 | the start state, with the fish on (1, 1), pellets on every floor tile and three distinct path-less sharks on the far corners, keeps the frame invariant |
| PacFish.Game.Tick | pacman_fish_game/pacman_fish.py:181-260 | keeps the frame invariant; a won or lost game is unchanged; otherwise the fish makes its step and eats, every shark takes its frame chasing the fish's tile, and the game is over iff a shark then overlaps the fish |
| PacFish.Game.Swim | pacman_fish_game/pacman_fish.py:183-210 | the fish makes its step and its bitten tile loses its pellet, worth 10 points if there was one; pellets, score, win flag and wall clearance stay consistent |
| PacFish.Game.UpdateSharks | pacman_fish_game/pacman_fish.py:219-253 | every shark, in order, takes its frame chasing the goal tile, and all paths stay on floor |
| PacFish.Game.Judge | pacman_fish_game/pacman_fish.py:256-260 | the game is over iff it was over already or some shark overlaps the fish |
| FloatPositions.ReachLeaves | pacman_fish_game/pacman_fish.py:77-79 | a start tile from which another tile can be walked to has an in-bounds neighbour, which the scan indexes the grid at |
| FloatPositions.StepAsWritten | pacman_fish_game/pacman_fish.py:219-253 | the frame as written raises TypeError iff the position holds floats, the shark re-plans, and either the search scans an in-bounds neighbour of a start off the goal's tile or the wander picks an in-bounds tile; otherwise it does what the corrected frame does, and leaves floats exactly after a glide, or after no move from floats |
| FloatPositions.FloatReplanCrashes | pacman_fish_game/pacman_fish.py:222-225 | in a MAP_W x MAP_H grid, a shark holding floats that re-plans from an in-bounds tile other than the goal's raises TypeError |
| FloatPositions.GlideThenReplanCrashes | pacman_fish_game/pacman_fish.py:222-245 | a shark that glides in one frame and re-plans in the next from an in-bounds tile off the fish's tile holds floats and raises TypeError in that next frame |

## Left out

- Drawing, the camera, asset loading, window events and the frame clock are I/O. They do not affect the simulation and are not modelled.
- The mouth animation (`anim_timer`, `anim_state`) and the global `frame` counter affect only what is drawn. They are not modelled.
- The seaweed pass after maze generation writes 0 over cells that are already 0, so it cannot change the grid. It is not modelled.
- Randomness is an input: `draw` for the maze shuffles, and each shark's `Roll` for the wander test and the direction picked.
- PacFish.Follow: the float arithmetic of a shark's glide (the `dist < 1` test and the step of GHOST_SPEED pixels along the normalised vector) is not computed. The arrival test and the position the glide reaches are taken from the `Roll`.
- PacFish.Shark: shark positions are integers, and the tile of a position is its floor division by TILE. In the code a glide makes the position a float, and a re-plan before the next snap crashes (see Findings); `PacFish.Shark.Update` is the corrected frame. The glide position comes from the `Roll` and is not constrained to be non-negative, so the model floors where the collision test's `int()` would truncate a negative float.
- The sharks' `gx` and `gy` entries are written once at spawn and never read, so they are not modelled.
- Pathfinding.Bfs: the contract does not pin down which of several equally short paths is returned. That choice is fixed by the order of the neighbour scan, which the model keeps.
- Pathfinding.Exhausted: it states only that every reachable cell has been discovered. It does not state the converse, which `Bfs`'s result does not need.
- Maze.MakeMaze: it requires the grid to be at least 2 x 2, because the source writes to cell (1, 1) unconditionally. It promises a wall border only for odd sizes, as the source's comment demands.
- `pacman_fish.py` has no lives, release timers, stun windows, pursuit ranges or best-time rankings. A single overlap with a shark ends the game.
- Tiles outside the grid do not block a move: `try_move` checks bounds before it looks for a wall, and the model does the same.
- FloatPositions.StepAsWritten: it tracks whether the position holds floats, not the float values. As in `PacFish.Follow`, the glide's position comes from the `Roll`.

## Findings

| source | as written | input that shows it | evidently intended | confidence | as-written member | corrected member |
|---|---|---|---|---|---|---|
| pacman_fish_game/pacman_fish.py:223 | the re-plan takes the shark's tile as `(s['px']//TILE, s['py']//TILE)`, but a glide (:243-245) has made `px` and `py` floats by true division, so the tile is a pair of floats and `bfs` indexes `grid[ny][nx]` (:79) with them, raising TypeError | a shark that glides at frame 29 and then re-plans at frame 30 from an in-bounds tile other than the fish's | the re-plan, and the wander test at :251-252, take the integer tile, e.g. `int(s['px'])//TILE` | high; not executed | FloatPositions.StepAsWritten, FloatPositions.GlideThenReplanCrashes | PacFish.Shark.Update |
