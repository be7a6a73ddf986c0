# pcg-sketches dungeon generators in Dafny

This project models the four integer-grid dungeon generators of pcg-sketches
(Unity, C#) and proves what they promise about the maps they produce.

- **BSP dungeon** (`TileBSPDungeon.cs`, module `TileBsp`, file `bsp.dfy`).
  `Split` cuts the map rectangle recursively into a binary tree of
  `BSPNode`s. `CreateRooms` puts one random room in every leaf and writes it
  into `mapGrid` as 1. `ConnectRooms` joins the two subtrees of every internal
  node with an L-shaped corridor, written as 2 over empty (0) cells only.
- **Randomized depth-first maze** (`ModularDFSDungeonGenerator.cs`, module
  `DfsMaze`, file `dfs.dfy`). A recursive backtracker carves the odd lattice
  from (1, 1), with a Fisher–Yates shuffle of the four directions at every
  cell. Optional rooms are then stamped over the maze, clamped off the border.
- **Prim spanning-tree dungeon** (`MinimumSpanningTreeGenerator.cs`, module
  `MstDungeon`, file `mst.dfy`). Random rooms are stamped into an all-wall
  map. Prim's algorithm joins their centres over the `connected` and
  `remaining` lists. Every chosen edge is carved as a horizontal run and then
  a vertical run.
- **Cellular-automaton cave** (`CellularAutomataGenerator.cs`, module `Cave`,
  file `cave.dfy`). The interior is filled with random noise. A
  double-buffered birth/death rule over the Moore neighbourhood then runs
  `simulationSteps` times, with an optional inversion of the interior. The
  border stays wall.

Shared pieces:

- **`Rand` (`rand.dfy`)** models Unity's global `Random` as an object over a
  fixed stream of raw draws (`draws: nat -> int`), which the seed would
  determine. `position` counts the draws consumed.
  - `Random.Range(lo, hi)` on integers yields a value in `[lo, hi)`, or `lo`
    when `lo == hi`.
  - `Random.value > 0.5f` is a coin.
  - `Random.value < p` is a percent chance.
  - The stream is arbitrary, so every property holds for every seed. The BSP
    generator's `Start` is moreover stated as a function of the stream, so
    there equal streams give equal dungeons. The MST rooms and the maze's
    shuffles and room plans are tied to the draws they consume (a shuffle
    of n elements swaps position k with `Random.Range(k, n)` of the k-th
    draw it takes). The cave's
    noise gives each interior cell a draw of its own, without fixing which.
    The maze carver and the cave's `Generate` state only what their results
    satisfy. So for these generators the contracts do not fix the dungeon as
    a function of the stream.
- **`Grids` (`grids.dfy`)** defines a grid value `seq<seq<int>>`, indexed
  `g[x][y]` like the source's `int[x, y]`. A ghost `View` turns an
  `array2<int>` into such a value, so a method that writes the array can be
  specified by a function on grid values. `FillRect` is the rectangle fill
  that writes a room into a map, shared by the BSP, maze and MST generators.

Imperative code stays imperative:

- The generators are classes whose methods update an `array2<int>` map and
  the lists the source keeps: `rooms`, `mstEdges`, `spawnedTiles`, and the
  `BSPNode` children and rooms.
- Most methods are proved against a function on values (`Step`, `Invert`,
  `Dig`, `LCorridor`, `RoomsPlan`, `ConnectPlan`, `StampAll`, `StampRooms`,
  `DrawnRooms`, `Shuffled`, `FillRect`, and so on). The rest are specified by predicates over their
  results: the maze carver by the search tree it records, Prim's loop by
  `PrimTree` and `Greedy`, the random fills by the range of each draw.
- The source's promises are lemmas about those functions, or invariants that
  the methods keep: a partition, disjoint rooms, a spanning tree, a perfect
  maze, a wall border.

Three behaviours of the code are worth stating plainly:

- **Corridor order.** `ConnectRooms` carves the corridor of a node before
  those of its subtrees (pre-order).
- **Out-of-bounds neighbours.** `CountFloorNeighbors` counts a position
  outside the map as floor (`count++`), although its comment says wall. The
  step only counts interior cells, where no position is outside, so the
  generated caves are the same either way.
  `Cave.CornerCountsOutsideAsFloor` shows the code's policy and
  `Cave.InteriorCountIsMooreFloor` shows it never applies.
- **Room overlap.** The MST generator places rooms independently, and they
  may overlap.

## Model

| member | source | states |
|---|---|---|
| Rand.RangeOf | pcg/Assets/_Scripts/MinimumSpanningTreeGenerator.cs:108-112 | `Random.Range(lo, hi)` on integers lies in [lo, hi), and is lo when the range is empty |
| Rand.RangeOfReachesAll | pcg/Assets/_Scripts/MinimumSpanningTreeGenerator.cs:108-112 | every value of a non-empty range is the outcome of some draw, so the abstraction loses no behaviour |
| Rand.Random.constructor | pcg/Assets/_Scripts/CellularAutomataGenerator.cs:53-58 | a seeded generator starts at the first draw of its stream |
| Rand.Random.Range | pcg/Assets/_Scripts/TileBSPDungeon.cs:174-177 | each `Random.Range` call consumes exactly one draw and returns a value of the range |
| Rand.Random.Coin | pcg/Assets/_Scripts/TileBSPDungeon.cs:142 | `Random.value > 0.5f` consumes one draw and is decided by it alone |
| Rand.Random.Chance | pcg/Assets/_Scripts/CellularAutomataGenerator.cs:70 | `Random.value < p` consumes one draw; it is never true for p ≤ 0% and always true for p ≥ 100% |
| Grids.FillRect | pcg/Assets/_Scripts/TileBSPDungeon.cs:187-189 | writing a room into the map sets exactly the room's cells that lie in the map to 1 and leaves every other cell as it was; the BSP, maze and MST generators all use it |
| Cave.BoxTerm | pcg/Assets/_Scripts/CellularAutomataGenerator.cs:137-143 | each position of the 3 × 3 box adds 0 or 1 to the count, and the centre adds nothing |
| Cave.BoxCount | pcg/Assets/_Scripts/CellularAutomataGenerator.cs:130-146 | after k box positions the count is at most k, and at most k − 1 once the centre has been skipped |
| Cave.FloorNeighbors | pcg/Assets/_Scripts/CellularAutomataGenerator.cs:130-146 | the neighbour count lies in [0, 8] |
| Cave.BoxCellsDistinct | pcg/Assets/_Scripts/CellularAutomataGenerator.cs:133-136 | the two nested loops visit nine distinct cells |
| Cave.FloorAmongSnoc | pcg/Assets/_Scripts/CellularAutomataGenerator.cs:137-143 | one more box position adds its cell to the counted floor cells exactly when it adds 1 to the count, and that cell is new |
| Cave.PrefixCountIsFloorCells | pcg/Assets/_Scripts/CellularAutomataGenerator.cs:130-146 | for an interior cell, the running count equals the number of distinct floor cells visited so far |
| Cave.InteriorCountIsMooreFloor | pcg/Assets/_Scripts/CellularAutomataGenerator.cs:130-146 | for an interior cell the count is exactly the number of floor Moore neighbours |
| Cave.CornerCountsOutsideAsFloor | pcg/Assets/_Scripts/CellularAutomataGenerator.cs:139-141 | positions off the map count as floor (the comment says wall): the corner's count is at least 5 on any grid |
| Cave.Step | pcg/Assets/_Scripts/CellularAutomataGenerator.cs:95-115 | a generation computes every cell from the previous grid alone; the result is 0/1 with a wall border |
| Cave.StepRule | pcg/Assets/_Scripts/CellularAutomataGenerator.cs:108-113 | an interior floor cell survives iff its count ≥ deathLimit; an interior wall cell becomes floor iff its count > birthLimit |
| Cave.Invert | pcg/Assets/_Scripts/CellularAutomataGenerator.cs:80-89 | inversion flips every interior cell (1 to 0, anything else to 1) and leaves the border as it was |
| Cave.InvertKeepsBorderAndBinary | pcg/Assets/_Scripts/CellularAutomataGenerator.cs:80-89 | inversion keeps the border cells, a wall border and a 0/1 grid |
| Cave.InvertTwice | pcg/Assets/_Scripts/CellularAutomataGenerator.cs:80-89 | on a 0/1 grid, inverting twice restores the grid |
| Cave.InvertTwiceNeedsBinary | pcg/Assets/_Scripts/CellularAutomataGenerator.cs:86 | on a cell holding neither 0 nor 1, inverting twice does not restore the grid |
| Cave.Generation | pcg/Assets/_Scripts/CellularAutomataGenerator.cs:95-120 | one iteration (a step, then an inversion in inverted mode) yields a 0/1 grid with a wall border |
| Cave.SimulateKeepsBorderWall | pcg/Assets/_Scripts/CellularAutomataGenerator.cs:93-120 | after any number of iterations, with or without inversion, the grid is 0/1 and its border is wall |
| Cave.SimulateAdds | pcg/Assets/_Scripts/CellularAutomataGenerator.cs:93 | running a iterations and then b more is running a + b: the grid is updated once per step |
| Cave.OuterWallsStay | pcg/Assets/_Scripts/CellularAutomataGenerator.cs:194-204 | with a wall border, no tile wall facing the border ring or the outside of the map is ever removed |
| Cave.OpensToward | pcg/Assets/_Scripts/CellularAutomataGenerator.cs:194-204 | a tile wall is removed only toward a neighbour that lies in the map and is not wall |
| Cave.CaveGenerator.constructor | pcg/Assets/_Scripts/CellularAutomataGenerator.cs:42-45 | the map is allocated with every cell wall |
| Cave.CaveGenerator.InitializeMap | pcg/Assets/_Scripts/CellularAutomataGenerator.cs:60-76 | the border is wall; each interior cell is floor iff its own draw falls under the chance (flipped in inverted mode); no draw decides two cells |
| Cave.CaveGenerator.FillRandom | pcg/Assets/_Scripts/CellularAutomataGenerator.cs:62-72 | the fill loops make the border wall and decide each interior cell by a draw of its own |
| Cave.CaveGenerator.InvertInteriorTiles | pcg/Assets/_Scripts/CellularAutomataGenerator.cs:80-89 | the in-place loops leave the map equal to `Invert` of the old map |
| Cave.CaveGenerator.CountFloorNeighbors | pcg/Assets/_Scripts/CellularAutomataGenerator.cs:130-146 | the counting loop returns `FloorNeighbors` of the map, a value in [0, 8] |
| Cave.CaveGenerator.NextMap | pcg/Assets/_Scripts/CellularAutomataGenerator.cs:95-115 | the fresh buffer holds `Step` of the current map, which is not written |
| Cave.CaveGenerator.RunSimulation | pcg/Assets/_Scripts/CellularAutomataGenerator.cs:91-121 | after the loop the map is `simulationSteps` iterations of the old map |
| Cave.CaveGenerator.Generate | pcg/Assets/_Scripts/CellularAutomataGenerator.cs:42-50 | the generated cave is a 0/1 map whose border is wall |
| MstDungeon.Room.Center | pcg/Assets/_Scripts/MinimumSpanningTreeGenerator.cs:47-48 | a room's centre lies in the room |
| MstDungeon.DrawnRoom | pcg/Assets/_Scripts/MinimumSpanningTreeGenerator.cs:108-120 | the room made from four draws (width, height, column, row) carries its creation index and has width and height in [minRoomSize, maxRoomSize] |
| MstDungeon.DrawnRoomFits | pcg/Assets/_Scripts/MinimumSpanningTreeGenerator.cs:108-112 | under the size bounds, the room four draws make has width and height in [minRoomSize, maxRoomSize] and lies off the border |
| MstDungeon.DrawnRoomsAt | pcg/Assets/_Scripts/MinimumSpanningTreeGenerator.cs:106-120 | room i of the list comes from the draws 4i .. 4i + 3 after the start and carries index i |
| MstDungeon.DistSq | pcg/Assets/_Scripts/MinimumSpanningTreeGenerator.cs:61 | the edge weight is non-negative and zero exactly between equal centres |
| MstDungeon.InSomeRoomSnoc | pcg/Assets/_Scripts/MinimumSpanningTreeGenerator.cs:123-127 | adding a room adds exactly its cells to the room cells |
| MstDungeon.StampRoomsCells | pcg/Assets/_Scripts/MinimumSpanningTreeGenerator.cs:123-127 | after the rooms are stamped in order, a cell is floor iff some room contains it, and is otherwise unchanged |
| MstDungeon.NumberedRoomsDistinct | pcg/Assets/_Scripts/MinimumSpanningTreeGenerator.cs:114-121 | rooms numbered in creation order are pairwise distinct, as distinct objects are |
| MstDungeon.CorridorShape | pcg/Assets/_Scripts/MinimumSpanningTreeGenerator.cs:175-190 | a corridor starts at a (unless a = b), never writes b, and stays in the bounding box of a and b |
| MstDungeon.FindClosestPair | pcg/Assets/_Scripts/MinimumSpanningTreeGenerator.cs:145-161 | the chosen pair minimises centre distance over connected × remaining, and is strictly closer than every pair scanned before it (first pair wins ties) |
| MstDungeon.RemoveFirst | pcg/Assets/_Scripts/MinimumSpanningTreeGenerator.cs:167 | `remaining.Remove(b)` drops exactly one occurrence of b, or nothing when b is absent |
| MstDungeon.PrimStart | pcg/Assets/_Scripts/MinimumSpanningTreeGenerator.cs:137-141 | with the first room connected and the rest remaining, the Prim state holds |
| MstDungeon.MoveRoom | pcg/Assets/_Scripts/MinimumSpanningTreeGenerator.cs:166-167 | moving the chosen room keeps `connected` and `remaining` a split of the rooms; the room was unconnected |
| MstDungeon.NotConnectedIsRemaining | pcg/Assets/_Scripts/MinimumSpanningTreeGenerator.cs:137-141 | a room that is not connected is remaining |
| MstDungeon.TreeStep | pcg/Assets/_Scripts/MinimumSpanningTreeGenerator.cs:163-166 | an edge from a connected room to an unconnected one keeps the edges a tree over the connected rooms |
| MstDungeon.GreedyStep | pcg/Assets/_Scripts/MinimumSpanningTreeGenerator.cs:145-163 | adding the closest crossing pair keeps every edge no longer than any pair from the rooms connected before it to a room not yet connected |
| MstDungeon.PrimStep | pcg/Assets/_Scripts/MinimumSpanningTreeGenerator.cs:143-168 | one round of the loop keeps the whole Prim state: split, tree and greedy edges |
| MstDungeon.CorridorsAppend | pcg/Assets/_Scripts/MinimumSpanningTreeGenerator.cs:163-164 | adding an edge adds exactly its corridor to the carved cells |
| MstDungeon.PathToFirst | pcg/Assets/_Scripts/MinimumSpanningTreeGenerator.cs:137-168 | every connected room reaches the first room along edges |
| MstDungeon.PrimTreeSpans | pcg/Assets/_Scripts/MinimumSpanningTreeGenerator.cs:137-168 | any two connected rooms are joined by a path of edges, so the n − 1 edges form a spanning tree |
| MstDungeon.MstGenerator.constructor | pcg/Assets/_Scripts/MinimumSpanningTreeGenerator.cs:75-80 | the map is allocated all wall, with no rooms and no edges |
| MstDungeon.MstGenerator.RoomCenterInGrid | pcg/Assets/_Scripts/MinimumSpanningTreeGenerator.cs:164 | a placed room's centre is a cell of the map, so the corridor stays in bounds |
| MstDungeon.MstGenerator.InitializeMap | pcg/Assets/_Scripts/MinimumSpanningTreeGenerator.cs:93-98 | every cell becomes wall |
| MstDungeon.MstGenerator.GenerateRooms | pcg/Assets/_Scripts/MinimumSpanningTreeGenerator.cs:104-129 | makes max(roomCount, 0) rooms, room i from the four draws 4i .. 4i + 3 of the call, each of size in [minRoomSize, maxRoomSize] and off the border; exactly their cells become floor |
| MstDungeon.MstGenerator.DrawRoom | pcg/Assets/_Scripts/MinimumSpanningTreeGenerator.cs:108-112 | consumes exactly four draws and returns the room they make |
| MstDungeon.MstGenerator.AddRoom | pcg/Assets/_Scripts/MinimumSpanningTreeGenerator.cs:108-127 | one pass of the loop: the list grows by the room of the next four draws, and the map is the start map with every listed room stamped |
| MstDungeon.MstGenerator.DrawSize | pcg/Assets/_Scripts/MinimumSpanningTreeGenerator.cs:108-109 | two draws give width and height, each `Random.Range(minRoomSize, maxRoomSize + 1)` |
| MstDungeon.MstGenerator.DrawPlace | pcg/Assets/_Scripts/MinimumSpanningTreeGenerator.cs:111-112 | two draws give the corner, in [1, mapWidth − w − 1) and [1, mapHeight − h − 1) |
| MstDungeon.MstGenerator.PlaceRoom | pcg/Assets/_Scripts/MinimumSpanningTreeGenerator.cs:123-127 | the room is appended to the list and exactly its cells become floor, keeping every listed room's cells floor |
| MstDungeon.MstGenerator.Stamp | pcg/Assets/_Scripts/MinimumSpanningTreeGenerator.cs:125-127 | exactly the room's cells become floor |
| MstDungeon.MstGenerator.CarveCorridor | pcg/Assets/_Scripts/MinimumSpanningTreeGenerator.cs:175-190 | the two walking loops terminate and set exactly the corridor cells to floor |
| MstDungeon.MstGenerator.GenerateMST | pcg/Assets/_Scripts/MinimumSpanningTreeGenerator.cs:135-169 | with n ≥ 1 rooms: n − 1 edges, forming a greedy (Prim) tree that attaches every room, and exactly their corridors carved; with none, it fails and changes nothing |
| MstDungeon.MstGenerator.AddEdge | pcg/Assets/_Scripts/MinimumSpanningTreeGenerator.cs:163-164 | records the edge and carves exactly its corridor |
| MstDungeon.MstGenerator.Start | pcg/Assets/_Scripts/MinimumSpanningTreeGenerator.cs:75-84 | the rooms are those of the draws, four each; the map is 0/1; a cell is floor iff it is in a room or on a corridor; with rooms, the n − 1 edges form a Prim tree over a reordering of all the rooms, which starts from the first room, each edge no longer than any pair crossing the cut of its round |
| MstDungeon.MstGenerator.IsFloor | pcg/Assets/_Scripts/MinimumSpanningTreeGenerator.cs:239-245 | false off the map |
| MstDungeon.MstGenerator.RoomCellsAreFloor | pcg/Assets/_Scripts/MinimumSpanningTreeGenerator.cs:125-127 | every room cell is floor, and corridors keep it so |
| DfsMaze.IsInside | pcg/Assets/_Scripts/ModularDFSDungeonGenerator.cs:258-261 | a cell is inside exactly when it is a cell of the map that is not on the border ring |
| DfsMaze.CarvedAfterStep | pcg/Assets/_Scripts/ModularDFSDungeonGenerator.cs:117-120 | a carve adds exactly `between` and `next` to the carved cells |
| DfsMaze.TreeAfterStep | pcg/Assets/_Scripts/ModularDFSDungeonGenerator.cs:113-130 | reaching `next` from `current` extends the search tree by one edge |
| DfsMaze.FloorAfterStep | pcg/Assets/_Scripts/ModularDFSDungeonGenerator.cs:119-120 | opening the two cells keeps the floor equal to the carved cells |
| DfsMaze.CarveKeepsMaze | pcg/Assets/_Scripts/ModularDFSDungeonGenerator.cs:113-130 | when `next` is inside and wall, `between` is inside and wall too, `next` is unvisited, and the carve keeps the map exactly the search tree |
| DfsMaze.StepParity | pcg/Assets/_Scripts/ModularDFSDungeonGenerator.cs:113-117 | a step of two from an odd cell lands on an odd cell; the cell between has one even coordinate |
| DfsMaze.BetweenIsWall | pcg/Assets/_Scripts/ModularDFSDungeonGenerator.cs:115-119 | the cell between a visited cell and an unvisited lattice neighbour is still wall |
| DfsMaze.PathToStart | pcg/Assets/_Scripts/ModularDFSDungeonGenerator.cs:86-130 | every visited cell leads back to (1, 1) through floor cells, each adjacent to the next |
| DfsMaze.EdgeCell | pcg/Assets/_Scripts/ModularDFSDungeonGenerator.cs:117 | the cell between a cell and its parent is carved and adjacent to both |
| DfsMaze.ClosedMazeCoversLattice | pcg/Assets/_Scripts/ModularDFSDungeonGenerator.cs:104-135 | when every visited cell has all inside lattice neighbours open, every odd interior cell was visited |
| DfsMaze.SpawnAddsOnce | pcg/Assets/_Scripts/ModularDFSDungeonGenerator.cs:140-153 | `SpawnTile` adds exactly its position, keeps the keys distinct, and grows them only for a new position |
| DfsMaze.SpawnIdempotent | pcg/Assets/_Scripts/ModularDFSDungeonGenerator.cs:140-153 | spawning a position twice is spawning it once |
| DfsMaze.OpenKeepsTiles | pcg/Assets/_Scripts/ModularDFSDungeonGenerator.cs:119-123 | opening a cell and spawning its tile keeps the tile keys equal to the floor cells |
| DfsMaze.Swap | pcg/Assets/_Scripts/ModularDFSDungeonGenerator.cs:268 | a swap is a permutation |
| DfsMaze.SwapDraws | pcg/Assets/_Scripts/ModularDFSDungeonGenerator.cs:265-267 | the first i swap positions of a pass over n elements: i of them, position k in [k, n) |
| DfsMaze.SwapDrawsAt | pcg/Assets/_Scripts/ModularDFSDungeonGenerator.cs:267 | swap position k is `Random.Range(k, n)` of the draw at p + k |
| DfsMaze.ShuffledIsPermutation | pcg/Assets/_Scripts/ModularDFSDungeonGenerator.cs:263-270 | the shuffle is a permutation of its input |
| DfsMaze.Clamp | pcg/Assets/_Scripts/ModularDFSDungeonGenerator.cs:177-178 | `Mathf.Clamp` lands in [lo, hi] and keeps a value already there |
| DfsMaze.Half | pcg/Assets/_Scripts/ModularDFSDungeonGenerator.cs:177-178 | C#'s `/ 2` rounds toward zero, for negative values too |
| DfsMaze.StampAllCells | pcg/Assets/_Scripts/ModularDFSDungeonGenerator.cs:170-192 | after the rooms are stamped, a cell is floor iff some room covers it, and is otherwise unchanged |
| DfsMaze.PlansAt | pcg/Assets/_Scripts/ModularDFSDungeonGenerator.cs:170-178 | room k of the attempts comes from draws 3k, 3k + 1 and 3k + 2 after the start |
| DfsMaze.PlansInside | pcg/Assets/_Scripts/ModularDFSDungeonGenerator.cs:177-178 | when the largest room fits, every planned room is strictly inside the border |
| DfsMaze.StartMaze | pcg/Assets/_Scripts/ModularDFSDungeonGenerator.cs:86-89 | opening (1, 1) in an all-wall map gives the one-cell maze, with (1, 1) as its only tile |
| DfsMaze.MazeCovers | pcg/Assets/_Scripts/ModularDFSDungeonGenerator.cs:104-135 | a finished search visited every odd interior cell: the maze is perfect |
| DfsMaze.DungeonCells | pcg/Assets/_Scripts/ModularDFSDungeonGenerator.cs:84-97 | in the finished dungeon a cell is floor iff carved or in a room, and the border stays wall |
| DfsMaze.PlanCentre | pcg/Assets/_Scripts/ModularDFSDungeonGenerator.cs:172 | a room's centre is one of the spawned tiles |
| DfsMaze.PlanRoomFits | pcg/Assets/_Scripts/ModularDFSDungeonGenerator.cs:174-178 | a room has sides in [roomMinSize, roomMaxSize] and is clamped strictly inside the border |
| DfsMaze.PlanRoomCoversCentre | pcg/Assets/_Scripts/ModularDFSDungeonGenerator.cs:172-178 | a room contains its centre tile, so every room touches the maze |
| DfsMaze.OpenTwoCells | pcg/Assets/_Scripts/ModularDFSDungeonGenerator.cs:119-120 | a carve only turns wall into floor and never writes the border |
| DfsMaze.TriedAllIsClosed | pcg/Assets/_Scripts/ModularDFSDungeonGenerator.cs:108-131 | once all four shuffled directions are tried, every inside cell two steps away is floor |
| DfsMaze.LatticeShrinks | pcg/Assets/_Scripts/ModularDFSDungeonGenerator.cs:115-130 | each carve shrinks the set of unvisited lattice cells, so the recursion terminates |
| DfsMaze.CarveKeepsAll | pcg/Assets/_Scripts/ModularDFSDungeonGenerator.cs:113-126 | one carve keeps the maze, the tiles (2·visited − 1 of them) and the border, and only opens cells |
| DfsMaze.DfsGenerator.constructor | pcg/Assets/_Scripts/ModularDFSDungeonGenerator.cs:76-79 | the map is allocated all wall, with no tiles |
| DfsMaze.DfsGenerator.SpawnTile | pcg/Assets/_Scripts/ModularDFSDungeonGenerator.cs:140-153 | a tile is recorded once per position |
| DfsMaze.DfsGenerator.Shuffle | pcg/Assets/_Scripts/ModularDFSDungeonGenerator.cs:263-270 | one draw per position; the swaps are exactly `SwapDraws` of the draws taken, each in [i, Count); the list ends as the Fisher–Yates shuffle by those swaps, a permutation of itself |
| DfsMaze.DfsGenerator.ShuffleStep | pcg/Assets/_Scripts/ModularDFSDungeonGenerator.cs:265-269 | one iteration takes the next draw, extends the swaps by it and leaves the list as the shuffle by the longer swaps |
| DfsMaze.DfsGenerator.DrawSwap | pcg/Assets/_Scripts/ModularDFSDungeonGenerator.cs:267 | `Random.Range(i, list.Count)` takes one draw and gives the next entry of `SwapDraws`, in [i, Count) |
| DfsMaze.DfsGenerator.CarveStep | pcg/Assets/_Scripts/ModularDFSDungeonGenerator.cs:117-126 | opens `between` and `next`, spawns both, records `next` as reached from `current` |
| DfsMaze.DfsGenerator.RecordStep | pcg/Assets/_Scripts/ModularDFSDungeonGenerator.cs:122-126 | spawns both tiles and adds the search edge |
| DfsMaze.DfsGenerator.OpenPair | pcg/Assets/_Scripts/ModularDFSDungeonGenerator.cs:119-120 | exactly the two cells become floor |
| DfsMaze.DfsGenerator.Open | pcg/Assets/_Scripts/ModularDFSDungeonGenerator.cs:88 | exactly one cell becomes floor |
| DfsMaze.DfsGenerator.DepthFirstCarve | pcg/Assets/_Scripts/ModularDFSDungeonGenerator.cs:104-135 | keeps the map exactly the search tree, only opens cells, never writes the border, and on return every cell visited by the call has all inside lattice neighbours open |
| DfsMaze.DfsGenerator.ShuffledDirections | pcg/Assets/_Scripts/ModularDFSDungeonGenerator.cs:108-109 | after four draws, the directions come back shuffled by the swaps those draws give, a permutation |
| DfsMaze.DfsGenerator.TryDirection | pcg/Assets/_Scripts/ModularDFSDungeonGenerator.cs:111-131 | after one direction, the cell two steps that way is floor or outside, and the maze is kept |
| DfsMaze.DfsGenerator.StampRoom | pcg/Assets/_Scripts/ModularDFSDungeonGenerator.cs:181-191 | exactly the room's cells become floor; tiles are spawned for the new ones |
| DfsMaze.DfsGenerator.FillCell | pcg/Assets/_Scripts/ModularDFSDungeonGenerator.cs:185-189 | a wall cell becomes floor with its tile; a floor cell is left alone |
| DfsMaze.DfsGenerator.GenerateRooms | pcg/Assets/_Scripts/ModularDFSDungeonGenerator.cs:158-193 | max(1, tiles/20) attempts, three draws each; the map becomes the rooms planned from those draws stamped over it |
| DfsMaze.DfsGenerator.RoomAttempt | pcg/Assets/_Scripts/ModularDFSDungeonGenerator.cs:170-191 | one attempt extends the rooms planned so far by the room of the next three draws and stamps it, so the map stays the start map with every planned room stamped |
| DfsMaze.DfsGenerator.PlanAttempt | pcg/Assets/_Scripts/ModularDFSDungeonGenerator.cs:172-178 | one attempt's draws give the planned room, which is strictly inside the border |
| DfsMaze.DfsGenerator.GenerateDungeon | pcg/Assets/_Scripts/ModularDFSDungeonGenerator.cs:84-97 | the result is a search tree from (1, 1) covering every odd interior cell, with the rooms laid over it; a cell is floor iff carved or in a room; the border stays wall |
| DfsMaze.DfsGenerator.OptionalRooms | pcg/Assets/_Scripts/ModularDFSDungeonGenerator.cs:93-96 | no rooms unless switched on; every room is inside the border |
| DfsMaze.DfsGenerator.OpenStart | pcg/Assets/_Scripts/ModularDFSDungeonGenerator.cs:86-89 | (1, 1) becomes floor and the only tile, and the search starts there |
| DfsMaze.DfsGenerator.HasFloor | pcg/Assets/_Scripts/ModularDFSDungeonGenerator.cs:251-256 | false off the map |
| DfsMaze.DfsGenerator.HasFloorIffSpawned | pcg/Assets/_Scripts/ModularDFSDungeonGenerator.cs:251-256 | a cell has floor exactly when it has a spawned tile |
| TileBsp.CenterInRoom | pcg/Assets/_Scripts/TileBSPDungeon.cs:120-121 | a room's centre lies in the room |
| TileBsp.SplitPlan | pcg/Assets/_Scripts/TileBSPDungeon.cs:136-160 | `Split` builds a tree over the node's own rectangle and consumes draws forward only |
| TileBsp.CutAtCuts | pcg/Assets/_Scripts/TileBSPDungeon.cs:144-156 | the cut `Split` makes puts the first child's size on the cut axis in [m, dim − m − 1] and gives the rest to the second |
| TileBsp.CutTiles | pcg/Assets/_Scripts/TileBSPDungeon.cs:144-156 | the two children tile the parent: no overlap, and their union is the parent |
| TileBsp.CutSmaller | pcg/Assets/_Scripts/TileBSPDungeon.cs:147-155 | both children are strictly smaller than the parent, so the recursion terminates |
| TileBsp.SplitPlanPartitions | pcg/Assets/_Scripts/TileBSPDungeon.cs:138-160 | a node is a leaf exactly when both sides are at most 2·minPartitionSize; otherwise it is cut into its children |
| TileBsp.PlannedIsSplitPlan | pcg/Assets/_Scripts/TileBSPDungeon.cs:136-160 | the tree the nodes were built into is the split plan, with two draws per cut |
| TileBsp.PartitionMinDims | pcg/Assets/_Scripts/TileBSPDungeon.cs:147-155 | if the root's sides are at least k ≤ m, so are every node's |
| TileBsp.LeavesTile | pcg/Assets/_Scripts/TileBSPDungeon.cs:138-160 | every cell of the root lies in exactly one leaf |
| TileBsp.MinDimsRoomReady | pcg/Assets/_Scripts/TileBSPDungeon.cs:174-175 | leaves at least 3 a side can hold a room |
| TileBsp.RoomsPlan | pcg/Assets/_Scripts/TileBSPDungeon.cs:165-190 | `CreateRooms` keeps every node's rectangle and consumes draws forward only |
| TileBsp.RoomsPair | pcg/Assets/_Scripts/TileBSPDungeon.cs:167-172 | the left subtree is furnished first, then the right |
| TileBsp.LeafRoomFits | pcg/Assets/_Scripts/TileBSPDungeon.cs:174-185 | a leaf room has sides in [3, min(maxRoomSize, leaf side)), or 3, and lies inside its leaf |
| TileBsp.RoomsPlanFits | pcg/Assets/_Scripts/TileBSPDungeon.cs:165-190 | every leaf gets a fitting room, and the tree's shape is unchanged |
| TileBsp.PartitionShape | pcg/Assets/_Scripts/TileBSPDungeon.cs:165-172 | placing rooms keeps the partition |
| TileBsp.RoomsDisjoint | pcg/Assets/_Scripts/TileBSPDungeon.cs:174-189 | rooms of distinct leaves are disjoint, and every room lies in the root |
| TileBsp.PaintRoomsCells | pcg/Assets/_Scripts/TileBSPDungeon.cs:165-190 | after `CreateRooms` a cell is 1 iff some room holds it, and is otherwise unchanged |
| TileBsp.LeftmostLeaf | pcg/Assets/_Scripts/TileBSPDungeon.cs:208-214 | the leftmost leaf is a leaf |
| TileBsp.FirstRoomIsLeftmost | pcg/Assets/_Scripts/TileBSPDungeon.cs:208-214 | once every leaf has a room, `GetRoom` returns the leftmost leaf's room, never null |
| TileBsp.FittedFurnished | pcg/Assets/_Scripts/TileBSPDungeon.cs:174-185 | fitted rooms of a partition of the map lie in the map |
| TileBsp.FirstRoomInMap | pcg/Assets/_Scripts/TileBSPDungeon.cs:199-202 | the room `GetRoom` finds exists and its centre is a cell of the map |
| TileBsp.Dig | pcg/Assets/_Scripts/TileBSPDungeon.cs:235-248 | a straight corridor turns exactly the empty cells of its run into 2 and leaves every other cell |
| TileBsp.LCorridorLegs | pcg/Assets/_Scripts/TileBSPDungeon.cs:223-232 | the L corridor is its first leg dug, then its second, in the order the coin picks |
| TileBsp.LCorridorCells | pcg/Assets/_Scripts/TileBSPDungeon.cs:216-233 | an L corridor turns exactly the empty cells of the L into 2 |
| TileBsp.LCorridorOpens | pcg/Assets/_Scripts/TileBSPDungeon.cs:216-248 | afterwards the whole L between the two centres is non-empty, and only empty cells changed |
| TileBsp.OnlyDigsTrans | pcg/Assets/_Scripts/TileBSPDungeon.cs:245-246 | corridors never overwrite room or corridor cells, over any number of corridors |
| TileBsp.LOpenKept | pcg/Assets/_Scripts/TileBSPDungeon.cs:245-246 | later corridors keep an open L open |
| TileBsp.ConnectPlan | pcg/Assets/_Scripts/TileBSPDungeon.cs:195-206 | `ConnectRooms` keeps the grid's shape and consumes draws forward only |
| TileBsp.ConnectPair | pcg/Assets/_Scripts/TileBSPDungeon.cs:204-205 | the left subtree is connected first, then the right |
| TileBsp.JoinedKept | pcg/Assets/_Scripts/TileBSPDungeon.cs:195-206 | further corridors keep every split joined |
| TileBsp.ConnectPlanJoins | pcg/Assets/_Scripts/TileBSPDungeon.cs:195-206 | `ConnectRooms` only turns empty cells into corridor, and afterwards every internal node's two first rooms are joined by an open L |
| TileBsp.PartitionLeavesIn | pcg/Assets/_Scripts/TileBSPDungeon.cs:138-160 | every leaf of a partition of the map lies in the map |
| TileBsp.FurnishedHasRooms | pcg/Assets/_Scripts/TileBSPDungeon.cs:179-185 | a furnished tree has a room in every leaf |
| TileBsp.DungeonCells | pcg/Assets/_Scripts/TileBSPDungeon.cs:50-56 | in the finished map a cell is 1 iff in a room, and every cell is 0, 1 or 2 |
| TileBsp.Empty | pcg/Assets/_Scripts/TileBSPDungeon.cs:50 | the allocated map is all empty |
| TileBsp.SplitReady | pcg/Assets/_Scripts/TileBSPDungeon.cs:52-54 | with minPartitionSize ≥ 3, the split of the whole map has leaves that can hold rooms and lie in the map |
| TileBsp.RoomsReady | pcg/Assets/_Scripts/TileBSPDungeon.cs:54-55 | after `CreateRooms` the tree is still a partition, every room fits its leaf and lies in the map |
| TileBsp.Generate | pcg/Assets/_Scripts/TileBSPDungeon.cs:50-56 | the generator's tree covers the whole map, and its grid has the map's shape |
| TileBsp.PlannedReady | pcg/Assets/_Scripts/TileBSPDungeon.cs:52-55 | the tree `Split` built over the map is the split plan, and rooms can be placed in it |
| TileBsp.GenerateSteps | pcg/Assets/_Scripts/TileBSPDungeon.cs:52-56 | `Start` is `Split`, `CreateRooms` and `ConnectRooms` run one after another |
| TileBsp.GenerateDungeon | pcg/Assets/_Scripts/TileBSPDungeon.cs:41-62 | a generated dungeon's leaves partition the map; each leaf has one fitting room; no cell is in two rooms; a cell is 1 iff in a room, otherwise 0 or 2; every split is joined by an open L corridor |
| TileBsp.BSPNode.constructor | pcg/Assets/_Scripts/TileBSPDungeon.cs:106-112 | a new node is a room-less leaf over its rectangle |
| TileBsp.BSPNode.IsLeaf | pcg/Assets/_Scripts/TileBSPDungeon.cs:114 | a node has no children exactly when it is a leaf of the tree it heads |
| TileBsp.BspGenerator.constructor | pcg/Assets/_Scripts/TileBSPDungeon.cs:50 | the map is allocated all empty, with no root yet |
| TileBsp.BspGenerator.Split | pcg/Assets/_Scripts/TileBSPDungeon.cs:136-160 | builds, in fresh nodes, the tree the split plan describes, two draws per cut |
| TileBsp.BspGenerator.SplitChildren | pcg/Assets/_Scripts/TileBSPDungeon.cs:158-159 | splits the left child, then the right one, from the draws the left leaves |
| TileBsp.BspGenerator.CutNode | pcg/Assets/_Scripts/TileBSPDungeon.cs:142-156 | a coin and a cut position give the node two fresh leaf children whose rectangles are the cut |
| TileBsp.BspGenerator.Attach | pcg/Assets/_Scripts/TileBSPDungeon.cs:144-159 | a node whose children were split as planned is itself split as planned |
| TileBsp.BspGenerator.CreateRooms | pcg/Assets/_Scripts/TileBSPDungeon.cs:165-190 | the nodes' rooms become those of the rooms plan, and exactly their cells are painted 1 |
| TileBsp.BspGenerator.CreateRoomsPair | pcg/Assets/_Scripts/TileBSPDungeon.cs:169-170 | furnishes the left subtree, then the right |
| TileBsp.BspGenerator.PlaceRoom | pcg/Assets/_Scripts/TileBSPDungeon.cs:174-189 | a leaf gets the room of its four draws, painted into the map |
| TileBsp.BspGenerator.DrawRoom | pcg/Assets/_Scripts/TileBSPDungeon.cs:174-177 | width, height and offsets come from four consecutive draws |
| TileBsp.BspGenerator.FillRoom | pcg/Assets/_Scripts/TileBSPDungeon.cs:187-189 | exactly the room's cells become 1 |
| TileBsp.BspGenerator.GetRoom | pcg/Assets/_Scripts/TileBSPDungeon.cs:208-214 | returns the room of the leftmost leaf below the node |
| TileBsp.BspGenerator.ConnectRooms | pcg/Assets/_Scripts/TileBSPDungeon.cs:195-206 | the map and the draws consumed are those of the connect plan |
| TileBsp.BspGenerator.ConnectRoomsPair | pcg/Assets/_Scripts/TileBSPDungeon.cs:204-205 | connects the left subtree, then the right |
| TileBsp.BspGenerator.CreateLCorridor | pcg/Assets/_Scripts/TileBSPDungeon.cs:216-233 | one coin, then the map becomes the L corridor the coin picks |
| TileBsp.BspGenerator.CreateCorridor | pcg/Assets/_Scripts/TileBSPDungeon.cs:235-248 | every empty cell of the inclusive run from min to max becomes 2, and nothing else changes |
| TileBsp.BspGenerator.HasTile | pcg/Assets/_Scripts/TileBSPDungeon.cs:328-331 | a tile exists exactly on a cell of the map that is not empty, that is, a room or corridor cell |
| TileBsp.BspGenerator.Start | pcg/Assets/_Scripts/TileBSPDungeon.cs:41-56 | from an empty map, the tree, the map and the draws consumed are those of `Generate`, whose properties `GenerateDungeon` proves |

## Left out

- Unity scene plumbing is not modelled: `Instantiate`, `Destroy`, `Transform.Find`, GameObject hierarchies, tile prefabs, `InstantiateTiles`, `BuildHierarchyAndTiles` and its node labels, `SpawnTilesFromMap`, `UpdateTileVisualization`, `AddRandomObjects`, gizmos and `Handles` labels. These are engine calls with no effect on the grids.
- The wall-removal passes (`RemoveInteriorWalls` in all four files, `TryRemoveWall`, `RemoveWallIfFloor`) destroy engine objects. Only their neighbour tests are kept: `Cave.OpensToward` (with the lemma `Cave.OuterWallsStay`), `MstDungeon.MstGenerator.IsFloor`, `DfsMaze.DfsGenerator.HasFloor` and `TileBsp.BspGenerator.HasTile`.
- Coroutines and their timing (`StartCoroutine`, `WaitForSeconds`, `carveDelay`, `stepDelay`) are left out. A nested `yield return StartCoroutine` waits for the inner call, so the carve and the simulation are plain recursion and loops.
- Seeding (`Random.InitState`, `Environment.TickCount`) and Unity's generator are an abstract stream of draws. Nothing is claimed about the distribution of the draws.
- `Random.value` is a float. The model decides a coin by the parity of a draw and a chance by the draw modulo 100, with `initialFloorChance` given in whole percent. Unity's `Random.value` can be exactly 1.0, so `Random.value < 1f` is not always true; the model's chance at 100 percent always is.
- MstDungeon.DistSq: edge weights are squared integer distances instead of the float `Vector2.Distance`. On integer centres they order pairs the same way as the real distance; float rounding of nearly equal distances is not modelled.
- MstDungeon.MstGenerator.GenerateMST: with no rooms the source fails on `remaining[0]`; the model returns `ok = false` and changes nothing.
- MstDungeon.MstGenerator.GenerateMST: only Prim's per-round choice is proved (`Greedy`): each edge is no longer than any pair crossing the cut of its round. That the total weight is at most that of every other spanning tree of the rooms, which follows from this cut property, is not proved. Squared distances order pairs as distances do, so the minimum trees are the same.
- MstDungeon.MstGenerator.GenerateRooms requires 0 ≤ minRoomSize ≤ maxRoomSize ≤ map side − 2; the source does not check this. The upper bound keeps the position range `Random.Range(1, mapWidth - w - 1)` from being reversed. A negative size would put a room's centre, and so a corridor, off the map, where the source fails.
- DfsMaze.DfsGenerator.GenerateDungeon requires a map of at least 2 × 2, so that the start cell `mapGrid[1, 1]` exists. When rooms are on, it also requires roomMinSize ≤ roomMaxSize ≤ map side − 2. Then the side drawn by `Random.Range(roomMinSize, roomMaxSize + 1)` is at most map side − 2. That keeps the `Mathf.Clamp` range `[1, mapWidth - roomW - 1]` non-empty, so the clamped room stays inside the border. The source checks none of these.
- The diagnostic trail sets `forwardSteps` and `backtrackSteps` of the maze carver are not modelled. The ghost `visited`/`parent`/`rank` record the search instead.
- `spawnedTiles` is a dictionary from cell to GameObject. It is modelled by its keys, in insertion order.
- TileBsp.BspGenerator.Start requires minPartitionSize ≥ 3, maxRoomSize ≥ 3 and map sides ≥ 3, so that every leaf can hold a room of side at least 3 (`Random.Range(3, …)`). Smaller settings let the source draw from an empty or reversed range and are not modelled.
- TileBsp.BspGenerator.Split requires minPartitionSize ≥ 1, without which the source's recursion need not terminate.
- TileBsp.BspGenerator.GetRoom omits the fallback to the right subtree (`TileBSPDungeon.cs:212-213`). Once every leaf has a room, which `CreateRooms` ensures, the left subtree always yields one (`TileBsp.FirstRoomIsLeftmost`).
- TileBsp.BspGenerator.HasTile is modelled as "the cell is in the map and not empty". Tiles are placed exactly on room cells and corridor cells, but the `placedTiles` list itself is not modelled.
- Cave.CaveGenerator.Generate states only that the cave is 0/1 with a wall border. The exact cave is `Simulate` applied to the filled map, as `InitializeMap` and `RunSimulation` state.
- Integers are unbounded. The source's 32-bit `int` never overflows for map sizes a Unity scene can allocate, so wrap-around is not modelled.
