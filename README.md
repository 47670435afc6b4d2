# FP-ASD maze engine, graph search and board games in Dafny

A model of the computational core of the FP-ASD Java programs, with proofs about it. The core is:

- the terrain `Cell` and the integer `Maze` grid (Maze/Cell.java, Maze/Maze.java, Maze/Support/Wall.java);
- three randomised Prim maze generators:
  - the wall-list carving of Maze/MazeGenerator.java;
  - its inline copy in the stand-alone frame MazeGenerator.java;
  - the carving over cells two apart of Maze/MazePanel.java, which then adds braiding holes, two forced corridors and terrain weights;
- the path finders:
  - BFS, DFS, Dijkstra and A* over `Cell`s (Maze/PathAlgorithms.java);
  - the queue and stack finders over the integer maze (Maze/BFSPathFinder.java, Maze/DFSPathFinder.java, and `solveBFS`/`solveDFS` in MazeGenerator.java);
- the adjacency-matrix graph of Misc/GraphVisualizer.java: its edge list, Dijkstra with lazy deletion, label lookup and the node hit test;
- the move rules of the two ladder board games (LadderAdventureGame.java, SnakeBoardGame.java): die, clamped move, one ladder, win check, turn rotation, and the serpentine board layout.

Each Java class whose fields change becomes a Dafny `class`. Its methods update the fields, arrays (`array2` for the grids) or `seq` fields the way the Java does. Each method is proved against a specification function or predicate over values. The properties of those functions are proved as lemmas:

- the generators keep the border closed, only open cells, and keep every cell the carving opens connected to the start (the panel's braiding holes need not be); on grids with odd sides, Maze/MazeGenerator.java also opens the whole odd lattice, so START and END are joined;
- the searches explore each cell at most once, starting at the start, and return a walk from start to end exactly when the end was reached;
- BFS over `Cell`s returns a path with the fewest steps, and Dijkstra and A* return one of least weight;
- the graph's Dijkstra, with no negative weight, returns a least-cost walk, or an empty path with total -1 exactly when the end is unreachable;
- the games keep every player on the board and rotate the queue.

Random draws are parameters: each `nextInt(n)` is a caller-supplied draw reduced modulo `n`. `double` costs are natural numbers with an infinity value. Java's truncating `/` and `%` are written out where an operand can be negative.

The panel generator does not guarantee a passage from START to END. Its carving over cells two apart opens a cell only when exactly one open cell lies two away, so a cell that sees two open cells before it is taken stays closed (`PanelTiles.PrimStepSkipsShared`). For that generator the model proves only that every cell the carving opened is reached from START. The braiding holes punched afterwards (Maze/MazePanel.java:103-114) are not: a hole at a cell whose four neighbours are still WALL is an isolated GRASS cell.

## Model

| member | source | states |
|---|---|---|
| `Cells.Cell.constructor` | Maze/Cell.java:19-25 | a new cell keeps its coordinates and terrain and starts unvisited, without parent, with `gCost` and `fCost` at the infinite sentinel and `hCost` 0 |
| `Cells.Cell.Reset` | Maze/Cell.java:28-34 | clears visited, parent, `gCost`, `hCost` and `fCost` to exactly the reset state and leaves coordinates and terrain unchanged; the new state does not depend on the old one, so a second reset changes nothing |
| `Cells.Cell.CompareTo` | Maze/Cell.java:45-48 | the sign is negative, zero or positive exactly when this cell's `fCost` is below, equal to or above the other's, infinity included; nothing else is compared |
| `Cells.Weight` | Maze/Cell.java:37-42 | every weight is at least 1; it is at most the water cost exactly for grass, mud and water, and equals the grass cost exactly for grass |
| `Grids.NeighborsSpec` | Maze/PathAlgorithms.java:37-51 | the neighbour list holds exactly the on-board, non-wall cells one orthogonal step away, at most four |
| `Grids.ProbeSpec` | Maze/PathAlgorithms.java:39-48 | direction `k` (up, down, left, right) contributes at most one cell: the non-wall on-board cell at that offset, if any |
| `Grids.PathCostAppend` | Maze/PathAlgorithms.java:28-34 | the cost of a path is additive over concatenation |
| `Grids.PathCostAtLeastLength` | Maze/Cell.java:37-42 | since every weight is at least 1, a path costs at least its number of cells |
| `Grids.AdjacencyStep` | Maze/PathAlgorithms.java:37-51 | the adjacency map the searches use lists, for each cell, exactly its steps, at most four |
| `PathAlgorithms.GetNeighbors` | Maze/PathAlgorithms.java:37-51 | returns the neighbour list of the cell (up, down, left, right, skipping walls and the border) and changes nothing |
| `PathAlgorithms.ReconstructPath` | Maze/PathAlgorithms.java:17-25 | over a tree of parent links the result ends at `end`, starts at a cell without parent, has each cell the parent of the next, and is a walk from the start |
| `PathAlgorithms.CalculatePathCost` | Maze/PathAlgorithms.java:28-34 | the accumulated total equals the sum of the cells' weights (0 for the empty path) |
| `PathAlgorithms.ExhaustedSearch` | Maze/PathAlgorithms.java:62-79 | a search whose frontier ran dry without polling the end leaves no walk from the start to the end |
| `PathAlgorithms.SearchTreeDiscover` | Maze/PathAlgorithms.java:71-77 | marking an unvisited neighbour, giving it the polled cell as parent and appending it to the frontier keeps the search tree |
| `PathAlgorithms.BfsStepInv` | Maze/PathAlgorithms.java:62-78 | one BFS round keeps the search tree and the breadth-first layering (the queue is sorted by depth and spans at most two depths) |
| `PathAlgorithms.BfsShortest` | Maze/PathAlgorithms.java:62-69 | when the end heads the queue, no walk from the start to the end has fewer cells than its depth plus one |
| `PathAlgorithms.BfsExhausts` | Maze/PathAlgorithms.java:62-79 | when the queue empties, every cell reachable from the start was polled and the end was not |
| `PathAlgorithms.SolveBFS` | Maze/PathAlgorithms.java:54-80 | the visit order starts at the start and repeats no cell; the path is non-empty exactly when the end was polled, which is then last; it is the end's parent chain, a walk from the start with the fewest cells; an empty path means no walk reaches the end |
| `PathAlgorithms.BfsRound` | Maze/PathAlgorithms.java:63-77 | one pass of the loop moves the state to the next round of the breadth-first run, and the set of cells never polled shrinks |
| `PathAlgorithms.DiscoverAll` | Maze/PathAlgorithms.java:71-77 | the inner loop marks every undiscovered neighbour, sets its parent field to the polled cell and appends it to the frontier, as the abstract discovery step does |
| `PathAlgorithms.DfsStepInv` | Maze/PathAlgorithms.java:91-106 | one DFS round keeps the search tree |
| `PathAlgorithms.DfsExhausts` | Maze/PathAlgorithms.java:91-108 | when the stack empties, every cell reachable from the start was polled and the end was not |
| `PathAlgorithms.SolveDFS` | Maze/PathAlgorithms.java:83-109 | as for BFS, except that the path need not be a shortest one: start first, no repeats, end last exactly when found, the path is its parent chain and a walk from the start, and an empty path means unreachable |
| `PathAlgorithms.DfsRound` | Maze/PathAlgorithms.java:92-106 | one pass of the loop pops the top, pushes its undiscovered neighbours and moves to the next round of the depth-first run |
| `Queues.Requeue` | Maze/PathAlgorithms.java:137-138 | `remove` then `add` leaves the cell queued exactly once and keeps every other queued cell |
| `Queues.Poll` | Maze/PathAlgorithms.java:121 | polling removes one queued cell whose `fCost` is least under `compareTo`, and keeps all the others with their multiplicities |
| `Queues.LeastIndex` | Maze/Cell.java:45-48 | the index picked has the least `fCost` under `compareTo`, and it is the first such index |
| `BestFirst.ExpandInv` | Maze/PathAlgorithms.java:120-141 | polling a least-priority cell that is not the end and relaxing its neighbours keeps the search invariant: costs settle in priority order, parents form a tree, the queue holds exactly the reached, unpolled cells |
| `BestFirst.CostsFall` | Maze/PathAlgorithms.java:129-140 | relaxation only lowers costs, on strict improvement |
| `BestFirst.PolledKept` | Maze/PathAlgorithms.java:129-140 | a polled cell is never improved, so it is never queued again |
| `BestFirst.LeastOptimal` | Maze/PathAlgorithms.java:120-127 | the queued cell of least priority has been reached at the least cost of any walk from the start |
| `BestFirst.Unreachable` | Maze/PathAlgorithms.java:120-142 | a search whose queue emptied without polling the end leaves no walk to the end |
| `BestFirst.ChainPrice` | Maze/PathAlgorithms.java:17-25 | the parent chain of a reached cell costs its recorded cost plus the start's weight and no walk to it is cheaper |
| `BestFirst.CostedBoard` | Maze/PathAlgorithms.java:150-152 | both priorities are consistent: one step changes the Manhattan distance by at most one and every weight is at least one, so the heuristic never overestimates |
| `BestFirst.RelaxNeighbor` | Maze/PathAlgorithms.java:129-140 | one neighbour is relaxed: on a strict improvement its cost, heuristic, priority and parent fields are set and it is re-queued exactly once; otherwise nothing changes |
| `BestFirst.RelaxNeighbors` | Maze/PathAlgorithms.java:129-140 | the inner loop's fields and queue follow the abstract relaxation of the whole neighbour list |
| `BestFirst.BestFirstRound` | Maze/PathAlgorithms.java:120-141 | one round polls a least-priority cell, records it, stops when it is the end and otherwise relaxes its neighbours |
| `BestFirst.BestFirstLoop` | Maze/PathAlgorithms.java:120-141 | the loop ends either having polled the end at least priority or with an empty queue, keeping the search invariant |
| `BestFirst.VisitedShape` | Maze/PathAlgorithms.java:120-123 | the polled cells start with the start, repeat nothing and include the end exactly when it was found |
| `BestFirst.VisitedOptimal` | Maze/PathAlgorithms.java:120-141 | every polled cell was polled at the least cost of a walk from the start |
| `BestFirst.BestFirstFound` | Maze/PathAlgorithms.java:124-126 | the path is the end's parent chain, a cheapest walk from the start, and the end's `gCost` is its cost beyond the start's weight |
| `BestFirst.SolveBestFirst` | Maze/PathAlgorithms.java:112-179 | the shared contract of Dijkstra and A*: start first, no repeats, end last exactly when found, a cheapest walk whose cost is `gCost(end)` plus the start's weight, and an empty path only when unreachable |
| `BestFirst.SolveDijkstra` | Maze/PathAlgorithms.java:112-143 | the returned path is a cheapest walk from start to end and `calculatePathCost(path)` is `end.gCost` plus the start's weight; empty exactly when the end is unreachable |
| `BestFirst.SolveAStar` | Maze/PathAlgorithms.java:146-179 | with the Manhattan heuristic the returned path is still a cheapest walk, with the same cost relation to `end.gCost`; empty exactly when the end is unreachable |
| `Mazes.InteriorOrBorder` | Maze/Maze.java:38-40 | an in-bounds position is interior exactly when it is not on the outer border |
| `Mazes.Maze.constructor` | Maze/Maze.java:18-23 | the sizes are fixed, both arrays have exactly those sizes, every cell holds the default code 0 (PATH) and nothing is visited |
| `Mazes.Maze.SetStart` | Maze/Maze.java:34 | records the start and leaves the end alone |
| `Mazes.Maze.SetEnd` | Maze/Maze.java:35 | records the end and leaves the start alone |
| `Mazes.Maze.IsValidPosition` | Maze/Maze.java:38-40 | a valid position is in bounds, and an in-bounds position is valid exactly when it is off the border |
| `Mazes.Maze.IsWalkable` | Maze/Maze.java:43-45 | among the four codes, a cell is walkable exactly when it is neither WALL nor START, so START is not walkable |
| `Mazes.Maze.ResetVisited` | Maze/Maze.java:48-52 | every visited flag is false afterwards; only the flags may change |
| `Mazes.Maze.SetCell` | Maze/Maze.java:55-62 | `getCell` then returns the value written, and every other cell keeps its code |
| `Mazes.Maze.MarkVisited` | Maze/Maze.java:65-72 | `isVisited` then holds for that cell, and every other flag is unchanged |
| `Walls.DirectionUnit` | Maze/Support/Wall.java:21-27 | the direction is a unit vector along one axis, so the two sides are one step from the wall, two steps from each other, and distinct |
| `Walls.DirectionParity` | Maze/Support/Wall.java:22-25 | Java's `row % 2 == 0` test agrees with the parity of the row, negative rows included: even rows give (1, 0), odd rows (0, 1) |
| `SearchState.Take` | Maze/BFSPathFinder.java:33 | a queue takes its head and a stack its tail; the rest keeps its order |
| `SearchState.NewNeighborsFacts` | Maze/BFSPathFinder.java:53-63 | the appended neighbours are distinct open neighbours not marked before, and every open neighbour in the directions passed over is now marked |
| `SearchState.RightExploredNext` | Maze/DFSPathFinder.java:53-63 | in the depth-first search an open, unmarked right neighbour is pushed last and so is the next node explored |
| `SearchState.QueueTakesOldest` | Maze/BFSPathFinder.java:53-63 | a queue serves the nodes it held before a round ahead of the round's new ones |
| `SearchState.SearchStep` | Maze/BFSPathFinder.java:32-44 | one round that does not take the end keeps the search state and marks more cells or shortens the frontier |
| `SearchState.SearchFound` | Maze/BFSPathFinder.java:37-40 | taking the end's node: the cells taken, end last, are distinct, begin at the start, and the node's parent chain walks from the start to the end |
| `SearchState.SearchExhausted` | Maze/BFSPathFinder.java:32-44 | a frontier that runs dry leaves every cell reachable from the start explored and the end unreached, so no walk reaches the end |
| `GridSearch.CanMoveTo` | Maze/BFSPathFinder.java:66-70 | a move is allowed exactly when the cell is a valid, walkable position not yet visited |
| `GridSearch.Consider` | Maze/BFSPathFinder.java:54-61 | one direction: the neighbour is marked and appended exactly when it can be moved to |
| `GridSearch.ExploreNeighbors` | Maze/BFSPathFinder.java:53-63 | marks and appends, in direction order, exactly the neighbours that can be moved to |
| `GridSearch.Expand` | Maze/BFSPathFinder.java:43 | a round that does not take the end keeps the search state and makes progress |
| `GridSearch.Search` | Maze/BFSPathFinder.java:25-44 | the start is explored first, no cell twice, every later cell open; the end's node is found exactly when the end was explored, last, and its chain walks from the start; otherwise no walk reaches the end |
| `GridSearch.BuildPath` | Maze/BFSPathFinder.java:73-87 | no node gives the empty path; otherwise the positions of the parent chain from its root to the node |
| `PathFinders.FindPathWith` | Maze/BFSPathFinder.java:14-50 | clears the visited flags, then: start explored first and no cell twice, `pathFound` exactly when the end was explored (then last), the path a walk from start to end, and an empty path only when no walk exists |
| `PathFinders.BFSPathFinder.FindPath` | Maze/BFSPathFinder.java:14-50 | the breadth-first finder meets that contract |
| `PathFinders.DFSPathFinder.FindPath` | Maze/DFSPathFinder.java:14-50 | the depth-first finder meets that contract |
| `Solvable.GeneratedSolvable` | Maze/MazeGenerator.java:22-35 | on a maze generated with odd sides a walk through open cells leads from START to END |
| `Solvable.GeneratedFindsPath` | Maze/MazeGenerator.java:113-121 | so on a generated maze either finder reports a path, a walk from START to END |
| `SolverFrame.IsValid` | MazeGenerator.java:190-192 | a valid position is in bounds and off the border |
| `SolverFrame.MazeGenerator.constructor` | MazeGenerator.java:51-54 | allocates the grids and generates a first maze, from the drawn odd start, with empty path and explored lists |
| `SolverFrame.MazeGenerator.GenerateMaze` | MazeGenerator.java:125-177 | fills with WALL, carves from the drawn odd cell, marks START at (1, 1) and END at (ROWS-2, COLS-2), and clears path, explored and visited |
| `SolverFrame.MazeGenerator.MarkStartAndEnd` | MazeGenerator.java:167-170 | records START and END and writes them onto the grid, END last |
| `SolverFrame.MazeGenerator.ResetVisited` | MazeGenerator.java:315-319 | every visited flag is false afterwards |
| `SolverFrame.MazeGenerator.BuildPath` | MazeGenerator.java:307-313 | prepends the parent chain of the end's node, root first, to the path |
| `SolverFrame.MazeGenerator.Solve` | MazeGenerator.java:194-272 | after the animation the explored list is the search order: START first, no cell twice, END last; the path is a walk from START to END |
| `SolverFrame.MazeGenerator.SolveBFS` | MazeGenerator.java:194-232 | breadth-first: the explored list starts at START, repeats no cell, holds only open cells after START and ends at END; the path is a walk from START to END; the maze is unchanged |
| `SolverFrame.MazeGenerator.SolveDFS` | MazeGenerator.java:234-272 | depth-first: the explored list starts at START, repeats no cell, holds only open cells after START and ends at END; the path is a walk from START to END; the maze is unchanged |
| `SolverFrame.MazeGenerator.Reset` | MazeGenerator.java:321-330 | clears path, explored and visited and leaves the maze as it was |
| `PrimBoard.Snapshot` | Maze/Maze.java:11 | the board holds, for every position of the grid, the code the grid holds there |
| `PrimBoard.WallsAroundFacts` | Maze/MazeGenerator.java:56-66 | at most one wall per direction, each interior, still WALL and one step from the cell, and every such cell in the directions passed over is listed |
| `PrimBoard.CarvingSides` | Maze/MazeGenerator.java:80-103 | a wall is carved exactly when both sides are valid positions and one is PATH while the other is WALL; the wall lies between them, one step from each |
| `PrimBoard.WallBetween` | Maze/MazeGenerator.java:14 | from a cell of the odd lattice, the cell one step away in any direction is off the lattice and separates it from the lattice cell two steps away |
| `PrimBoard.RoundCodes` | Maze/MazeGenerator.java:80-110 | a carving keeps only WALL and PATH codes and the border closed, only ever opens cells, and leaves fewer WALL cells; a wall that is not carved changes nothing |
| `PrimBoard.RoundTree` | Maze/MazeGenerator.java:106-110 | a carving hangs the opened cells from the open side, so the open cells stay a tree rooted at the start |
| `PrimBoard.Round` | Maze/MazeGenerator.java:69-77 | one pass of the loop keeps the carving invariant and either turns a WALL cell into PATH or changes nothing and shortens the list, so the loop ends |
| `PrimBoard.RoundListed` | Maze/MazeGenerator.java:69-77 | after a pass, every wall still worth trying is on the new list |
| `PrimBoard.RootedConnected` | Maze/MazeGenerator.java:22-35 | every PATH cell is joined to the start cell through PATH cells |
| `PrimBoard.LatticeOpen` | Maze/MazeGenerator.java:69-77 | once the list is empty, every interior cell of the odd lattice is PATH |
| `PrimBoard.Finished` | Maze/MazeGenerator.java:35 | when the loop ends, every open cell is reached from the start and (start inside) every interior lattice cell is open |
| `PrimBoard.Seeded` | Maze/MazeGenerator.java:24-32 | before the loop every cell is WALL except the start, and the walls around it are listed |
| `PrimBoard.MarkedConnected` | Maze/MazeGenerator.java:113-121 | marking START and END keeps every PATH cell reached from the start of the carving |
| `PrimBoard.MarkedPassage` | Maze/MazeGenerator.java:113-121 | with odd sides, a passage of open cells joins (1, 1) to (rows-2, cols-2), and it stays one after they are marked |
| `PrimBoard.MarkedFacts` | Maze/MazeGenerator.java:37-38 | marking START and END on a finished carving gives a generated maze: START and END placed, other cells WALL or PATH, border closed, connected, and with odd sides a passage from START to END |
| `Prim.InitializeWalls` | Maze/MazeGenerator.java:42-46 | every cell is WALL afterwards |
| `Prim.SelectRandomOddPosition` | Maze/MazeGenerator.java:49-53 | the row and column are odd, with 1 <= row <= 2 * (rows / 2) - 1 and likewise for the column, and inside the grid |
| `Prim.OddSidesStartInside` | Maze/MazeGenerator.java:49-53 | with odd sides of at least three cells the drawn start is never on the border |
| `Prim.AddAdjacentWalls` | Maze/MazeGenerator.java:56-66 | appends, in direction order, exactly the interior cells one step away that are still WALL |
| `Prim.CreateConnection` | Maze/MazeGenerator.java:106-110 | sets exactly the wall cell and the target cell to PATH, then appends the walls around the target read from the updated grid |
| `Prim.TryCreatePath` | Maze/MazeGenerator.java:80-103 | the grid changes exactly as the carving rule says and the walls around the newly opened cell are appended; otherwise nothing changes |
| `Prim.ProcessWalls` | Maze/MazeGenerator.java:69-77 | the loop terminates with every PATH cell connected to the start, the border closed, every interior lattice cell open, and no cell closed again |
| `Prim.CarveFrom` | Maze/MazeGenerator.java:22-35 | fills with WALL, opens the drawn odd cell and carves until the list is empty; the result is connected from the drawn cell, which is interior when the sides are odd and at least three |
| `PrimGenerator.MazeGenerator.constructor` | Maze/MazeGenerator.java:16-19 | keeps the maze it is given |
| `PrimGenerator.MazeGenerator.SetStartAndEndPoints` | Maze/MazeGenerator.java:113-121 | records (1, 1) as the start and (rows-2, cols-2) as the end and writes START then END onto the grid |
| `PrimGenerator.MazeGenerator.Generate` | Maze/MazeGenerator.java:22-39 | START and END are recorded and the grid is a generated maze for a carving from the drawn cell |
| `PanelTiles.AroundFacts` | Maze/MazePanel.java:280-290 | the cells `dist` away in the first `n` directions that are inside the grid, none twice |
| `PanelTiles.OpenOfFacts` | Maze/MazePanel.java:73-76 | the `visitedNeighbors` filter keeps exactly the listed cells that are not WALL, in order |
| `PanelTiles.VisitedFacts` | Maze/MazePanel.java:72-76 | the visited neighbours of a wall are exactly the open cells two away inside the grid, at most four, none twice |
| `PanelTiles.WallsAroundFacts` | Maze/MazePanel.java:157-168 | `addWalls` lists at most four cells, each inside the grid, still WALL and two away, on the odd lattice when the cell is |
| `PanelTiles.PrimStepOpens` | Maze/MazePanel.java:78-89 | a step carves exactly when one cell two away is open; it then opens the wall cell and the cell between it and that neighbour, one step from each, and nothing else; otherwise nothing changes |
| `PanelTiles.PrimStepSkipsShared` | Maze/MazePanel.java:79 | a cell with two or more open cells two away is never carved, however often it is taken |
| `PanelTiles.StepCodes` | Maze/MazePanel.java:66-90 | a step keeps every open cell plain GRASS and off the border and only opens cells |
| `PanelTiles.StepConnected` | Maze/MazePanel.java:79-88 | the carved cells are reached through the open neighbour, so every open cell stays reached from (1, 1) |
| `PanelTiles.RoundKeeps` | Maze/MazePanel.java:66-90 | a pass of the loop keeps the carving invariant and either opens a cell or keeps the codes and lightens the list, so the loop ends |
| `PanelTiles.RoundLighter` | Maze/MazePanel.java:68-69 | a pass that changes no code leaves a lighter list |
| `PanelTiles.PrimRun` | Maze/MazePanel.java:66-90 | the loop, run to the end, keeps the invariant and closes no cell |
| `PanelTiles.PrimCarving` | Maze/MazePanel.java:56-90 | the carving from (1, 1) ends with every open cell GRASS, off the border and reached from (1, 1) |
| `PanelTiles.TerrainOf` | Maze/MazePanel.java:125-128 | a draw gives GRASS, MUD or WATER: GRASS exactly below 65, WATER exactly from 85 |
| `PanelTiles.BraidedPlain` | Maze/MazePanel.java:103-114 | braiding only opens cells, never on the border |
| `PanelTiles.CorridorPlain` | Maze/MazePanel.java:148-154 | a corridor on an interior row opens its cells from column 2 on and nothing on the border |
| `PanelTiles.CarvePathPlain` | Maze/MazePanel.java:142-155 | `carvePath` bumps an even row to the next odd row and opens it over columns 2 .. COLS-3, never touching the border |
| `PanelTiles.WeighFacts` | Maze/MazePanel.java:122-131 | weighting keeps walls walls and open cells open and gives every open cell GRASS, MUD or WATER |
| `PanelTiles.EndsFacts` | Maze/MazePanel.java:93-96 | making the start and the end GRASS changes no other cell |
| `PanelTiles.WeighEnds` | Maze/MazePanel.java:122-135 | weighting and then making START and END GRASS finishes the grid: only the four codes, border closed, both corridors open, nothing closed |
| `PanelTiles.FinishGenerated` | Maze/MazePanel.java:93-135 | whatever the draws, a finished carving ends as a generated maze: border WALL, every open cell GRASS, MUD or WATER, START and END GRASS, both corridors open, and every cell the carving opened still open |
| `PanelTiles.GeneratedReach` | Maze/MazePanel.java:56-135 | every cell the carving opened is reached from START in the finished maze |
| `Panel.GenerationGenerated` | Maze/MazePanel.java:46-139 | the codes `generateMaze` leaves for any draws are a generated maze |
| `Panel.MazePanel.constructor` | Maze/MazePanel.java:28-41 | fills the grid with new cells and generates a first maze, with no animation and no path shown |
| `Panel.MazePanel.FillWalls` | Maze/MazePanel.java:50-54 | every place gets a new, reset WALL cell at its own coordinates |
| `Panel.MazePanel.GetNeighbors` | Maze/MazePanel.java:280-290 | returns the cells `dist` away up, down, left and right that are inside the grid, in that order |
| `Panel.MazePanel.VisitedOf` | Maze/MazePanel.java:73-76 | returns the cells of the list that are not WALL, in order |
| `Panel.MazePanel.AddWalls` | Maze/MazePanel.java:157-168 | appends the cells two away that are inside the grid and still WALL |
| `Panel.MazePanel.Join` | Maze/MazePanel.java:80-88 | the wall cell and the cell between it and its one open neighbour become GRASS and the walls around it are appended |
| `Panel.MazePanel.TakeWall` | Maze/MazePanel.java:68-89 | one pass of the loop changes the grid and the list as the abstract round does |
| `Panel.MazePanel.OpenRoot` | Maze/MazePanel.java:58-62 | (1, 1) becomes GRASS and the walls two away from it are listed |
| `Panel.MazePanel.Carve` | Maze/MazePanel.java:56-90 | the grid shows the codes of the carving the draws make |
| `Panel.MazePanel.Braid` | Maze/MazePanel.java:103-114 | ROWS * COLS / 10 drawn cells in rows and columns 1 .. size-2 become GRASS when still WALL |
| `Panel.MazePanel.CarvePath` | Maze/MazePanel.java:142-155 | the corridor cells of the bumped row become GRASS, and the cell below when its draw is below 2 and it is off the border |
| `Panel.MazePanel.AssignWeights` | Maze/MazePanel.java:122-131 | every cell that is not WALL gets GRASS for a draw below 65, MUD below 85, WATER otherwise |
| `Panel.MazePanel.Weights` | Maze/MazePanel.java:122-135 | the weights, then START and END GRASS again |
| `Panel.MazePanel.GenerateMaze` | Maze/MazePanel.java:46-139 | does nothing while animating; otherwise the grid shows the generated maze the draws give, START and END are the two interior corners, every cell's scratch state is reset, and the animation queue is kept |
| `Panel.MazePanel.ResetCells` | Maze/MazePanel.java:272-276 | every cell's scratch state is cleared and no terrain changes |
| `Panel.MazePanel.ResetPath` | Maze/MazePanel.java:268-278 | no animation, no path shown, every cell's scratch state cleared, terrain unchanged |
| `Panel.MazePanel.Search` | Maze/MazePanel.java:247-250 | runs the search the name selects, with that search's guarantee; every cell of its visit order is a grid cell |
| `Panel.MazePanel.MarkVisited` | Maze/MazePanel.java:196-205 | the animation marks exactly the cells of the visit order as visited |
| `Panel.MazePanel.Replay` | Maze/MazePanel.java:186-220 | the animation queue is the visit order, exactly its cells end up visited, the animation stops and the search's path is shown |
| `Panel.MazePanel.StartSolving` | Maze/MazePanel.java:173-233 | does nothing while animating; otherwise resets as `resetPath` does; an unknown name stops there; a known one runs its search with that search's guarantee, leaves exactly the cells of the visit order visited, shows the path and ends the animation |
| `Panel.MazePanel.RunOne` | Maze/MazePanel.java:242-261 | every cell is reset, so the run starts from a clean state; it then reports the search's result and the weight of its path when it found one |
| `Panel.MazePanel.CompareAlgorithms` | Maze/MazePanel.java:235-266 | does nothing while animating, no cell touched; otherwise one report per algorithm in the order BFS, DFS, Dijkstra, A*, each with its guarantee on the same terrain, then everything reset |
| `Panel.ComparedCosts` | Maze/MazePanel.java:235-266 | in a comparison every algorithm finds a path exactly when Dijkstra does; Dijkstra and A* report the same weight, and no path BFS or DFS finds weighs less |
| `Ladders.TableShape` | LadderAdventureGame.java:641-648 | every installed ladder climbs upwards between nodes 0 and 61, and no ladder starts where another one ends |
| `Ladders.FirstLadder` | LadderAdventureGame.java:816-833 | the result is the first ladder whose bottom is the node, or none exactly when no ladder starts there |
| `Ladders.ClimbBounds` | LadderAdventureGame.java:816-820 | checking the ladders never moves a player down, moves them exactly when some ladder starts on their node, and then onto a node inside the table's range |
| `Ladders.ClimbOnce` | LadderAdventureGame.java:816-833 | with no chained ladders, a second ladder check after a climb changes nothing |
| `Ladders.SquareOnBoard` | LadderAdventureGame.java:601-610 | each of the 64 nodes is drawn on a square of the 8x8 board, on the row counted up from the bottom |
| `Ladders.SquareInjective` | LadderAdventureGame.java:601-610 | different nodes are drawn on different squares and at different pixel centres |
| `Ladders.SquareAdjacent` | LadderAdventureGame.java:601-610 | consecutive nodes sit on squares that share a side, so the board is one serpentine track |
| `LadderAdventure.Player.constructor` | LadderAdventureGame.java:15-20 | a new player starts on node 0 with an empty roll history |
| `LadderAdventure.Player.AddStep` | LadderAdventureGame.java:22-24 | a roll is appended to the player's history |
| `LadderAdventure.Target` | LadderAdventureGame.java:753-762 | a green roll moves forward and a red one backward by the move, clamped to nodes 0..63, so a move from the board stays on it |
| `LadderAdventure.MoveRange` | LadderAdventureGame.java:741-751 | a die shows 1..6, a five moves ten squares, and no roll moves exactly five |
| `LadderAdventure.LandingBounds` | LadderAdventureGame.java:753-779 | a roll and its ladder keep the player on nodes 0..63, a green roll never moves them down, and the last node is reached only by the move itself |
| `LadderAdventure.Game.constructor` | LadderAdventureGame.java:629-648 | a new game has no players, the eight ladders installed, no roll shown and neither an animation nor an end |
| `LadderAdventure.Game.StartGameWithPlayers` | LadderAdventureGame.java:677-692 | one fresh player per name, at most six, each on node 0 with no rolls, both listed and queued in the order of the names |
| `LadderAdventure.Game.CheckLadder` | LadderAdventureGame.java:816-833 | the player climbs the first ladder whose bottom is their node, and only that one |
| `LadderAdventure.Game.NextPlayer` | LadderAdventureGame.java:796-800 | the head of the queue moves to its tail and the order of the others is kept |
| `LadderAdventure.Game.RollDiceAction` | LadderAdventureGame.java:729-766 | a press while animating, after the end or with no players changes nothing; otherwise the roll is recorded, the current player lands on the clamped target or the top of its ladder, the game ends exactly when that is node 63, and otherwise the turn passes; nobody else moves |
| `LadderAdventure.Game.AnimatePlayerMovement` | LadderAdventureGame.java:768-813 | when the animation finishes the player stands on the target or the top of its ladder, the game has ended exactly when that is the last node, and otherwise the queue has rotated |
| `LadderAdventure.NodePosition` | LadderAdventureGame.java:601-610 | every node is drawn inside the board's pixel area |
| `SnakeBoard.Player.constructor` | SnakeBoardGame.java:16-21 | a new player starts on node 1 with an empty roll history |
| `SnakeBoard.Player.AddStep` | SnakeBoardGame.java:23-25 | a roll is appended to the player's history |
| `SnakeBoard.Move` | SnakeBoardGame.java:697-711 | an even roll moves forward and an odd one backward, clamped to nodes 1..64 |
| `SnakeBoard.LandingBounds` | SnakeBoardGame.java:704-736 | a roll and its ladder keep the player on nodes 1..64, so node 0 is never reached, an even roll never moves them down, and node 64 is reached only by the move itself |
| `SnakeBoard.LaddersFit` | SnakeBoardGame.java:603-610 | the installed ladders lie between nodes 1 and 61 and climb upwards |
| `SnakeBoard.Game.constructor` | SnakeBoardGame.java:589-611 | a new game has no players, the eight ladders installed and no roll shown |
| `SnakeBoard.Game.StartGameWithPlayers` | SnakeBoardGame.java:639-654 | one fresh player per name, at most six, each on node 1 with no rolls, listed and queued in the order of the names |
| `SnakeBoard.Game.CheckLadder` | SnakeBoardGame.java:714-724 | the player climbs the first ladder whose bottom is their node, and only that one |
| `SnakeBoard.Game.RollDiceAction` | SnakeBoardGame.java:693-754 | with no player queued nothing changes; otherwise the roll is recorded with its direction, the current player lands on the clamped move or the top of its ladder, the button is disabled, and the next turn is pending exactly when the player has not reached node 64; nobody else moves |
| `SnakeBoard.Game.NextTurnAction` | SnakeBoardGame.java:756-763 | the head of the queue moves to its tail and the button is enabled again |
| `SnakeBoard.NodePosition` | SnakeBoardGame.java:559-569 | every node 1..64 is drawn inside the board's pixel area |
| `Graphs.ContainsBetween` | Misc/GraphVisualizer.java:27-31 | a click counts as inside a node's disc whenever it is within the radius in steps along the axes, and never when it is farther than the radius along either axis |
| `GraphEdges.RowMajorEdges` | Misc/GraphVisualizer.java:96-102 | the edge list holds exactly one edge per non-zero matrix entry, weighted by that entry, in row-major order, so no entry is listed twice |
| `GraphEdges.OrderedPairs` | Misc/GraphVisualizer.java:96-102 | in a list built row by row and column by column, every edge comes before every later one in row-major order |
| `Graphs.LeastEntry` | Misc/GraphVisualizer.java:124-125 | the queue entry `poll` takes has the least distance among those queued |
| `Graphs.Without` | Misc/GraphVisualizer.java:125 | after `poll` the queue is one entry shorter and still holds every other entry |
| `Graphs.StartSearch` | Misc/GraphVisualizer.java:113-122 | the initial distances, predecessors, visited marks and queue satisfy the main loop's invariant |
| `Graphs.SkipVisited` | Misc/GraphVisualizer.java:128 | skipping a stale entry of a node already visited keeps the invariant |
| `Graphs.FirstOpen` | Misc/GraphVisualizer.java:124-141 | on any walk from the start some node not yet visited, no later than a given unvisited one, already carries a distance no greater than the walk's cost up to it |
| `Graphs.PolledLeast` | Misc/GraphVisualizer.java:124-130 | with no negative weight, the node of the least entry, when not yet visited, carries the least cost of any walk from the start |
| `Graphs.Closed` | Misc/GraphVisualizer.java:123-141 | once the queue is empty, the last node of every walk from the start has been visited |
| `Graphs.ReachedVisited` | Misc/GraphVisualizer.java:123-141 | once the queue is empty, every node reachable from the start has been visited |
| `Graphs.Graph.constructor` | Misc/GraphVisualizer.java:75-81 | the graph keeps its matrix and labels and its edge list is the row-major list of non-zero entries |
| `Graphs.Graph.InitializeGraph` | Misc/GraphVisualizer.java:84-102 | the edge loop appends one edge per non-zero entry, in row-major order, to the edges already there |
| `Graphs.Graph.GetNodeIndexByLabel` | Misc/GraphVisualizer.java:160-167 | the result is the first index holding the label, or -1 exactly when no node carries it |
| `Graphs.Graph.Dijkstra` | Misc/GraphVisualizer.java:111-158 | the result's path is empty with total -1 exactly when the end is unreachable; otherwise it is a walk from start to end without repeated nodes, labelled node by node, whose total is its cost and, with no negative weight, the least cost of any walk |
| `Graphs.Graph.Round` | Misc/GraphVisualizer.java:124-140 | one round of the main loop keeps the invariant, and either visits one more node or shrinks the queue |
| `Graphs.Graph.RelaxNeighbors` | Misc/GraphVisualizer.java:131-139 | relaxing every arc out of the node just visited restores the main loop's invariant |
| `Graphs.Graph.Reconstruct` | Misc/GraphVisualizer.java:150-155 | following the predecessor links back from the end yields a walk from the start without repeated nodes whose cost is the end's distance, with each node's label |
| `Graphs.Graph.RunDijkstra` | Misc/GraphVisualizer.java:622-636 | a missing label stops the run, two labels of one node stop it, and otherwise `dijkstra` answers between the first nodes carrying the two labels |

## Left out

- Swing and AWT: painting, layout, buttons, dialogs, the setup panels that parse player names, and the files that only hold such code (Maze/Mazes/MazePanel.java, Maze/Mazes/MazeSolverApp.java, Maze/Mazes/MazeController.java, Maze/MazeFinalProject.java).
- Timer-driven animation: the timers of `startSolving` and of the frame's `animateSearch`, and the step-by-step moves of `animatePlayerMovement`, are modelled by their net final state. The frames between (repaints, the cell currently drawn) are not.
- Sound: Maze/SoundUtils.java, Maze/Support/SoundEffect.java and both games' `SoundPlayer`. They are audio output only.
- The distribution of `java.util.Random`: draws are inputs. The terrain split, the dice colour and the wall picks hold for every draw. Each random phase of `generateMaze` gets its own draw stream in place of one shared generator.
- Floating point: `Cell` costs are `double` but only ever hold integer sums or `Double.MAX_VALUE`, which become natural numbers and an infinity value. The circle layout of the graph's nodes (`cos`/`sin`) is left out.
- Timing and text: `System.nanoTime` and `String.format` in `compareAlgorithms`, and the text `runDijkstra` prints. `Panel.MazePanel.CompareAlgorithms` returns one line per algorithm instead of a formatted string.
- `PriorityQueue` tie-breaking: among entries of equal priority the model takes the first queued one. The proofs hold for that choice.
- `Graphs.Graph.Dijkstra`: 32-bit overflow is not modelled. This covers distance sums, the comparator `a[1] - b[1]`, and `Integer.MAX_VALUE` as a real distance. A total equal to `Integer.MAX_VALUE` would be reported as unreachable by the code, and a reachable total of -1 (negative weights) could not be told from "no path".
- `Graphs.ContainsBetween`: the hit test is pinned between the diamond and the square of radius 25, not stated as the exact disc. `Node.contains` itself is the disc test.
- `PathFinders.BFSPathFinder.FindPath`: the fewest-steps property of the queue finder over the integer maze is not proved. It is proved for `PathAlgorithms.SolveBFS` over `Cell`s.
- `SolverFrame.MazeGenerator.SolveBFS`: likewise, the fewest-steps property of the frame's breadth-first search is not proved.
- Files with no behaviour of their own are not separate members: the `PathFinder` interfaces, Maze/Support/Node.java and Maze/SearchResult.java (datatypes inside the finders), and Maze/Mazes/MazeConstants.java (its cell codes are constants of the model).
- Ladder Gane/UlarTanggaASD.java is not part of this model.
- `Panel.MazePanel.GenerateMaze`: it does `resetPath`'s grid reset as part of building the new cells, not by calling `Panel.MazePanel.ResetPath`.
- Grids with fewer than two rows or columns: `selectRandomOddPosition` (Maze/MazeGenerator.java:49-53) then calls `nextInt(0)`, which throws. `Prim.SelectRandomOddPosition`, `Prim.CarveFrom`, `PrimGenerator.MazeGenerator.SetStartAndEndPoints` and `PrimGenerator.MazeGenerator.Generate` require at least two rows and two columns, so that exception path is not modelled. Every maze the program builds is 25 by 25 (MazeConstants).
