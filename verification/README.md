# Massive grid pathfinding, modelled in Dafny

This project models the grid pathfinding core of the Massive Unreal project and proves properties of that model:

- **Grid manager.** A row-major array of cells with a world/grid mapping, a random obstacle roll and an 8-neighbour query that refuses to cut corners.
- **Open set.** The binary-heap open set with decrease-key, `FBinaryHeapOpenSet`, which both search controllers carry.
- **A\*.** A* over the grid manager's cells.
- **Lazy Theta\*.** Theta* over a controller-owned cost map, with a Bresenham line-of-sight test.
- **Flow-field controller.** A FIFO, 4-neighbour label-correcting pass. Each cell then points to its lowest neighbour.
- **Flow-field subsystem.** A LIFO, 8-neighbour pass. A straight step costs 1 and a diagonal step 1.4, each times the entered cell's MovementCost. A cell with MovementCost ≤ 0 is blocked. The subsystem also has the direction pass and the world-location queries.

The model is functional. Every actor or subsystem is an immutable datatype, and every operation takes its state and returns a new one. Loops are written as methods with invariants. The search loop shared by A* and Theta* is modelled once over an abstract graph (`SearchCore`). The label-correcting relaxation shared by both flow fields is modelled once over an abstract net (`Relaxation`). Each controller instantiates the shared model with its own neighbours, step costs and heuristic.

Floats are modelled as reals. The `TNumericLimits<float>::Max()` sentinel becomes a separate value: `Dist.Inf` in the searches, `Level.Unreached` in the flow fields.

Modules, one per file:

- `Geometry`: vectors, points, offsets, and the clamp/floor/round operations of `FMath`.
- `GridIndex`: row-major indexing.
- `GridManager`.
- `OpenSet`.
- `Octile`: the heuristic and the step cost.
- `SearchCore`.
- `AStar`.
- `Bresenham`.
- `ThetaStar`.
- `Relaxation`.
- `FlowFieldController`.
- `FlowFieldSubsystem`.

Points of the code that are easy to misread:

- **The subsystem's target gets a direction.** The subsystem's direction pass gives the target cell a direction like any other reached cell. It points towards the lowest neighbour, and is non-zero whenever the cell size is non-zero and some neighbour was reached. The pass never compares a cell with its own cost (FlowFieldSubsystem.cpp:109-141). The controller's direction pass leaves its target at zero, because BestCost starts at the cell's own value (FlowFieldController.cpp:162). `FlowFieldSubsystem.TargetGetsDirection` and `FlowFieldController.TargetStill` state the two behaviours.
- **Theta\* takes its grid fields from the A\* header.** `ThetaStarController.cpp` uses GridWidth, GridHeight, CellSize, GridOrigin, CostMap, bAllowDiagonal and bPreventDiagonalCutting, but `ThetaStarController.h` does not declare them. The model gives them the declarations and defaults that `AStarController.h` has. It also uses the header's own DiagonalCost.
- **The subsystem's header declares almost nothing.** `FlowFieldSubsystem.h` declares only Initialize and Deinitialize. The grid, its dimensions and the operations come from their use in `FlowFieldSubsystem.cpp`, and nothing gives them defaults.

## Model

| member | source | states |
|---|---|---|
| Geometry.Clamp | Source/Massive/FlowFieldSubsystem.cpp:239-240 | With lo ≤ hi the result lies in [lo, hi], and a value already in range is returned unchanged. |
| Geometry.FloorToInt | Source/Massive/ThetaStarController.cpp:402-403 | The result is the unique integer n with n ≤ r < n + 1. |
| Geometry.RoundToInt | Source/Massive/GridManager.cpp:222-223 | The result is the nearest integer, with halves rounding up: n − 0.5 ≤ r < n + 0.5. |
| Geometry.RoundWhole | Source/Massive/GridManager.cpp:222-223 | Rounding a whole number gives it back, and so does flooring a whole number plus one half. This makes a cell's world position map back to that cell, in both the grid manager and the flow-field subsystem. |
| GridIndex.IndexToXY | Source/Massive/AStarController.h:65 | IndexToXY inverts XYToIndex. For a non-negative index the column lies in [0, width). |
| GridIndex.CDivNonNegativeIfNeeded | Source/Massive/AStarController.h:65 | On a non-negative index, C++'s truncating `/` and `%` agree with Euclidean division. |
| GridIndex.IndexInRange | Source/Massive/GridManager.h:94-102 | Every inside cell maps to a slot of a width × height array. |
| GridIndex.IndexInjective | Source/Massive/GridManager.h:94-102 | Two inside cells never share a slot. |
| GridIndex.CoordsOfIndex | Source/Massive/GridManager.h:94-97 | Encoding an inside cell and decoding it gives the cell back. |
| GridIndex.IndexOfCoords | Source/Massive/AStarController.h:64-66 | Every slot of a width × height array decodes to an inside cell. |
| GridManager.DefaultCell | Source/Massive/GridManager.h:7-26 | A default FGridCell costs 1, is not blocked, and has a zero integration value and a zero flow direction. |
| GridManager.WorldToCell | Source/Massive/GridManager.cpp:215-229 | On a non-empty grid every world location maps to an inside cell, because of the clamp. |
| GridManager.WorldCellRoundTrip | Source/Massive/GridManager.cpp:215-238 | For every inside cell, WorldToCell(CellToWorld(c)) == c. |
| GridManager.GenerateGridLayout | Source/Massive/GridManager.cpp:14-41 | After GenerateGrid the array has exactly width × height cells. The cell at XYToIndex(x, y) records x and y, sits at the centred world position, costs 1 and is unblocked. The configuration is unchanged. |
| GridManager.RandomizeGridCosts | Source/Massive/GridManager.cpp:111-126 | Each cell becomes either (Cost −1, blocked) or (Cost 1, unblocked), as its roll says. Cost < 0 holds exactly when the cell is blocked. Every other field and the grid's shape are unchanged. |
| GridManager.RandomizeCoversEveryLayout | Source/Massive/GridManager.cpp:111-126 | Every choice of blocked cells is produced by some roll. |
| GridManager.CollectNeighbours | Source/Massive/GridManager.cpp:172-210 | A cell is collected exactly when some tried offset is accepted for it. At most one cell is collected per offset. |
| GridManager.GetNeighbors | Source/Massive/GridManager.cpp:162-213 | GetNeighbors returns at most 8 cells. |
| GridManager.GetNeighborsExactly | Source/Massive/GridManager.cpp:162-213 | A cell is returned exactly when it is adjacent. Adjacent means: inside, one king move away, not an obstacle (Cost ≥ 500 or blocked), and for a diagonal move both cells sharing an edge with the step are inside and not obstacles. |
| GridManager.OffsetOfAdjacent | Source/Massive/GridManager.cpp:166-170 | The step to any cell one king move away is one of the eight offsets. |
| GridManager.AdjacentAccepted | Source/Massive/GridManager.cpp:174-207 | The step to an adjacent cell passes every test of the loop. |
| GridManager.AcceptedAdjacent | Source/Massive/GridManager.cpp:174-207 | A step that passes the loop's tests leads to an adjacent cell. |
| GridManager.NeighboursAreAdjacentCells | Source/Massive/GridManager.cpp:162-213 | Every neighbour is inside, passable, exactly one king move away, and distinct from the cell queried. |
| OpenSet.ElementsByPosition | Source/Massive/AStarController.h:141-153 | In a consistent heap a node is present exactly when its Pos entry is not −1. |
| OpenSet.SameElements | Source/Massive/AStarController.h:143-145 | Two consistent heaps that agree on presence and keys hold the same elements. |
| OpenSet.Init | Source/Massive/AStarController.h:85-89 | Init gives a valid, empty open set with NumNodes position entries, all −1. |
| OpenSet.ReservePos | Source/Massive/AStarController.h:141 | ReservePos resets every position to −1 and keeps the heap array. On an empty heap the result is a valid, empty open set. |
| OpenSet.IsEmpty | Source/Massive/AStarController.h:91 | On a consistent set, IsEmpty holds exactly when the abstract content is empty. |
| OpenSet.Clear | Source/Massive/AStarController.h:93-101 | Clear empties the heap and resets the position of every node the heap held. Other positions are unchanged. A consistent set becomes valid and empty. |
| OpenSet.SwapNodes | Source/Massive/AStarController.h:147-153 | SwapNodes exchanges two slots and keeps Pos consistent. The content is unchanged. |
| OpenSet.SiftUp | Source/Massive/AStarController.h:155-167 | SiftUp repairs a heap that is ordered except above one slot. The content is unchanged. |
| OpenSet.SwapUpKeepsOrder | Source/Massive/AStarController.h:155-167 | Swapping a slot that is smaller than its parent moves the only possible disorder up to the parent. |
| OpenSet.SiftDown | Source/Massive/AStarController.h:169-182 | SiftDown repairs a heap that is ordered except below one slot. The content is unchanged. |
| OpenSet.Smallest | Source/Massive/AStarController.h:174-178 | The chosen slot is i, or a child strictly below i. In either case it is no larger than any child of i. |
| OpenSet.ChildrenOf | Source/Massive/AStarController.h:159 | The only slots whose parent is i are 2i + 1 and 2i + 2. |
| OpenSet.SettledIsOrdered | Source/Massive/AStarController.h:179-180 | When SiftDown stops at a slot that is no larger than its children, the whole heap is ordered. |
| OpenSet.SwapDownKeepsOrder | Source/Massive/AStarController.h:169-182 | Swapping with the smallest child moves the only possible disorder down to that child. |
| OpenSet.RootIsMinimal | Source/Massive/AStarController.h:112-121 | In an ordered heap the root carries the smallest key. |
| OpenSet.Push | Source/Massive/AStarController.h:103-110 | Push adds the node with its key. The result is valid, and its content is the old content plus that one entry. |
| OpenSet.PopMin | Source/Massive/AStarController.h:112-121 | On an empty heap PopMin returns −1 and changes nothing. Otherwise it returns a node with the smallest key and removes exactly that node. The result stays valid. |
| OpenSet.DropLast | Source/Massive/AStarController.h:117-118 | Removing the last slot and clearing its position removes exactly that node from the content. |
| OpenSet.LowerInPlace | Source/Massive/AStarController.h:133-136 | Lowering a present node's key in place changes only that key. It leaves the heap ordered except above that slot. |
| OpenSet.PushOrDecrease | Source/Massive/AStarController.h:123-139 | An out-of-range node changes nothing. An absent node is inserted with its key. A present node's key becomes the smaller of the old and new keys. Nothing else changes. |
| Octile.MovementCostBetween | Source/Massive/AStarController.cpp:39-50 | The step cost is always 1 or DiagonalCost. |
| Octile.StepCostIsOctile | Source/Massive/AStarController.cpp:39-50 | Between cells one king move apart, the step cost equals the octile distance: 1 for a straight step and DiagonalCost for a diagonal one. |
| Octile.OctileNonNegative | Source/Massive/AStarController.cpp:151-160 | With a non-negative DiagonalCost the heuristic is never negative. |
| Octile.OctileZeroIff | Source/Massive/AStarController.cpp:151-160 | With a positive DiagonalCost the heuristic is zero exactly at the goal. |
| Octile.OctileBlend | Source/Massive/AStarController.cpp:158-159 | The octile distance equals (2 − d)·Chebyshev + (d − 1)·taxicab, where d is DiagonalCost. |
| Octile.ChebyshevTriangle | Source/Massive/AStarController.cpp:156-157 | The king-move distance satisfies the triangle inequality. |
| Octile.OctileTriangle | Source/Massive/AStarController.h:41-42 | For DiagonalCost in the property's clamp range [1, 2], the octile distance satisfies the triangle inequality. |
| Octile.TaxicabTriangle | Source/Massive/AStarController.cpp:156-157 | The taxicab distance satisfies the triangle inequality. |
| Octile.HeuristicConsistent | Source/Massive/AStarController.cpp:150-160 | The heuristic comment's claim, for DiagonalCost in [1, 2]: for any king-move step with terrain factor ≥ 1, h(a) ≤ step cost + h(b). |
| SearchCore.WalkStaysInside | Source/Massive/AStarController.cpp:170-210 | A walk that starts inside a set closed under neighbours never leaves it. This is the fact behind the "no path" answer. |
| SearchCore.CountOpen | Source/Massive/AStarController.cpp:137-144 | The number of unclosed nodes never exceeds the number of nodes. |
| SearchCore.CloseLowersCount | Source/Massive/AStarController.cpp:182 | Closing an unclosed node lowers the open count by exactly one. This is why the search loop terminates. |
| SearchCore.CountOpenByFlags | Source/Massive/AStarController.cpp:189-209 | Relaxation leaves the closed flags, and therefore the open count, unchanged. |
| SearchCore.Predecessor | Source/Massive/ThetaStarController.cpp:310-311 | A neighbour hangs off Curr's parent when that parent exists and the shortcut (line of sight) holds. Otherwise it hangs off Curr. |
| SearchCore.Relax | Source/Massive/ThetaStarController.cpp:302-335 | Relax changes only neighbour k, and never a closed one. It rewrites k exactly when predecessor G plus step cost is strictly below k's G. A rewrite records that G, the predecessor as parent, and F = G + H. |
| SearchCore.RelaxNeighbour | Source/Massive/AStarController.cpp:193-208 | Relaxing one neighbour and pushing or lowering it keeps three facts: the open set is exactly the reached, unclosed nodes; every parent is closed and linked; the neighbour ends up reached. |
| SearchCore.CurrentSettled | Source/Massive/AStarController.cpp:198 | A closed node and its parent, if any, have finite G, so the tentative cost is well defined. |
| SearchCore.RelaxKeepsParents | Source/Massive/AStarController.cpp:200-208 | After a relaxation every reached node other than the start still hangs off an earlier-closed parent through a neighbour or shortcut link. |
| SearchCore.FrontierAfterRelax | Source/Massive/AStarController.cpp:207 | Updating the open set with the relaxed node keeps it equal to the set of reached, unclosed nodes. |
| SearchCore.Expand | Source/Massive/AStarController.cpp:188-209 | After expanding Curr every neighbour of every closed node is reached. The frontier and parent facts are kept, and no closed flag changes. |
| SearchCore.TraceParents | Source/Massive/AStarController.cpp:213-223 | Following parents from the goal ends at the start. The reversed trace runs from start to goal along recorded links. |
| SearchCore.BestFirst | Source/Massive/AStarController.cpp:132-223 | A non-empty result runs from start to goal along neighbour or shortcut links. An empty result means no walk along neighbour lists joins start to goal. Start equal to goal gives [start]. |
| SearchCore.Initially | Source/Massive/AStarController.cpp:163-166 | After the start is pushed, every loop invariant holds. |
| SearchCore.Settle | Source/Massive/AStarController.cpp:182-209 | One round of closing and expanding keeps every invariant and closes exactly one more node. |
| SearchCore.CloseCurrent | Source/Massive/AStarController.cpp:172-182 | Popping and closing Curr keeps the bookkeeping. Only Curr's own neighbours may still be unreached. |
| SearchCore.Exhausted | Source/Massive/AStarController.cpp:170 | When the open set runs dry without reaching the goal, no walk from the start reaches the goal. |
| AStar.CellOfIndex | Source/Massive/AStarController.cpp:184-191 | Decoding with the grid manager's width inverts its XYToIndex. Every slot of a shaped grid decodes to an inside cell. |
| AStar.CellIndexRoundTrip | Source/Massive/AStarController.cpp:122-123 | Encoding an inside cell and decoding it gives the cell back, and its index is a valid slot. |
| AStar.DefaultWidthsMisplaceCells | Source/Massive/AStarController.h:65 | At the default widths the controller's IndexToXY sends the grid manager's cell (0, 1) to (20, 1). Decoding with the grid manager's width gives (0, 1). |
| AStar.NeighbourIndicesOfCell | Source/Massive/AStarController.cpp:188-191 | An index is in the neighbour list of a cell's index exactly when it is the index of a cell GetNeighbors returns. |
| AStar.NeighbourIndicesInRange | Source/Massive/AStarController.cpp:191 | Every neighbour index is a valid array slot. |
| AStar.TerrainCost | Source/Massive/AStarController.cpp:196 | The terrain factor is at least 1. |
| AStar.SearchGraph | Source/Massive/AStarController.cpp:132-207 | With the decode corrected, the graph A* searches has one node per cell, and its neighbour lists only name nodes. |
| AStar.CellWalkIsIndexWalk | Source/Massive/AStarController.cpp:188-191 | A route through GetNeighbors cells is a walk in the search graph. |
| AStar.RunAStar | Source/Massive/AStarController.cpp:112-234 | With the decode corrected: out-of-range or negative-cost endpoints give []. Otherwise a non-empty path runs from start to goal, each step to a cell GetNeighbors returns. An empty path means no such route exists. Start equal to goal gives [start]. |
| AStar.FindPath | Source/Massive/AStarController.cpp:52-77 | With the decode corrected: rejected endpoints give []. A non-empty route snaps back to the start and goal cells, and consecutive waypoints snap to cells GetNeighbors links. An empty route for valid endpoints means no GetNeighbors route joins them. |
| Bresenham.Advance | Source/Massive/ThetaStarController.cpp:386-392 | One round of the loop, with both step tests on the same doubled error term. From a cursor on the track that is not yet at the end, the round stays on the track, moves to one of the eight neighbouring cells and strictly shortens the remaining steps. The loop advances only after its end test, so this is every round it takes. |
| Bresenham.BeginOnTrack | Source/Massive/ThetaStarController.cpp:371-380 | The starting cursor is on track, with Dx + Dy steps to go. |
| Bresenham.StepsLocate | Source/Massive/ThetaStarController.cpp:387 | An on-track cursor is on the end column exactly when all x steps are taken, and likewise for rows. |
| Bresenham.NoExtraX | Source/Massive/ThetaStarController.cpp:390-391 | Once every x step is taken, the x test cannot fire again while y steps remain. |
| Bresenham.NoExtraY | Source/Massive/ThetaStarController.cpp:391-392 | Once every y step is taken, the y test cannot fire again while x steps remain. |
| Bresenham.StepProgress | Source/Massive/ThetaStarController.cpp:382-393 | Before the end each round keeps the cursor on track, takes at least one step, and moves exactly one king move. The walk therefore terminates, never overshoots, and never skips a cell. |
| Bresenham.EitherStep | Source/Massive/ThetaStarController.cpp:390-392 | Each round before the end changes at least one coordinate. |
| Bresenham.ErrUpdate | Source/Massive/ThetaStarController.cpp:377-392 | The error term always equals Dx·(1 + y steps) − Dy·(1 + x steps). |
| Bresenham.Raster | Source/Massive/ThetaStarController.cpp:382-393 | The cells visited from an on-track cursor start at that cursor and end at the end point. |
| Bresenham.Cells | Source/Massive/ThetaStarController.cpp:364-396 | The cells HasLineOfSight tests run from the first point to the second. |
| Bresenham.RasterUnfold | Source/Massive/ThetaStarController.cpp:382-393 | The visited cells are the current cell followed by those visited after one round. |
| Bresenham.RasterEnds | Source/Massive/ThetaStarController.cpp:382-393 | The visited cells start at the cursor and end at the end point. |
| Bresenham.RasterSteps | Source/Massive/ThetaStarController.cpp:382-393 | Consecutive visited cells are exactly one king move apart. |
| Bresenham.RasterInBox | Source/Massive/ThetaStarController.cpp:382-393 | Every visited cell lies in the bounding box of the two endpoints. |
| Bresenham.CellsShape | Source/Massive/ThetaStarController.cpp:364-396 | The line's cells start and end at its endpoints, step by king moves, and stay inside the bounding box. |
| Bresenham.CellsOfPoint | Source/Massive/ThetaStarController.cpp:387-388 | The line from a cell to itself visits only that cell. |
| Bresenham.CellsOfStep | Source/Massive/ThetaStarController.cpp:382-393 | Between cells one king move apart, the line visits exactly those two cells. |
| ThetaStar.CreateDefaultCostMap | Source/Massive/ThetaStarController.cpp:47-53 | A positive argument replaces its dimension. The cost map becomes width × height entries of 1. Nothing else changes. |
| ThetaStar.GenerateCostMap | Source/Massive/ThetaStarController.cpp:27-45 | A zero origin becomes the actor location minus the centring offset, and a non-zero origin is kept. A cost map of the right size is kept and any other is replaced by the default. The dimensions are kept. |
| ThetaStar.IsWalkableIndex | Source/Massive/ThetaStarController.cpp:85-89 | An index is walkable exactly when it lies in the cost map and its cost is ≥ 0. |
| ThetaStar.DefaultMapAllWalkable | Source/Massive/ThetaStarController.cpp:47-53 | After CreateDefaultCostMap every cell of the grid is walkable. |
| ThetaStar.CellOf | Source/Massive/ThetaStarController.h:37-40 | Decoding with the controller's own width inverts its XYToIndex. Every slot of the grid decodes to an inside cell. |
| ThetaStar.DefaultWidthsMisplaceCells | Source/Massive/ThetaStarController.h:37-40 | At the default widths, cell (0, 1) encodes to 30. The header decodes that index to (30, 0), which is outside the grid. Decoding with the controller's own width gives (0, 1). |
| ThetaStar.ManagerWidthDecode | Source/Massive/ThetaStarController.h:37-40 | Decoding index 30 with the grid manager's default width gives (30, 0). |
| ThetaStar.ControllerWidthDecode | Source/Massive/ThetaStarController.h:37-40 | Decoding index 30 with the controller's default width gives (0, 1). |
| ThetaStar.CollectedFrom | Source/Massive/ThetaStarController.cpp:116-139 | Every collected index comes from an accepted offset. |
| ThetaStar.CollectedAll | Source/Massive/ThetaStarController.cpp:116-139 | Every accepted offset contributes its index. |
| ThetaStar.GetNeighborsIndicesExactly | Source/Massive/ThetaStarController.cpp:104-142 | An index is returned exactly when it names a grid cell that is a Neighbour. A Neighbour is one king move away, inside and walkable; a diagonal one needs bAllowDiagonal, and with bPreventDiagonalCutting both corner cells must be walkable. |
| ThetaStar.ListedIsNeighbour | Source/Massive/ThetaStarController.cpp:116-139 | Every returned index names a Neighbour. |
| ThetaStar.CellOfInside | Source/Massive/ThetaStarController.cpp:123 | An inside cell's index is in range and decodes back to the cell. |
| ThetaStar.AcceptedIsNeighbour | Source/Massive/ThetaStarController.cpp:118-136 | An accepted offset leads to a Neighbour. |
| ThetaStar.OffsetShape | Source/Massive/ThetaStarController.cpp:110-116 | Each offset tried is a king move, and a diagonal one is tried only when diagonals are allowed. |
| ThetaStar.NeighbourIsListed | Source/Massive/ThetaStarController.cpp:104-142 | Every Neighbour's index is returned. |
| ThetaStar.NeighbourAccepted | Source/Massive/ThetaStarController.cpp:118-136 | The offset to any Neighbour passes the loop's tests. |
| ThetaStar.OffsetListed | Source/Massive/ThetaStarController.cpp:110-116 | Every king move is among the offsets tried. A diagonal one is tried only when diagonals are allowed. |
| ThetaStar.NeighboursInRange | Source/Massive/ThetaStarController.cpp:104-142 | Every neighbour index names a grid cell. |
| ThetaStar.AllWalkableFrom | Source/Massive/ThetaStarController.cpp:382-393 | The cells from a cursor on are walkable exactly when its own cell is walkable and, unless it is the end, so are the cells from the next cursor. |
| ThetaStar.HasLineOfSight | Source/Massive/ThetaStarController.cpp:364-396 | With the decode corrected, the result is true exactly when every Bresenham cell between the two decoded cells, both ends included, is walkable. |
| ThetaStar.WalkLine | Source/Massive/ThetaStarController.cpp:379-395 | The loop returns true exactly when every cell on the line is walkable. |
| ThetaStar.LineOfSightToSelf | Source/Massive/ThetaStarController.cpp:364-396 | A cell sees itself exactly when it is walkable. |
| ThetaStar.StepVisible | Source/Massive/ThetaStarController.cpp:364-396 | Between adjacent cells, line of sight means both cells are walkable. |
| ThetaStar.VisibleEnds | Source/Massive/ThetaStarController.cpp:384-385 | Both ends of a visible line are walkable. |
| ThetaStar.TerrainCost | Source/Massive/ThetaStarController.cpp:306 | The terrain factor is at least 1. |
| ThetaStar.SearchGraph | Source/Massive/ThetaStarController.cpp:248-313 | With the decode corrected, the graph Theta* searches has one node per cell, and its neighbour lists only name nodes. |
| ThetaStar.RouteIsWalk | Source/Massive/ThetaStarController.cpp:301-302 | A route of Neighbour steps from an inside cell is a walk in the search graph. |
| ThetaStar.RunThetaStar | Source/Massive/ThetaStarController.cpp:228-362 | With the decode corrected: invalid endpoints give []. A non-empty path runs from start to goal through inside, walkable cells, with line of sight between consecutive waypoints. An empty path for valid endpoints means no Neighbour route joins them. A valid start equal to the goal gives [start]. |
| ThetaStar.PathFacts | Source/Massive/ThetaStarController.cpp:339-358 | The decoded waypoints are inside and walkable, and consecutive ones see each other. |
| ThetaStar.WorldCellRoundTrip | Source/Massive/ThetaStarController.cpp:398-413 | Snapping a cell's centre gives the cell back. |
| ThetaStar.CentreOffset | Source/Massive/ThetaStarController.cpp:402-411 | A cell centre is n + 0.5 cells from the origin along each axis, which floors to n. |
| ThetaStar.WorldToCellSquare | Source/Massive/ThetaStarController.cpp:399-405 | For a positive cell size, a point snaps to the cell whose square [X·size, (X + 1)·size) contains it, on each axis. |
| ThetaStar.DivideBounds | Source/Massive/ThetaStarController.cpp:402-403 | floor(v / s) == n exactly when n·s ≤ v < (n + 1)·s, for s > 0. |
| ThetaStar.FloorUnique | Source/Massive/ThetaStarController.cpp:402-403 | The floor of q is n exactly when n ≤ q < n + 1. |
| ThetaStar.FindPath | Source/Massive/ThetaStarController.cpp:144-169 | With the decode corrected: rejected endpoints give []. A non-empty route snaps back to the start and goal cells, with line of sight between consecutive snapped waypoints. |
| Relaxation.NoHigherChain | Source/Massive/FlowFieldController.cpp:145-149 | The "no value went up" relation is transitive. |
| Relaxation.LowerOne | Source/Massive/FlowFieldController.cpp:146-148 | Lowering one value moves the map strictly down the termination order: fewer unreached entries, or the same count with a smaller sum. |
| Relaxation.LowerBelow | Source/Massive/FlowFieldSubsystem.cpp:93-96 | A strict lowering of one value is a step down the termination order. |
| Relaxation.TightStep | Source/Massive/FlowFieldSubsystem.cpp:91-95 | In a tight map, every reached non-source node has a reached predecessor whose value plus the step cost is exactly its own value. |
| Relaxation.KeepSupported | Source/Massive/FlowFieldSubsystem.cpp:73-97 | Relaxing the neighbours of one node keeps every reached non-source value backed by a reached predecessor at no more than its value. |
| Relaxation.FixpointTight | Source/Massive/FlowFieldSubsystem.cpp:68-100 | At a fixpoint, a supported map is tight. Each reached value is exactly a predecessor's value plus the step (the Bellman equations). |
| Relaxation.SourceRealized | Source/Massive/FlowFieldController.cpp:126-134 | With only the source reached, at 0, every reached value is the cost of a route out of the source: the one-node route. |
| Relaxation.RouteExtend | Source/Massive/FlowFieldController.cpp:141-148 | A route extended by an enterable neighbour of its end is a route, and costs one more step. |
| Relaxation.KeepRealized | Source/Massive/FlowFieldController.cpp:145-149 | Relaxing the neighbours of one node keeps every reached value equal to the cost of some route out of the source. |
| Relaxation.RouteBound | Source/Massive/FlowFieldController.cpp:136-152 | At a fixpoint with the source at 0, the end of any route out of the source is reached, at no more than the route costs. |
| Relaxation.FixpointShortest | Source/Massive/FlowFieldController.cpp:136-152 | At a fixpoint with the source at 0 where every value is a real route cost, the values are the cheapest route costs: a node is reached exactly when a route reaches it, at the least cost of those routes. |
| Relaxation.RouteAgrees | Source/Massive/FlowFieldController.cpp:141-149 | Two nets with the same neighbours, step costs and open nodes have the same routes at the same costs. |
| Relaxation.ShortestAgrees | Source/Massive/FlowFieldController.cpp:141-149 | Cheapest route costs in one net are cheapest route costs in any net that agrees with it. |
| Relaxation.RelaxFrom | Source/Massive/FlowFieldSubsystem.cpp:73-99 | Only enterable neighbours of u change, each to exactly u's value plus the step, and only when that is strictly lower. Every lowered neighbour is pushed, and u ends relaxed. |
| Relaxation.KeepRelaxed | Source/Massive/FlowFieldController.cpp:136-152 | After a round, every node off the worklist is still relaxed. |
| Relaxation.Visit | Source/Massive/FlowFieldController.cpp:138-151 | One worklist round keeps the worklist invariant and only lowers values. It either changes nothing or steps down the termination order. |
| Relaxation.StillRelaxed | Source/Massive/FlowFieldController.cpp:145-149 | Lowering other values keeps an unchanged relaxed node relaxed. |
| Relaxation.Scan | Source/Massive/FlowFieldSubsystem.cpp:114-134 | The scan's choice is the first position holding the lowest value strictly below the bound, if there is one. |
| Relaxation.FirstLowest | Source/Massive/FlowFieldController.cpp:161-171 | The result is none when no value is strictly below the bound. Otherwise it is the first position holding the lowest such value. |
| FlowFieldController.PositiveArea | Source/Massive/FlowFieldController.cpp:23 | Positive width and height give a positive area. |
| FlowFieldController.CreateGrid | Source/Massive/FlowFieldController.cpp:21-49 | Non-positive width, height or cell size change nothing. Otherwise only the array changes, and it covers width × height cells. |
| FlowFieldController.CreateGridLayout | Source/Massive/FlowFieldController.cpp:34-48 | After CreateGrid, slot y·width + x holds the cell for (x, y). That cell records its coordinates, sits at its centred world position, costs 1, holds the sentinel value and has no direction. |
| FlowFieldController.GetCellAt | Source/Massive/FlowFieldController.cpp:186-191 | The result is null exactly outside width × height. Otherwise it is the row-major slot, which lies inside the array. |
| FlowFieldController.Gather | Source/Massive/FlowFieldController.cpp:202-211 | The result holds exactly the in-range cells at the given offsets, one per offset, each a valid slot. |
| FlowFieldController.CardinalOffsetsExactly | Source/Massive/FlowFieldController.cpp:197-200 | The four offsets are exactly the unit steps along one axis. |
| FlowFieldController.GetCellNeighbors | Source/Massive/FlowFieldController.cpp:193-214 | The neighbours are exactly the in-range cells one cardinal step from the cell's recorded coordinates, at most four, with no walkability filter. |
| FlowFieldController.FieldNetClosed | Source/Massive/FlowFieldController.cpp:141-145 | Every neighbour a cell lists is itself a cell. |
| FlowFieldController.FixpointSettled | Source/Massive/FlowFieldController.cpp:136-152 | A fixpoint written back into the cells leaves no neighbour that could be lowered. |
| FlowFieldController.FixpointEntered | Source/Massive/FlowFieldController.cpp:136-152 | A supported fixpoint written back into the cells is entered exactly: every reached non-target value is I(j) + Cost(i) for some cell j listing i. |
| FlowFieldController.TightEnteredAt | Source/Massive/FlowFieldController.cpp:141-148 | Under the Bellman equations every cell is entered exactly. |
| FlowFieldController.FixpointField | Source/Massive/FlowFieldController.cpp:136-152 | A supported fixpoint of real route costs, with the target at 0, written back into the cells is settled, entered exactly and cheapest. |
| FlowFieldController.FixpointCheapest | Source/Massive/FlowFieldController.cpp:136-152 | A fixpoint of real route costs with the target at 0, written back into the cells, holds the cheapest route cost from the target in every cell, and leaves a cell no route reaches at the sentinel. |
| FlowFieldController.FieldNetsAgree | Source/Massive/FlowFieldController.cpp:141-149 | The graph the pass relaxes depends only on the layout and the costs. |
| FlowFieldController.Seeded | Source/Massive/FlowFieldController.cpp:113-134 | After the reset, with only the target at 0, every value is supported and is a real route cost. |
| FlowFieldController.TightEntered | Source/Massive/FlowFieldController.cpp:141-148 | An exact step from a listing cell makes the cell entered. |
| FlowFieldController.RelaxedSettles | Source/Massive/FlowFieldController.cpp:143-150 | A relaxed cell offers no improvement to any cell it lists. |
| FlowFieldController.ComputeIntegrationField | Source/Massive/FlowFieldController.cpp:126-153 | A null target changes nothing. Otherwise only values change, the target ends at 0, and no value rises. Starting from all-sentinel values, no neighbour can be lowered further, and every other reached value is entered from a listing cell at exactly its value. Each value is then the cheapest route cost from the target, and a cell no route reaches stays at the sentinel. |
| FlowFieldController.Flood | Source/Massive/FlowFieldController.cpp:132-152 | With the target at 0 and the queue drained, no value rises. From all-sentinel values the result is settled, entered exactly, and holds the cheapest route costs from the target. |
| FlowFieldController.DrainQueue | Source/Massive/FlowFieldController.cpp:136-152 | The FIFO loop terminates, keeps the keys, and never raises a value. Started from a single reached node, it ends at a fixpoint where every value is still supported and is the cost of a real route from that node. |
| FlowFieldController.DirectionOf | Source/Massive/FlowFieldController.cpp:157-182 | The direction is zero exactly when no neighbour is strictly below the cell's own value. Otherwise it is the step to the first neighbour holding the lowest such value. |
| FlowFieldController.DownhillTransfers | Source/Massive/FlowFieldController.cpp:155-183 | The downhill property depends only on the layout and the values. |
| FlowFieldController.ComputeDirections | Source/Massive/FlowFieldController.cpp:155-183 | Only flow directions change, and every cell points downhill as DirectionOf defines. |
| FlowFieldController.SettledTransfers | Source/Massive/FlowFieldController.cpp:155-183 | The direction pass keeps the field settled. |
| FlowFieldController.EnteredTransfers | Source/Massive/FlowFieldController.cpp:155-183 | The direction pass keeps the field entered exactly. |
| FlowFieldController.CheapestTransfers | Source/Massive/FlowFieldController.cpp:155-183 | The direction pass keeps every value the cheapest route cost. |
| FlowFieldController.DirectionsKeepIntegration | Source/Massive/FlowFieldController.cpp:119-123 | After the direction pass the target is still at 0, every value is still entered exactly and still the cheapest route cost, and the target has no direction. |
| FlowFieldController.TargetStill | Source/Massive/FlowFieldController.cpp:160-173 | A cell at 0 gets no direction, because BestCost starts at the cell's own value and nothing lies strictly below 0. |
| FlowFieldController.UnreachedStill | Source/Massive/FlowFieldController.cpp:160-173 | With every value at the sentinel no cell gets a direction, and the values stay at the sentinel. |
| FlowFieldController.ResetValues | Source/Massive/FlowFieldController.cpp:114-117 | Every value becomes the sentinel, and nothing else changes. |
| FlowFieldController.SetTargetCell | Source/Massive/FlowFieldController.cpp:110-124 | SetTargetCell records the target and keeps the layout and costs. An out-of-range target leaves every value at the sentinel and every direction zero. An in-range one ends at 0 with no direction. Every other value is then the cheapest route cost from it, entered exactly, and a cell is reached exactly when some route leads there. The field ends settled and every cell points downhill. |
| FlowFieldController.EdgeTargetIsDropped | Source/Massive/FlowFieldController.cpp:103-104 | On the default grid, a point on the far x edge is aimed at column 30, which GetCellAt rejects. |
| FlowFieldController.TargetCell | Source/Massive/FlowFieldController.cpp:90-106 | With the clamp corrected, a non-empty grid always gives an inside target. |
| FlowFieldController.TargetCellOfCentre | Source/Massive/FlowFieldController.cpp:92-101 | A cell's centre aims at that cell. |
| FlowFieldController.SetTargetCellByWorldLocation | Source/Massive/FlowFieldController.cpp:88-108 | With the clamp corrected: an empty array changes nothing. Otherwise the target is the location's cell, which ends at 0 on a non-empty grid. Every other value is then the cheapest route cost from it. The field is settled and points downhill. |
| FlowFieldSubsystem.WorldToGrid | Source/Massive/FlowFieldSubsystem.cpp:233-242 | On a non-empty grid the result is a valid cell. Along each axis, the point lies within half a cell of that cell, except beyond the clamped edges. |
| FlowFieldSubsystem.WorldGridRoundTrip | Source/Massive/FlowFieldSubsystem.cpp:233-251 | For every valid cell, WorldToGrid(GridToWorld(c)) == c. |
| FlowFieldSubsystem.CreateFlowFieldGrid | Source/Massive/FlowFieldSubsystem.cpp:15-35 | The dimensions, cell size and origin are recorded, and the grid holds width columns of height cells. Each cell sits at GridToWorld of its coordinates, with no direction, the sentinel cost and MovementCost 1. |
| FlowFieldSubsystem.CreatedCellsLocate | Source/Massive/FlowFieldSubsystem.cpp:22-34 | Looking up a freshly created cell's world location gives the cell back. |
| FlowFieldSubsystem.RingIsAdjacency | Source/Massive/FlowFieldSubsystem.cpp:73-79 | The eight offsets of the double loop are exactly the king moves. |
| FlowFieldSubsystem.Keep | Source/Massive/FlowFieldSubsystem.cpp:73-80 | The kept cells are exactly the valid cells at one of the given offsets. |
| FlowFieldSubsystem.KeepInOrder | Source/Massive/FlowFieldSubsystem.cpp:73-80 | Offsets in loop order give cells in loop order. |
| FlowFieldSubsystem.RingInOrder | Source/Massive/FlowFieldSubsystem.cpp:73-77 | The eight offsets are in the loop's order: x outer, y inner. |
| FlowFieldSubsystem.NeighbourCells | Source/Massive/FlowFieldSubsystem.cpp:73-80 | The neighbours are exactly the valid cells one king move away, at most eight, in loop order. |
| FlowFieldSubsystem.Around | Source/Massive/FlowFieldSubsystem.cpp:118-125 | A cell's neighbours are exactly the valid cells one king move away. |
| FlowFieldSubsystem.Column | Source/Massive/FlowFieldSubsystem.cpp:57-60 | Lists exactly the cells of column x. |
| FlowFieldSubsystem.AllPoints | Source/Massive/FlowFieldSubsystem.cpp:55-61 | Lists exactly the cells of the grid. |
| FlowFieldSubsystem.CostsOf | Source/Massive/FlowFieldSubsystem.cpp:55-61 | The map holds exactly the grid's cells, each with its integration cost. |
| FlowFieldSubsystem.CellNetsAgree | Source/Massive/FlowFieldSubsystem.cpp:73-97 | The graph the pass relaxes depends only on the shape and the movement costs. |
| FlowFieldSubsystem.CalculateIntegrationField | Source/Massive/FlowFieldSubsystem.cpp:53-101 | Only costs change, and the target ends at 0. A blocked non-target cell is never entered. No neighbour can be lowered further, and every other reached cost is entered from a neighbour at exactly its value. Every cost is the cheapest route cost from the target, and a cell that no route of enterable cells reaches stays at the sentinel. |
| FlowFieldSubsystem.StartFromTarget | Source/Massive/FlowFieldSubsystem.cpp:55-66 | After the reset, with only the target at 0, the worklist invariant holds and every value is supported and is a real route cost. |
| FlowFieldSubsystem.Integrated | Source/Massive/FlowFieldSubsystem.cpp:68-100 | A supported fixpoint of real route costs with the target at 0, written into the grid, is settled, entered exactly and holds the cheapest route costs. |
| FlowFieldSubsystem.SettledEntered | Source/Massive/FlowFieldSubsystem.cpp:68-100 | A supported fixpoint written into the grid is settled and entered exactly. |
| FlowFieldSubsystem.FixpointCheapest | Source/Massive/FlowFieldSubsystem.cpp:68-100 | A fixpoint of real route costs with the target at 0, written into the grid, holds the cheapest route cost from the target in every cell. |
| FlowFieldSubsystem.CostsOfWritten | Source/Massive/FlowFieldSubsystem.cpp:93-96 | Costs written from a map read back as that map. |
| FlowFieldSubsystem.RelaxedSettles | Source/Massive/FlowFieldSubsystem.cpp:86-97 | A relaxed cell offers no improvement to any enterable neighbour. |
| FlowFieldSubsystem.TightEntered | Source/Massive/FlowFieldSubsystem.cpp:89-95 | An exact step from a neighbour makes the cell entered. |
| FlowFieldSubsystem.DrainStack | Source/Massive/FlowFieldSubsystem.cpp:68-100 | The LIFO loop terminates without raising any value, and blocked cells never change. Started from the target alone, it ends at a fixpoint where every value is supported and is the cost of a real route from the target. |
| FlowFieldSubsystem.Heading | Source/Massive/FlowFieldSubsystem.cpp:138-140 | The normalised direction between two cell positions points along the grid offset for a positive cell size. It is reversed for a negative size and zero for a zero size. |
| FlowFieldSubsystem.DirectionOf | Source/Massive/FlowFieldSubsystem.cpp:109-141 | An unreached cell, or one with no reached neighbour, gets no direction. Otherwise the direction heads to the first neighbour, in loop order, holding the lowest cost. |
| FlowFieldSubsystem.CalculateFlowDirections | Source/Massive/FlowFieldSubsystem.cpp:103-144 | Only flow directions change, and every cell flows downhill as DirectionOf defines. |
| FlowFieldSubsystem.FlowsTransfers | Source/Massive/FlowFieldSubsystem.cpp:103-144 | The downhill property depends only on the layout and the costs. |
| FlowFieldSubsystem.GenerateFlowFieldToLocation | Source/Massive/FlowFieldSubsystem.cpp:37-51 | An empty grid, or a target outside the grid, changes nothing. Otherwise the target cell ends at 0, the grid is settled and entered exactly, every cost is the cheapest route cost from the target, every cell flows downhill, and locations and movement costs are kept. |
| FlowFieldSubsystem.LayoutKept | Source/Massive/FlowFieldSubsystem.cpp:37-51 | Integrating and then setting directions keeps every cell's location and movement cost, and the integration costs. |
| FlowFieldSubsystem.DirectionsKeepIntegration | Source/Massive/FlowFieldSubsystem.cpp:44-45 | The direction pass leaves the integration result intact: settled, entered exactly and cheapest. |
| FlowFieldSubsystem.SettledAtKept | Source/Massive/FlowFieldSubsystem.cpp:103-144 | A cell stays settled through the direction pass. |
| FlowFieldSubsystem.EnteredAtKept | Source/Massive/FlowFieldSubsystem.cpp:103-144 | A cell stays entered exactly through the direction pass. |
| FlowFieldSubsystem.TargetGetsDirection | Source/Massive/FlowFieldSubsystem.cpp:109-141 | With a non-zero cell size and an enterable neighbour, the target itself gets a non-zero direction. |
| FlowFieldSubsystem.GetGridCellAtLocation | Source/Massive/FlowFieldSubsystem.cpp:156-165 | A cell is found exactly when the grid has positive width and height, and it is the cell WorldToGrid names. |
| FlowFieldSubsystem.GetFlowDirectionAtLocation | Source/Massive/FlowFieldSubsystem.cpp:146-154 | The result is the found cell's direction, or zero when no cell is found. |
| FlowFieldSubsystem.FlowAtCell | Source/Massive/FlowFieldSubsystem.cpp:146-165 | Querying at a cell's world position gives that cell's direction. |

## Left out

- Debug drawing, logging, BeginPlay, Tick, the actor constructors, GridManager's FlushDebug, and the SpawnObstacles actor spawning are left out. None of them affects the grid data.
- Subsystem Initialize and Deinitialize are left out. They only forward to the engine or empty the grid.
- BoidsComponent and the unit classes (BaseUnit, NormalUnit, EliteUnit, HeroUnit, UnitSpawner) are not part of this model. They consume paths and fields rather than compute them.
- FMath::FRand is left out. RandomizeGridCosts takes the per-cell outcomes of `FRand() < Chance` as a sequence of booleans.
- GenerateGrid's optional calls to RandomizeGridCosts and DrawDebugGrid are left out of `GridManager.GenerateGrid`, which models the cell layout. The obstacle roll is its own operation.
- Single-precision floats are modelled as exact reals. Rounding error in G, F, heuristic and world-position arithmetic is not modelled.
- `GetSafeNormal` is modelled as a grid offset. FlowDirection is the integer step towards the chosen neighbour (`FlowFieldSubsystem.Heading`), not a unit float vector.
- FlowFieldSubsystem's integration costs are whole tenths: a straight step costs 10 × MovementCost and a diagonal 14 × MovementCost. MovementCost is a whole number, so 1.4 is exact and the loop's termination is an integer measure. Fractional MovementCost values are not modelled.
- FlowFieldController's Cost and IntegrationValue are modelled as whole numbers, and the int32-max reset value becomes the same sentinel as float-max.
- FlowFieldController's Cost is modelled as non-negative. The cell's float Cost could hold a negative value. Then the FIFO pass (FlowFieldController.cpp:145-149) keeps lowering values around any pair of adjacent cells, so it neither terminates in the model's terms nor yields cheapest route costs. CreateGrid's cells take the constructor's Cost of 1 (FlowFieldTypes.h:14), and nothing in the controller assigns Cost.
- Integer overflow is not modelled. int32 arithmetic in XYToIndex, GridWidth × GridHeight and the Bresenham error term is unbounded in the model.
- The `Curr == -1` break after PopMin is left out of `SearchCore.BestFirst`. The loop runs only while the heap is non-empty, so PopMin never returns −1 there.
- Operations that divide by CellSize (the WorldToCell variants, `FlowFieldSubsystem.WorldToGrid` and its callers) require a non-zero cell size. The source divides without checking.
- `FlowFieldSubsystem.CreateFlowFieldGrid` requires a non-negative width and height, because `SetNum` with a negative count is an engine assertion failure.
- `FlowFieldController.SetTargetCell` and `FlowFieldController.ComputeIntegrationField` require `Indexable`: the array covers width × height, since GetCellAt indexes it unchecked (FlowFieldController.cpp:186-191). `FlowFieldController.SetTargetCellByWorldLocation` requires it only of a non-empty array, because the source returns before any indexing when the array is empty (FlowFieldController.cpp:90). Likewise `ThetaStar.FindPath` requires that the cost map cover the grid, because it indexes CostMap unchecked.
- `OpenSet.Push` requires that the node be absent and in range, as every caller in the source guarantees. A duplicate push would corrupt Pos.
- ThetaStar.RunThetaStar: the shortcut cost is modelled as written, MovementCostBetween(Parent, Nb) × TerrainCost. That is DiagonalCost for any parent more than one straight step away, not the Euclidean length of the shortcut. The contract therefore states route validity and line of sight, not optimality.
- AAStarController::GenerateCostMap and CreateDefaultCostMap are declared in AStarController.h but not defined in AStarController.cpp. A* reads the grid manager's cells, so they are not modelled for A*.
- AStar.RunAStar: requires `WellFormed` of the grid manager, so the model does not exercise the IsValidIndex guard at AStarController.cpp:126-130. FindPath indexes the grid unchecked at AStarController.cpp:63-64 before calling RunAStar, and for a well-formed grid every inside cell's index is valid.
- AStar.RunAStar: the optimality of the returned path is not stated. The contract states that paths run start to goal along GetNeighbors steps and that "no path" means unreachable. The heuristic's consistency is stated separately (`Octile.HeuristicConsistent`).
- FlowFieldController.ComputeIntegrationField: Settled, Entered and Cheapest are stated only when every value starts at the sentinel, which SetTargetCell guarantees by resetting first. From arbitrary starting values the contract states only that the pass keeps the target at 0 and never raises a value.

## Findings

| source | as written | input that shows it | evidently intended | confidence | as-written member | corrected member |
|---|---|---|---|---|---|---|
| Source/Massive/AStarController.h:65 | RunAStar decodes node indices with the controller's own GridWidth (30 by default). The indices were encoded with the grid manager's GridWidth (50 by default). The mis-decode feeds GetNeighbors, MovementCostBetween and the heuristic (AStarController.cpp:185-197, 154-155). | Both actors at their defaults: cell (0, 1) is index 50, which decodes to (20, 1). | Decode with the width that encoded the index, the grid manager's. | not executed | AStar.CellOfIndexAsWritten, AStar.DefaultWidthsMisplaceCells | AStar.CellOfIndex, AStar.SearchGraph, AStar.RunAStar, AStar.FindPath |
| Source/Massive/ThetaStarController.h:37-40 | IndexToXY divides by GridManager->GridWidth, while XYToIndex and the bounds checks use the controller's own GridWidth. The `GridManager` pointer (ThetaStarController.h:17) is never assigned in ThetaStarController.cpp. | Controller 30 wide, grid manager 50 wide: cell (0, 1) is index 30, which decodes to (30, 0), outside the grid. | Decode with the controller's own GridWidth. | not executed | ThetaStar.CellOfAsWritten, ThetaStar.DefaultWidthsMisplaceCells | ThetaStar.CellOf, ThetaStar.HasLineOfSight, ThetaStar.SearchGraph, ThetaStar.RunThetaStar, ThetaStar.FindPath |
| Source/Massive/FlowFieldController.cpp:103-104 | SetTargetCellByWorldLocation clamps the rounded cell into [0, GridWidth] and [0, GridHeight], one past the last cell. | Default 30 × 30 grid of 100-unit cells at the origin, location (1500, 0, 0): the target becomes (30, 15). GetCellAt rejects it, so no integration happens and every direction is zero. | Clamp into [0, GridWidth − 1] and [0, GridHeight − 1]. | not executed | FlowFieldController.TargetCellAsWritten, FlowFieldController.EdgeTargetIsDropped | FlowFieldController.TargetCell, FlowFieldController.SetTargetCellByWorldLocation |
