# Pathfinding visualiser core, in Dafny

This project models the core of a grid pathfinding visualiser. The core has four parts:

- **The data model**: cells with a kind (EMPTY, WALL, START, END, WEIGHT, VISITED, PATH, CURRENT) and a terrain cost (1, 2, 5, 10).
- **Five searches** over the grid: breadth-first, depth-first, Dijkstra, A* and greedy best-first. A dispatcher picks one by name.
- **The grid store**: the grid plus the tracked START and END cells. The UI edits it through actions.
- **The maze and terrain generators**: they produce lists of cells for the UI to apply.

Modules:

| module | file | role |
|---|---|---|
| `Types` | `types.dfy` | Nodes, results, the algorithm card table, speeds |
| `GridModel` | `grid_model.dfy` | Bounds, adjacency, walks, reachability, cost |
| `SearchUtils` | `utils.dfy` | Neighbours, path reconstruction, heuristics, cloning, endpoint scan |
| `SearchSpec` | `search_spec.dfy` | What the searches promise |
| `PriorityQueues` | `priority_queue.dfy` | The three sorted queues |
| `WeightedTrees` | `weighted_trees.dfy` | Parent trees whose scores are path costs |
| `BreadthFirst` | `bfs.dfy` | BFS |
| `DepthFirst` | `dfs.dfy` | DFS |
| `DepthFirstInvariant` | `dfs_invariant.dfy` | The DFS stack invariant and its steps |
| `DijkstraSearch` | `dijkstra.dfy` | Dijkstra |
| `AStarSearch` | `astar.dfy` | A* |
| `GreedySearch` | `greedy.dfy` | Greedy best-first |
| `Dispatch` | `dispatch.dfy` | `runAlgorithm` |
| `Store` | `grid_store.dfy` | The grid store |
| `MazeGenerator` | `maze_generator.dfy` | Mazes and weighted terrain |

**How the searches are modelled.** Each search is a method with a loop, as in the source. Per-cell search fields (`isVisited`, `distance`, `gScore`, `fScore`, `heuristic`, `parent`) become sets and maps keyed by position. A position missing from a map has the field's reset value (`Infinity`, 0, no parent).

**What every search is proved to return** (`SearchSpec.Explores`):

- The visit order starts at the START, repeats no cell, contains no wall, and stops at the first END it reaches.
- A found path is a walk from the START to that END.
- When no END is reached, the visit order holds exactly the cells reachable from the START.

**What is proved on top of that:**

- BFS: the found path has the fewest cells.
- Dijkstra: the found path is the cheapest.
- Dijkstra: cells are visited in order of their cost from the START. Whenever a walk reaches a later-visited cell, some walk reaches each earlier-visited cell at no greater cost.
- BFS: cells are visited level by level. A cell visited before another is never further from the START: whenever a walk of `n` cells reaches the later one, some walk of at most `n` cells reaches the earlier one.
- BFS: the start's neighbours are visited right after it, in up/down/left/right order.
- DFS: each visited cell is followed by its first pending neighbour, in up/down/left/right order. A neighbour of `c` is pending when no cell visited before `c` discovered it and it has not been visited yet.
- DFS backtracking: when the cell just visited has no pending neighbour, the next cell is the first pending neighbour of the latest earlier visited cell that still has one.

**How the store is modelled.** The store is a class whose fields are the store's state. Each action assigns those fields.

**Dead code in `astar`.** A cell is queued only when it is not already queued, and a cell is closed when it leaves the queue. So no queued cell is ever closed, and the closed-set skip after a dequeue (frontend/src/algorithms/astar.ts:70) never fires. The model proves this: that branch is `assert false`.

**How randomness is modelled.** `Math.random()` is an oracle parameter: the `k`-th value a generator draws is `random(k)`.

## Model

| member | source | states |
|---|---|---|
| Types.TerrainCostPositive | frontend/src/types/index.ts:14-19 | Every terrain cost lies between 1 and 10, so every step costs at least 1 |
| Types.AlgorithmInfoOf | frontend/src/types/index.ts:89-135 | The card table marks exactly Dijkstra and A* as weighted, and exactly BFS, Dijkstra and A* as optimal |
| Types.SpeedValue | frontend/src/types/index.ts:69-74 | The replay delay is 0 exactly for the instant speed |
| Types.SpeedValuesDecrease | frontend/src/types/index.ts:69-74 | Delays strictly decrease: slow > medium > fast > instant = 0 |
| SearchUtils.Neighbors | frontend/src/algorithms/utils.ts:4-45 | The neighbours are exactly the non-wall in-grid cells one step away; they are in up/down/left/right order, at most 4, with no repeats |
| SearchUtils.GetNeighbors | frontend/src/algorithms/utils.ts:32-42 | The direction loop returns the same list as `Neighbors` |
| SearchUtils.SameLayoutNeighbors | frontend/src/algorithms/utils.ts:36-41 | Neighbours depend only on cell kinds, so a clone has the same neighbours as the original |
| SearchUtils.ReconstructPath | frontend/src/algorithms/utils.ts:48-58 | Following parent links from a cell whose parents have strictly lower rank gives a chain. The chain ends at that cell, starts at a cell with no parent, and each cell's parent is the cell before it |
| SearchUtils.Manhattan | frontend/src/algorithms/utils.ts:61-63 | The distance is zero exactly between equal cells |
| SearchUtils.Chebyshev | frontend/src/algorithms/utils.ts:73-78 | The distance is zero exactly between equal cells, and never above Manhattan |
| SearchUtils.HeuristicsSymmetric | frontend/src/algorithms/utils.ts:61-78 | Both distances are symmetric |
| SearchUtils.ManhattanAdmissible | frontend/src/algorithms/utils.ts:61-63 | The Manhattan distance between a walk's ends is at most its step count, which is at most its cost |
| SearchUtils.GetHeuristic | frontend/src/algorithms/utils.ts:81-94 | "euclidean" and "chebyshev" select their heuristics; every other name selects Manhattan |
| SearchUtils.Estimate | frontend/src/algorithms/utils.ts:81-94 | The selected integer heuristic never exceeds Manhattan, and is zero exactly at the goal |
| SearchUtils.ResetNode | frontend/src/algorithms/utils.ts:99-108 | The search fields are reset; place, kind and terrain are kept |
| SearchUtils.CloneGrid | frontend/src/algorithms/utils.ts:97-110 | The clone has the same shape, kinds, terrain and places as the original, with every search field reset |
| SearchUtils.LastOfKind | frontend/src/algorithms/utils.ts:113-130 | The result is the last cell of the kind in row-major order, or none exactly when no cell has that kind |
| SearchUtils.FindStartAndEnd | frontend/src/algorithms/utils.ts:113-130 | The scan returns the last START and the last END in row-major order |
| SearchSpec.StartOf | frontend/src/algorithms/utils.ts:113-130 | When both endpoints exist, the start is an in-grid START cell |
| SearchSpec.ExploresFound | frontend/src/algorithms/bfs.ts:31-38 | A run that stops at its first END, with a walk to it, meets the shared search outcome |
| SearchSpec.ExploresExhausted | frontend/src/algorithms/bfs.ts:52-53 | A run that visits exactly the reachable cells, with no END among them, meets the shared search outcome with an empty path |
| SearchSpec.ChainIsWalk | frontend/src/algorithms/utils.ts:48-58 | In a parent tree rooted at the start, the reconstructed chain is a walk from the start |
| SearchSpec.TreeCellReachable | frontend/src/algorithms/bfs.ts:42-48 | Every cell of a ranked parent tree is reachable from its root, by a walk built from the parent links |
| SearchSpec.ExhaustedSearchIsReachableSet | frontend/src/algorithms/bfs.ts:27-50 | The cells of a ranked parent tree rooted at the start, when closed under steps, are exactly the cells reachable from the start |
| SearchSpec.SameLayoutEndpoints | frontend/src/algorithms/bfs.ts:14-15 | Searching the clone finds the same START and END as the original |
| PriorityQueues.KeyOrder | frontend/src/algorithms/astar.ts:21-26 | The comparator is irreflexive and transitive, and any two keys compare one way or tie |
| PriorityQueues.Insert | frontend/src/algorithms/dijkstra.ts:18-21 | Inserting adds exactly one copy of the item |
| PriorityQueues.InsertSorted | frontend/src/algorithms/dijkstra.ts:18-21 | Inserting into a sorted queue keeps it sorted |
| PriorityQueues.SortBy | frontend/src/algorithms/dijkstra.ts:20 | The stable sort is a sorted permutation of its input |
| PriorityQueues.SortBySorted | frontend/src/algorithms/dijkstra.ts:20 | Sorting a sorted sequence leaves it unchanged |
| PriorityQueues.EnqueueSorted | frontend/src/algorithms/dijkstra.ts:18-21 | Push-then-sort on a sorted queue inserts the item behind every item it ties with |
| PriorityQueues.PriorityQueue.Enqueue | frontend/src/algorithms/dijkstra.ts:18-21 | The items become the sorted push. On a sorted queue that is the stable insertion, and the queue stays sorted |
| PriorityQueues.PriorityQueue.Dequeue | frontend/src/algorithms/dijkstra.ts:23-25 | Returns and removes the head, or returns nothing on an empty queue; sortedness is kept |
| PriorityQueues.PriorityQueue.IsEmpty | frontend/src/algorithms/dijkstra.ts:27-29 | True exactly when no item is queued |
| PriorityQueues.AStarQueue.Enqueue | frontend/src/algorithms/astar.ts:19-27 | The items become the push sorted by current fScore, then heuristic; membership gains exactly the new cell |
| PriorityQueues.AStarQueue.Dequeue | frontend/src/algorithms/astar.ts:29-31 | Returns and removes the head, or returns nothing on an empty queue |
| PriorityQueues.AStarQueue.Contains | frontend/src/algorithms/astar.ts:37-39 | True exactly when a queued item has the cell's coordinates |
| PriorityQueues.GreedyQueue.Enqueue | frontend/src/algorithms/greedy.ts:18-21 | The items become the push sorted by current heuristic; membership gains exactly the new cell |
| PriorityQueues.GreedyQueue.Dequeue | frontend/src/algorithms/greedy.ts:23-25 | Returns and removes the head, or returns nothing on an empty queue |
| WeightedTrees.ChainCost | frontend/src/algorithms/dijkstra.ts:69-76 | Following a parent chain costs exactly the recorded score of its last cell |
| WeightedTrees.CostTreeRelax | frontend/src/algorithms/dijkstra.ts:69-76 | Relaxing a neighbour through a visited cell keeps scores equal to path costs |
| BreadthFirst.Bfs | frontend/src/algorithms/bfs.ts:13-54 | With an endpoint missing, the result is the empty one. Otherwise the run meets the shared search outcome, and the found path has the fewest cells of any walk to that END. Cells are visited in order of their distance from the START: for any earlier cell and any walk to a later one, some walk no longer reaches the earlier one. The start's neighbours are visited right after it, in neighbour order |
| BreadthFirst.SearchFrom | frontend/src/algorithms/bfs.ts:21-53 | The queue loop meets the same outcome, fewest-steps, level-order and neighbours-first properties from the start cell |
| BreadthFirst.EnqueueNeighbors | frontend/src/algorithms/bfs.ts:41-49 | Each undiscovered neighbour is marked, gets one more step and the current cell as parent, and is queued; the queue invariant is kept |
| BreadthFirst.BfsLowerBound | frontend/src/algorithms/bfs.ts:27-50 | When a cell leaves the queue, no walk from the start reaches it in fewer steps than its recorded distance |
| BreadthFirst.FoundPath | frontend/src/algorithms/bfs.ts:31-38 | The reconstructed path of the END is a walk from the start with no more cells than any other walk |
| BreadthFirst.LevelAtPop | frontend/src/algorithms/bfs.ts:27-29 | The cell leaving the queue has a recorded distance no lower than that of any cell visited before it. Some walk from the START reaches it in that many steps, and none in fewer |
| BreadthFirst.LevelsPop | frontend/src/algorithms/bfs.ts:29 | Appending a cell whose distance is settled and no lower than the current level keeps the visit order sorted by distance |
| BreadthFirst.LevelsInOrder | frontend/src/algorithms/bfs.ts:27-53 | A visit order whose distances are settled and non-decreasing is in level order |
| BreadthFirst.BfsExhausted | frontend/src/algorithms/bfs.ts:50-53 | With the queue empty, the visit order is exactly the reachable cells, with no END among them |
| GridModel.Reverse | frontend/src/algorithms/dfs.ts:40 | Reversal keeps the length |
| GridModel.ReverseAt | frontend/src/algorithms/dfs.ts:40 | Reversal puts element `i` at position `n-1-i` |
| GridModel.ReverseAppend | frontend/src/algorithms/dfs.ts:40 | Reversing a concatenation concatenates the reversed parts in swapped order |
| GridModel.ReverseKeeps | frontend/src/algorithms/dfs.ts:40 | Reversal keeps the members and their distinctness |
| DepthFirst.Dfs | frontend/src/algorithms/dfs.ts:13-52 | With an endpoint missing, the result is the empty one. Otherwise the run meets the shared search outcome and goes depth first. Each visited cell is followed by its first pending neighbour. When it has none, the search backtracks: the next cell is the first pending neighbour of the latest earlier cell that still has one |
| DepthFirst.SearchFrom | frontend/src/algorithms/dfs.ts:21-51 | The stack loop meets the same outcome and the same depth-first order, backtracking included, from the start cell |
| DepthFirst.PushNeighbors | frontend/src/algorithms/dfs.ts:40-47 | The neighbours not yet marked are marked and pushed in the order given, and no other cell is marked. The discovered cells still form a parent tree from the start within the grid, and the stack holds only discovered cells |
| DepthFirstInvariant.DfsPop | frontend/src/algorithms/dfs.ts:27-28 | The popped cell is where the search resumes: the first pending neighbour of the latest visited cell that has one. So the visit order stays depth first, backtracking included. The rest of the stack is the pending neighbours of each visited cell, reversed, once the popped cell is visited |
| DepthFirstInvariant.DfsExpanded | frontend/src/algorithms/dfs.ts:39-47 | Pushing the reversed unmarked neighbours extends the stack by exactly the current cell's pending neighbours, reversed, and the loop invariant holds again |
| DepthFirstInvariant.FrontierTop | frontend/src/algorithms/dfs.ts:27 | The top of the stack is the next cell of the depth-first order, the first pending neighbour of the latest cell with one |
| DepthFirstInvariant.FrontierPop | frontend/src/algorithms/dfs.ts:27-28 | Visiting a cell removes exactly that cell from every cell's pending neighbours on the stack |
| DepthFirstInvariant.FrontierExpanded | frontend/src/algorithms/dfs.ts:40-47 | The pending neighbours of the expanded cell are its unmarked neighbours, so the stack description grows by their reversal |
| SearchSpec.UnvisitedReverse | frontend/src/algorithms/dfs.ts:40-46 | Filtering a reversed list equals reversing the filtered list |
| SearchSpec.UnvisitedIsUndiscovered | frontend/src/algorithms/dfs.ts:42 | When the marked cells are exactly the discovered ones, the unmarked neighbours are exactly the undiscovered ones, in the same order |
| SearchSpec.UnvisitedUnion | frontend/src/algorithms/dfs.ts:42 | Filtering by two marks in turn equals filtering by their union |
| SearchSpec.UnvisitedAppend | frontend/src/algorithms/dfs.ts:41-46 | Filtering a concatenation concatenates the filtered parts |
| SearchSpec.UnvisitedDropLast | frontend/src/algorithms/dfs.ts:27 | In a list without repeats, filtering out its last element drops exactly that element |
| SearchSpec.ParentChain | frontend/src/algorithms/utils.ts:48-58 | Every cell of a ranked parent map has a parent chain ending at it |
| DepthFirstInvariant.DfsFound | frontend/src/algorithms/dfs.ts:30-37 | Stopping at an END gives the shared outcome with the parent chain as path |
| DepthFirstInvariant.DfsExhausted | frontend/src/algorithms/dfs.ts:48-51 | With the stack empty, the visit order is exactly the reachable cells |
| DijkstraSearch.Dijkstra | frontend/src/algorithms/dijkstra.ts:32-84 | With an endpoint missing, the result is the empty one. Otherwise the run meets the shared search outcome and the found path costs no more than any walk to that END. Cells are visited in order of cost from the START: for any earlier cell and any walk to a later one, some walk reaches the earlier one at no greater cost |
| DijkstraSearch.SearchFrom | frontend/src/algorithms/dijkstra.ts:40-83 | The queue loop meets the same outcome, cheapest-path and cost-order properties from the start cell |
| DijkstraSearch.RelaxNeighbors | frontend/src/algorithms/dijkstra.ts:66-79 | After all neighbours are relaxed, the loop invariant holds with the current cell expanded. Scores are parent-tree path costs, the queue is sorted, and every discovered unvisited cell is queued at its distance. Every neighbour of an expanded cell has a distance at most that cell's plus its terrain |
| DijkstraSearch.Relax | frontend/src/algorithms/dijkstra.ts:68-78 | A visited neighbour, or one whose distance through the current cell is not strictly smaller, leaves distances, parents and queue unchanged. Otherwise the neighbour takes that distance and the current cell as parent, and the queue becomes the push of (neighbour, distance) sorted by distance. The relaxation invariant is kept: scores are parent-tree path costs, the queue stays sorted and holds every discovered unvisited cell at its distance, and the neighbour's distance is at most the current level plus its terrain |
| DijkstraSearch.AscendingPush | frontend/src/algorithms/dijkstra.ts:47-55 | A cell dequeued at or above every visited distance keeps the visit order sorted by distance |
| DijkstraSearch.AscendingRelax | frontend/src/algorithms/dijkstra.ts:68-76 | Relaxing a cell not yet visited leaves the distances of the visited cells as they were |
| DijkstraSearch.FoundSettled | frontend/src/algorithms/dijkstra.ts:47-63 | When the run stops at an END, no walk from the start reaches a visited cell for less than its distance |
| DijkstraSearch.ExhaustedSettled | frontend/src/algorithms/dijkstra.ts:47-83 | When the queue runs dry, no walk from the start reaches a visited cell for less than its distance |
| DijkstraSearch.CostOrderFrom | frontend/src/algorithms/dijkstra.ts:47-83 | Cells visited in non-decreasing distance, none reachable for less, are visited in order of cost: the parent chain of an earlier cell is a walk costing no more than any walk to a later one |
| DijkstraSearch.WalkCostBound | frontend/src/algorithms/dijkstra.ts:47-80 | While cells leave the queue in order of distance, no walk from the start undercuts the distance of an expanded cell |
| DijkstraSearch.FoundPath | frontend/src/algorithms/dijkstra.ts:57-63 | The reconstructed path of the END is a walk from the start that no other walk undercuts in cost |
| DijkstraSearch.DijkstraExhausted | frontend/src/algorithms/dijkstra.ts:82-83 | With the queue empty, the visit order is exactly the reachable cells |
| AStarSearch.AStar | frontend/src/algorithms/astar.ts:42-111 | With an endpoint missing, the result is the empty one; otherwise the run meets the shared search outcome |
| AStarSearch.SearchFrom | frontend/src/algorithms/astar.ts:55-110 | The open-set loop meets the shared outcome from the start cell, and never dequeues a closed cell |
| AStarSearch.ExpandNeighbors | frontend/src/algorithms/astar.ts:86-106 | After all neighbours are examined, the loop invariant holds with the current cell closed. gScores are parent-tree path costs. The open set holds no cell twice and no closed cell, and holds every scored cell that is not closed. f = g + h with h the heuristic's estimate, and every neighbour of a closed cell has a gScore |
| AStarSearch.Relax | frontend/src/algorithms/astar.ts:88-105 | A closed neighbour, or one whose gScore through the current cell is not strictly smaller, leaves gScore, fScore, heuristic, parents and open set unchanged. Otherwise the neighbour takes that gScore, its heuristic and their sum as fScore, and the current cell as parent. The open set stays as it was when it already holds the neighbour, and otherwise becomes the push sorted by fScore, then heuristic. The relaxation invariant is kept |
| AStarSearch.Improve | frontend/src/algorithms/astar.ts:96-105 | A strictly smaller tentative gScore becomes the neighbour's gScore, with its heuristic, their sum as fScore and the current cell as parent. The open set is unchanged when it already holds the neighbour; otherwise it becomes the push sorted by the new scores |
| AStarSearch.ScoresUpdated | frontend/src/algorithms/astar.ts:97-100 | While every scored cell's fScore is its gScore plus its heuristic estimate, giving one cell a new gScore changes exactly that cell's heuristic, to its estimate to the end, and its fScore, to the new gScore plus that estimate; every other entry stays |
| AStarSearch.AStarFound | frontend/src/algorithms/astar.ts:77-83 | Closing an END gives the shared outcome with its parent chain as path |
| AStarSearch.AStarExhausted | frontend/src/algorithms/astar.ts:109-110 | With the open set empty, the closed cells are exactly the reachable ones |
| GreedySearch.Greedy | frontend/src/algorithms/greedy.ts:32-83 | With an endpoint missing, the result is the empty one; otherwise the run meets the shared search outcome |
| GreedySearch.SearchFrom | frontend/src/algorithms/greedy.ts:47-82 | The open-set loop meets the shared outcome from the start cell |
| GreedySearch.ExpandNeighbors | frontend/src/algorithms/greedy.ts:70-78 | After all neighbours are examined, the loop invariant holds with the current cell visited |
| GreedySearch.Discover | frontend/src/algorithms/greedy.ts:72-77 | A visited neighbour changes nothing. An unvisited one takes the current cell as parent, and the open set becomes the push sorted on the heuristic fields, even when the cell is already queued |
| GreedySearch.SortedClosest | frontend/src/algorithms/greedy.ts:18-21 | A queue sorted on the heuristic fields holds cells in order of estimated distance to the END |
| GreedySearch.GreedyFound | frontend/src/algorithms/greedy.ts:61-68 | Visiting an END gives the shared outcome with its parent chain as path |
| GreedySearch.GreedyExhausted | frontend/src/algorithms/greedy.ts:81-82 | With the open set empty, the visited cells are exactly the reachable ones |
| Dispatch.AlgorithmOf | frontend/src/algorithms/index.ts:21-34 | Every algorithm except BFS is picked only by its own name; any other name picks BFS |
| Dispatch.NameRoundTrip | frontend/src/algorithms/index.ts:21-34 | Each algorithm is picked by its own name, and distinct algorithms have distinct names |
| Dispatch.RunAlgorithm | frontend/src/algorithms/index.ts:16-35 | The result meets the contract of the search the name selects; unknown names run BFS |
| Dispatch.PromisedExplores | frontend/src/algorithms/index.ts:16-35 | Whichever search runs, a missing endpoint gives the empty result, and otherwise the shared outcome holds |
| Dispatch.OptimalCards | frontend/src/types/index.ts:89-116 | BFS and Dijkstra, which the cards mark optimal, find fewest-step and cheapest paths respectively |
| Store.CreateNode | frontend/src/store/gridStore.ts:50-62 | A new cell is EMPTY and NORMAL at its place, with every search field reset |
| Store.CreateInitialGrid | frontend/src/store/gridStore.ts:64-74 | Builds a `rows` by `cols` grid of new cells, each knowing its own place |
| Store.WithNode | frontend/src/store/gridStore.ts:171-178 | Only the target cell changes, and the shape is kept |
| Store.ApplyUpdateLaws | frontend/src/store/gridStore.ts:239 | An empty patch changes nothing; applying a patch twice equals applying it once |
| Store.UpdateGrid | frontend/src/store/gridStore.ts:234-245 | Only the addressed cell is patched; an out-of-range address changes nothing |
| Store.ClearPathNode | frontend/src/store/gridStore.ts:125-137 | VISITED, PATH and CURRENT become EMPTY, other kinds are kept, and every search field is reset |
| Store.ClearWallsNode | frontend/src/store/gridStore.ts:148-152 | WALL and WEIGHT become EMPTY and terrain becomes NORMAL; nothing else changes |
| Store.ClearPathIdempotent | frontend/src/store/gridStore.ts:122-142 | Clearing the path twice equals clearing it once |
| Store.ClearWallsIdempotent | frontend/src/store/gridStore.ts:145-155 | Clearing walls twice equals clearing them once, and the result has no WALL or WEIGHT |
| Store.ClearsCommute | frontend/src/store/gridStore.ts:122-155 | The two clears commute |
| Store.FreshGridIsClear | frontend/src/store/gridStore.ts:64-74 | Neither clear changes a new grid |
| Store.TrackedEndpoints | frontend/src/store/gridStore.ts:11-12 | When the tracked positions describe the grid, there is at most one START and one END. When both are tracked, they are what the searches find |
| Store.ClearsKeepTracked | frontend/src/store/gridStore.ts:122-155 | Neither clear moves START or END |
| Store.UpdateKeepsTracked | frontend/src/store/gridStore.ts:234-245 | A patch that leaves the kind alone keeps the tracked endpoints valid |
| Store.PaintDefaults | frontend/src/store/gridStore.ts:93-102 | Painting the default START and END onto a new grid gives the default layout; the two cells differ exactly when there are at least two columns |
| Store.DefaultLayoutTracked | frontend/src/store/gridStore.ts:101-109 | With two columns or more, the default layout has exactly the tracked START and END |
| Store.GridStore.constructor | frontend/src/store/gridStore.ts:77-90 | Starts with no grid, 25 by 50 requested, no endpoints, not finished, no stats |
| Store.GridStore.InitializeGrid | frontend/src/store/gridStore.ts:93-113 | Installs the default layout and its endpoints, clears the finished flag and the stats. In the default layout every cell is new, except that the END cell is a new cell of kind END and, when it is another cell, the START cell is a new cell of kind START |
| Store.GridStore.ResetGrid | frontend/src/store/gridStore.ts:116-119 | Re-initialises with the current dimensions: the same default layout, endpoints, finished flag and stats as `InitializeGrid` |
| Store.GridStore.ClearPath | frontend/src/store/gridStore.ts:122-142 | The grid becomes its path-cleared image, the endpoints are kept, the finished flag is cleared and the stats are dropped |
| Store.GridStore.ClearWalls | frontend/src/store/gridStore.ts:145-155 | The grid becomes its wall-cleared image; nothing else changes |
| Store.GridStore.UpdateNode | frontend/src/store/gridStore.ts:234-245 | The grid becomes its patched image; nothing else changes |
| Store.GridStore.GetNode | frontend/src/store/gridStore.ts:258-264 | Returns a cell exactly when the address is in the grid, and that cell is the one at the address |
| Store.GridStore.SetNodeType | frontend/src/store/gridStore.ts:158-207 | Out of range, or when START/END would be replaced by another kind, nothing changes. Otherwise the cell takes the kind and terrain, a moved endpoint resets its old cell to EMPTY, and overwriting the other endpoint forgets it |
| Store.GridStore.SetStartNode | frontend/src/store/gridStore.ts:248-250 | In range, the result is the `setNodeType` edit to START with NORMAL terrain. The cell becomes START and is the tracked start, the previous START cell becomes EMPTY, and a tracked END on that cell is forgotten; every other cell is kept. Out of range nothing changes |
| Store.GridStore.SetEndNode | frontend/src/store/gridStore.ts:253-255 | In range, the result is the `setNodeType` edit to END with NORMAL terrain. The cell becomes END and is the tracked end, the previous END cell becomes EMPTY, and a tracked START on that cell is forgotten; every other cell is kept. Out of range nothing changes |
| Store.ApplyNodeType | frontend/src/store/gridStore.ts:170-206 | Performs the edit. When the old state tracked its endpoints and the cell was not protected, the new state tracks them too |
| Store.SetNodeTypeKeepsTracked | frontend/src/store/gridStore.ts:180-205 | Any permitted edit keeps at most one START and one END, each the tracked one |
| MazeGenerator.IsStartOrEnd | frontend/src/utils/mazeGenerator.ts:8-16 | True exactly at the two endpoints |
| MazeGenerator.NearIsChebyshev | frontend/src/utils/mazeGenerator.ts:19-29 | Near means within Chebyshev distance `buffer` of an endpoint |
| MazeGenerator.NearCovers | frontend/src/utils/mazeGenerator.ts:19-29 | A non-negative buffer covers the endpoints, and a wider buffer covers more |
| MazeGenerator.RandomRow | frontend/src/utils/mazeGenerator.ts:87-94 | One row's walls are exactly the cells outside the buffer whose draw falls below the density. They come left to right, and the draw counter advances by the cells that drew |
| MazeGenerator.RandomMaze | frontend/src/utils/mazeGenerator.ts:77-98 | The walls lie in the grid, in strict row-major order. A cell is a wall exactly when it is outside the buffer of 3 and its own draw is below the density |
| MazeGenerator.RandomMazeClear | frontend/src/utils/mazeGenerator.ts:89 | No wall lies within 3 of an endpoint |
| MazeGenerator.RandomMazeDensity | frontend/src/utils/mazeGenerator.ts:91 | Density 0 gives no walls; density 1 walls every cell outside the buffer |
| MazeGenerator.DrawsBeforeGrows | frontend/src/utils/mazeGenerator.ts:86-93 | Cells further along in row-major order draw later, so no two cells share a draw |
| MazeGenerator.StairPattern | frontend/src/utils/mazeGenerator.ts:101-127 | Every wall is in the grid, outside the buffer of 2, and on one of four barrier columns. Every barrier cell in the grid and outside the buffer is a wall |
| MazeGenerator.WallColInside | frontend/src/utils/mazeGenerator.ts:41-44 | Every vertical wall column lies inside the grid |
| MazeGenerator.ConnectorStartBound | frontend/src/utils/mazeGenerator.ts:63 | A connector starts at column 2 or later |
| MazeGenerator.RecursiveDivisionMaze | frontend/src/utils/mazeGenerator.ts:32-74 | Walls avoid the buffer of 2 and lie in the grid. Each is on a vertical wall outside its gap or on a horizontal connector. Every vertical wall cell outside the gap and the buffer is a wall, and so is every connector cell outside the buffer |
| MazeGenerator.VerticalWalls | frontend/src/utils/mazeGenerator.ts:40-58 | The walls are exactly the vertical wall cells outside the gaps and the buffer, and all lie in the grid |
| MazeGenerator.Wall | frontend/src/utils/mazeGenerator.ts:44-57 | One wall yields exactly the cells of its column, strictly inside the rows, outside its gap and the buffer |
| MazeGenerator.Connector | frontend/src/utils/mazeGenerator.ts:62-70 | One connector yields exactly the cells of its row from its random start, at most a quarter of the width long and short of the last two columns, outside the buffer |
| MazeGenerator.ClusterOf | frontend/src/utils/mazeGenerator.ts:142-145 | A cluster's radius is between 2 and 5 and its weight is 2, 5 or 10 |
| MazeGenerator.DiscSpan | frontend/src/utils/mazeGenerator.ts:147-151 | Every cell of a disc lies in the square the loops scan |
| MazeGenerator.DiscRow | frontend/src/utils/mazeGenerator.ts:148-155 | One row of a cluster yields exactly the covered cells of that row, each with the cluster's weight |
| MazeGenerator.ClusterCells | frontend/src/utils/mazeGenerator.ts:147-156 | A cluster yields exactly its covered cells: in the grid, in the disc, not an endpoint |
| MazeGenerator.GenerateWeightedTerrain | frontend/src/utils/mazeGenerator.ts:130-160 | Every emitted cell is covered by one of the clusters and carries its weight, and every covered cell of every cluster is emitted |

## Left out

- The Euclidean heuristic is left out because it is floating point (`Math.sqrt`). `AStarSearch.AStar`, `GreedySearch.Greedy` and `Dispatch.RunAlgorithm` therefore require that the heuristic name does not select it.
- AStarSearch.AStar: proves only the shared outcome, not that the found path is cheapest, because the code is not optimal. The card table (frontend/src/types/index.ts:124) and the comment at frontend/src/algorithms/astar.ts:9 claim optimality. But a queued cell whose fScore improves keeps its old place until the next enqueue re-sorts the queue (astar.ts:102-104), and a cell closes with whatever gScore it has when dequeued.
  - Take a grid of two rows and five columns. Row 0 has terrain 1 2 1 1 1. Row 1 is END (terrain 1), WALL, 1, 2, START (terrain 1). So START is (1,4) and END is (1,0).
  - Step by step through astar.ts:66-106: (0,3) first gets gScore 3 from (1,3). Expanding (0,4) lowers it to 2, but it stays queued behind (0,2). (0,2) then closes with gScore 4 via (1,2), not 3 via (0,3).
  - The run returns the path (1,4) (1,3) (1,2) (0,2) (0,1) (0,0) (1,0), of cost 8. The path along row 0 costs 7.
- AStarSearch.SearchFrom: the same holds for the loop on its own.
- GreedySearch.Greedy: the visit order's closeness to the END is stated per queue state (`SortedClosest`), not over the whole run.
- GreedySearch.SearchFrom: the same holds for the loop on its own.
- Search state: the searches return positions, not node objects. Per-cell search fields are sets and maps. `isPath` is never written by the searches and is not modelled. The closed set of `astar`, keyed by `"row-col"` strings, is a set of positions.
- Diagonal moves: the `allowDiagonal` option of `getNeighbors` is never enabled by the searches and is not modelled.
- The store's framework mechanics (subscriptions, `set`/`get`) are not modelled, and neither are the UI-only fields and setters: `currentTool`, `selectedAlgorithm`, `speed`, `heuristic`, `isRunning`, `isPaused`, `setIsFinished`, `setStats`.
- Store.GridStore.SetNodeType: the endpoint cell reset is modelled on values. The source writes the reset into a node object that the previous grid still shares, and that aliasing is not captured.
- Store.GridStore.InitializeGrid: requires at least one row and one column. With none, the source indexes a missing row and throws.
- Store.GridStore.ResetGrid: requires the same, for the same reason.
- With a single column the default START and END fall on one cell: the END overwrites the START, but `startNode` still names that cell. `PaintDefaults` states when this happens. `DefaultLayoutTracked` proves the endpoint invariant only for two columns or more.
- Store.GridStore.SetNodeType: that the endpoint invariant is kept is stated by `ApplyNodeType` and `SetNodeTypeKeepsTracked`, not by the method's own contract.
- Randomness: `Math.random()` is an oracle parameter, so the generators' results are stated for any sequence of draws.
- MazeGenerator.GenerateWeightedTerrain: the distance test `sqrt(dr² + dc²) <= radius` is stated as `dr² + dc² <= radius²`. The two agree for integer offsets and a non-negative radius.
- MazeGenerator.RecursiveDivisionMaze: the connector start `floor(random * cols / 3) + 2` is computed on reals. It is bounded below but not compared with the grid width, which the source does not check either.
- Timing statistics (`executionTime`) and the animation that replays the visit order are outside the model.
