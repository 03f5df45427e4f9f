/**
 * The grid/node data model shared by the pathfinding engine: node kinds,
 * terrain costs, the node record, the result of a search and the constant
 * lookup tables (speeds and algorithm metadata).
 */
module Types {

  datatype Option<T> = None | Some(value: T)

  /** A grid coordinate; `row` counts downwards, `col` to the right. */
  datatype Pos = Pos(row: int, col: int)

  /** The eight kinds of cell. */
  datatype NodeType = Empty | Wall | Start | End | Weight | Visited | Path | Current

  /** Terrain is the numeric cost of entering a cell. */
  type Terrain = t: int | t == 1 || t == 2 || t == 5 || t == 10 witness 1

  const NORMAL: Terrain := 1
  const GRASS: Terrain := 2
  const WATER: Terrain := 5
  const MOUNTAIN: Terrain := 10

  /** A number that may be `Infinity`, as the per-run scores start out. */
  datatype Score = Finite(value: int) | Infinity

  /**
   * One grid cell. `parent` names the predecessor cell by its coordinates
   * (the original keeps a reference to the node object).
   */
  datatype Node = Node(
    row: int,
    col: int,
    nodeType: NodeType,
    terrain: Terrain,
    distance: Score,
    heuristic: int,
    fScore: Score,
    gScore: Score,
    parent: Option<Pos>,
    isVisited: bool,
    isPath: bool)

  type Grid = seq<seq<Node>>

  /** What a search returns; cells are named by their coordinates. */
  datatype AlgorithmResult = AlgorithmResult(
    visitedNodesInOrder: seq<Pos>,
    shortestPath: seq<Pos>,
    success: bool)

  /** The result every search gives when an endpoint is missing. */
  const NoResult := AlgorithmResult([], [], false)

  /** Statistics recorded after a run. */
  datatype Stats = Stats(
    algorithm: string,
    nodesVisited: nat,
    pathLength: nat,
    executionTime: int,
    pathCost: int)

  datatype AlgorithmType = Bfs | Dfs | Dijkstra | AStar | Greedy

  datatype AlgorithmInfo = AlgorithmInfo(
    name: string,
    fullName: string,
    description: string,
    timeComplexity: string,
    spaceComplexity: string,
    weighted: bool,
    optimal: bool)

  /** Terrain is the cost of entering a cell, so every step costs at least 1. */
  lemma TerrainCostPositive(t: Terrain)
    ensures 1 <= t <= 10
  {
  }

  const BFS_DESCRIPTION := "Explores all neighbors at current depth before moving deeper. Guarantees shortest path in unweighted graphs."
  const DFS_DESCRIPTION := "Explores as far as possible along each branch before backtracking. Does not guarantee shortest path."
  const DIJKSTRA_DESCRIPTION := "Finds shortest path in weighted graphs. Explores nodes in order of their distance from start."
  const ASTAR_DESCRIPTION := "Uses heuristics to guide search towards the goal. Faster than Dijkstra while remaining optimal."
  const GREEDY_DESCRIPTION := "Always expands the node closest to the goal. Very fast but does not guarantee shortest path."

  /** The algorithm card table. */
  function AlgorithmInfoOf(a: AlgorithmType): (info: AlgorithmInfo)
    ensures info.weighted <==> (a == Dijkstra || a == AStar)
    ensures info.optimal <==> (a == Bfs || a == Dijkstra || a == AStar)
  {
    match a
    case Bfs => AlgorithmInfo(
      "BFS", "Breadth-First Search",
      BFS_DESCRIPTION,
      "O(V + E)", "O(V)", false, true)
    case Dfs => AlgorithmInfo(
      "DFS", "Depth-First Search",
      DFS_DESCRIPTION,
      "O(V + E)", "O(V)", false, false)
    case Dijkstra => AlgorithmInfo(
      "Dijkstra", "Dijkstra's Algorithm",
      DIJKSTRA_DESCRIPTION,
      "O((V + E) log V)", "O(V)", true, true)
    case AStar => AlgorithmInfo(
      "A*", "A* Search Algorithm",
      ASTAR_DESCRIPTION,
      "O(E)", "O(V)", true, true)
    case Greedy => AlgorithmInfo(
      "Greedy", "Greedy Best-First Search",
      GREEDY_DESCRIPTION,
      "O(E)", "O(V)", false, false)
  }

  datatype SpeedType = Slow | Medium | Fast | Instant

  /** Replay delay in milliseconds for each speed setting. */
  function SpeedValue(s: SpeedType): (ms: nat)
    ensures ms == 0 <==> s == Instant
  {
    match s
    case Slow => 100
    case Medium => 30
    case Fast => 10
    case Instant => 0
  }

  /** The speeds are strictly ordered: slow > medium > fast > instant. */
  lemma SpeedValuesDecrease()
    ensures SpeedValue(Slow) > SpeedValue(Medium) > SpeedValue(Fast) > SpeedValue(Instant) == 0
  {
  }
}
