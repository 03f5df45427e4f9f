/**
 * `runAlgorithm`: run one of the five searches by name. The name is the
 * string the UI passes; a name that is none of the five runs BFS.
 */
module Dispatch {
  import opened Types
  import opened GridModel
  import opened SearchUtils
  import opened SearchSpec
  import BreadthFirst
  import DepthFirst
  import DijkstraSearch
  import AStarSearch
  import GreedySearch

  /** The name of each algorithm, as the UI and the switch spell it. */
  function AlgorithmName(a: AlgorithmType): (name: string)
    ensures |name| >= 3
  {
    match a
    case Bfs => "bfs"
    case Dfs => "dfs"
    case Dijkstra => "dijkstra"
    case AStar => "astar"
    case Greedy => "greedy"
  }

  /** The algorithm the switch picks for a name: BFS for any unknown name. */
  function AlgorithmOf(name: string): (a: AlgorithmType)
    ensures a != Bfs ==> name == AlgorithmName(a)
  {
    match name
    case "bfs" => Bfs
    case "dfs" => Dfs
    case "dijkstra" => Dijkstra
    case "astar" => AStar
    case "greedy" => Greedy
    case _ => Bfs
  }

  /** Every algorithm is selected by its own name, and distinct algorithms have distinct names. */
  lemma NameRoundTrip(a: AlgorithmType, b: AlgorithmType)
    ensures AlgorithmOf(AlgorithmName(a)) == a
    ensures AlgorithmName(a) == AlgorithmName(b) ==> a == b
  {
    if AlgorithmName(a) == AlgorithmName(b) {
      assert AlgorithmOf(AlgorithmName(a)) == AlgorithmOf(AlgorithmName(b));
    }
  }

  /** Whether an algorithm reads the heuristic setting. */
  predicate UsesHeuristic(a: AlgorithmType) {
    a == AStar || a == Greedy
  }

  /** What the search chosen for `a` promises about `g`. */
  ghost predicate Promised(a: AlgorithmType, g: Grid, r: AlgorithmResult)
    requires WellFormed(g)
  {
    match a
    case Bfs => BfsContract(g, r)
    case Dfs => DfsContract(g, r)
    case Dijkstra => DijkstraContract(g, r)
    case AStar => InformedContract(g, r)
    case Greedy => InformedContract(g, r)
  }

  /**
   * Whatever is selected, the result is the empty one when an endpoint is
   * missing, and otherwise an exploration from the START: stopping at the
   * first END reached, or else visiting exactly the cells reachable from
   * the START.
   */
  lemma PromisedExplores(a: AlgorithmType, g: Grid, r: AlgorithmResult)
    requires WellFormed(g) && Promised(a, g, r)
    ensures MissingEndpoint(g) ==> r == NoResult
    ensures !MissingEndpoint(g) ==> Explores(g, StartOf(g), r)
  {
  }

  /**
   * The algorithms the card table marks optimal and that are proved so:
   * BFS finds a path with the fewest steps, Dijkstra a cheapest one.
   */
  lemma OptimalCards(a: AlgorithmType, g: Grid, r: AlgorithmResult)
    requires WellFormed(g) && Promised(a, g, r) && !MissingEndpoint(g)
    requires a == Bfs || a == Dijkstra
    ensures AlgorithmInfoOf(a).optimal
    ensures a == Bfs ==> FewestSteps(g, StartOf(g), r)
    ensures a == Dijkstra ==> Cheapest(g, StartOf(g), r)
  {
  }

  /** `runAlgorithm`; the heuristic name defaults to `manhattan`. */
  method RunAlgorithm(algorithmType: string, grid: Grid, heuristic: string := "manhattan")
    returns (result: AlgorithmResult)
    requires WellFormed(grid)
    requires UsesHeuristic(AlgorithmOf(algorithmType)) ==> GetHeuristic(heuristic) != EuclideanH
    ensures Promised(AlgorithmOf(algorithmType), grid, result)
  {
    match algorithmType
    case "bfs" =>
      result := BreadthFirst.Bfs(grid);
    case "dfs" =>
      result := DepthFirst.Dfs(grid);
    case "dijkstra" =>
      result := DijkstraSearch.Dijkstra(grid);
    case "astar" =>
      result := AStarSearch.AStar(grid, heuristic);
    case "greedy" =>
      result := GreedySearch.Greedy(grid, heuristic);
    case _ =>
      result := BreadthFirst.Bfs(grid);
  }
}
