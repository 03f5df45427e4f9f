/**
 * Depth-first search: a LIFO stack, cells marked visited when they are
 * pushed, the neighbours of a cell pushed in reverse so that the first of
 * them is expanded next.
 */
module DepthFirst {
  import opened Types
  import opened GridModel
  import opened SearchUtils
  import opened SearchSpec
  import opened DepthFirstInvariant

  /**
   * `dfs`. The per-cell fields of the original (`isVisited`, `parent`) are
   * the set `visited` and the map `parent`.
   */
  method Dfs(grid: Grid) returns (result: AlgorithmResult)
    requires WellFormed(grid)
    ensures DfsContract(grid, result)
  {
    var clonedGrid := CloneGrid(grid);
    var start, end := FindStartAndEnd(clonedGrid);
    SameLayoutEndpoints(grid, clonedGrid);
    if start.None? || end.None? {
      return NoResult;
    }
    result := SearchFrom(grid, clonedGrid, start.value);
  }

  /** The stack loop of `dfs`, from the start cell `s` of the copy `clonedGrid` of `grid`. */
  method SearchFrom(ghost grid: Grid, clonedGrid: Grid, s: Pos) returns (result: AlgorithmResult)
    requires WellFormed(grid) && WellFormed(clonedGrid) && SameLayout(grid, clonedGrid)
    requires Passable(grid, s)
    ensures Explores(grid, s, result) && DeepensFirst(grid, s, result)
  {
    var visitedNodesInOrder: seq<Pos> := [];
    var stack: seq<Pos> := [s];
    var visited: set<Pos> := {s};
    var parent: map<Pos, Pos> := map[];
    ghost var depth: map<Pos, nat> := map[s := 0];
    ghost var g := grid;
    ghost var cells := RectCells(|g|, Cols(g));
    GrowWithinGrid(g, {}, s);
    DfsStart(g, s);

    while |stack| > 0
      invariant DfsState(g, s, visitedNodesInOrder, stack, visited, parent, depth)
      invariant visited <= cells
      decreases 2 * |cells - visited| + |stack|
    {
      ghost var expanded := visitedNodesInOrder;
      DfsPop(g, s, visitedNodesInOrder, stack, visited, parent, depth);
      var current := stack[|stack| - 1];
      stack := stack[..|stack| - 1];
      visitedNodesInOrder := visitedNodesInOrder + [current];
      SameLayoutCell(grid, clonedGrid, current);

      if At(clonedGrid, current).nodeType == End {
        var path := ReconstructPath(parent, current, depth);
        result := AlgorithmResult(visitedNodesInOrder, path, true);
        DfsFound(g, s, expanded, current, stack, visited, parent, path);
        return;
      }

      var forward := GetNeighbors(clonedGrid, current);
      SameLayoutNeighbors(grid, clonedGrid, current);
      var neighbors := Reverse(forward);
      ReverseKeeps(forward);
      ghost var stack0, visited0 := stack, visited;
      stack, visited, parent, depth :=
        PushNeighbors(g, s, expanded, current, neighbors, stack, visited, parent, depth);
      DfsExpanded(g, s, expanded, current, stack0, visited0, stack, visited, parent, depth, neighbors);
    }

    result := AlgorithmResult(visitedNodesInOrder, [], false);
    DfsExhausted(g, s, visitedNodesInOrder, visited, parent, depth);
  }

  /**
   * The neighbour loop of `dfs`: every neighbour not yet visited is marked
   * visited, gets `current` as parent, and is pushed, in the order of
   * `neighbors`. The caller passes the neighbours back to front, so the
   * first undiscovered one ends up on top (`UnvisitedReverse`,
   * `FrontierExpanded`).
   */
  method PushNeighbors(ghost g: Grid, ghost s: Pos, ghost expanded: seq<Pos>, current: Pos, neighbors: seq<Pos>,
                       stack0: seq<Pos>, visited0: set<Pos>, parent0: map<Pos, Pos>, ghost depth0: map<Pos, nat>)
    returns (stack: seq<Pos>, visited: set<Pos>, parent: map<Pos, Pos>, ghost depth: map<Pos, nat>)
    requires WellFormed(g) && Distinct(neighbors)
    requires forall u :: u in neighbors <==> u in Neighbors(g, current)
    requires Expanding(g, s, expanded, current, stack0, visited0, parent0, depth0, [])
    requires visited0 <= RectCells(|g|, Cols(g))
    ensures Expanding(g, s, expanded, current, stack, visited, parent, depth, neighbors)
    ensures stack == stack0 + Unvisited(visited0, neighbors)
    ensures forall u {:trigger u in visited} :: u in visited <==> u in visited0 || u in neighbors
    ensures visited <= RectCells(|g|, Cols(g))
    ensures 2 * |RectCells(|g|, Cols(g)) - visited| + |stack| <= 2 * |RectCells(|g|, Cols(g)) - visited0| + |stack0|
  {
    stack, visited, parent, depth := stack0, visited0, parent0, depth0;
    ghost var cells := RectCells(|g|, Cols(g));
    for i := 0 to |neighbors|
      invariant Expanding(g, s, expanded, current, stack, visited, parent, depth, neighbors[..i])
      invariant stack == stack0 + Unvisited(visited0, neighbors[..i])
      invariant visited0 <= visited
      invariant forall p {:trigger p in visited} :: p in visited ==> p in visited0 || p in neighbors[..i]
      invariant visited <= cells
      invariant 2 * |cells - visited| + |stack| <= 2 * |cells - visited0| + |stack0|
    {
      var neighbor := neighbors[i];
      TakeOneMore(neighbors, i);
      DistinctNotInPrefix(neighbors, i);
      if neighbor !in visited {
        DfsPush(g, s, expanded, current, stack, visited, parent, depth, neighbors[..i], neighbor);
        StackPush(stack0, visited0, stack, neighbors[..i], neighbor);
        GrowWithinGrid(g, visited, neighbor);
        visited := visited + {neighbor};
        parent := parent[neighbor := current];
        stack := stack + [neighbor];
        depth := depth[neighbor := depth[current] + 1];
      } else {
        DfsSkip(g, s, expanded, current, stack, visited, parent, depth, neighbors[..i], neighbor);
        StackSkip(stack0, visited0, stack, neighbors[..i], neighbor);
      }
    }
    TakeAll(neighbors);
  }
}
