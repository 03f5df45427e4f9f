/**
 * Breadth-first search: a FIFO queue, cells marked visited when they are
 * enqueued, each discovered cell one step further than the cell that
 * discovered it.
 */
module BreadthFirst {
  import opened Types
  import opened GridModel
  import opened SearchUtils
  import opened SearchSpec

  /**
   * `bfs`. The per-cell fields of the original (`isVisited`, `distance`,
   * `parent`) are the set `visited` and the maps `distance` and `parent`.
   */
  method Bfs(grid: Grid) returns (result: AlgorithmResult)
    requires WellFormed(grid)
    ensures BfsContract(grid, result)
  {
    var clonedGrid := CloneGrid(grid);
    var start, end := FindStartAndEnd(clonedGrid);
    SameLayoutEndpoints(grid, clonedGrid);
    if start.None? || end.None? {
      return NoResult;
    }
    result := SearchFrom(grid, clonedGrid, start.value);
  }

  /** The queue loop of `bfs`, from the start cell `s` of the copy `clonedGrid` of `grid`. */
  method SearchFrom(ghost grid: Grid, clonedGrid: Grid, s: Pos) returns (result: AlgorithmResult)
    requires WellFormed(grid) && WellFormed(clonedGrid) && SameLayout(grid, clonedGrid)
    requires Passable(grid, s)
    ensures Explores(grid, s, result) && FewestSteps(grid, s, result)
    ensures LevelOrder(grid, s, result) && NeighboursFirst(grid, s, result)
  {
    var visitedNodesInOrder: seq<Pos> := [];
    var queue: seq<Pos> := [s];
    var visited: set<Pos> := {s};
    var distance: map<Pos, nat> := map[s := 0];
    var parent: map<Pos, Pos> := map[];
    ghost var level: nat := 0;
    ghost var levels: seq<nat> := [];
    ghost var g := grid;
    ghost var cells := RectCells(|g|, Cols(g));
    GrowWithinGrid(g, {}, s);
    BfsStart(g, s);

    while |queue| > 0
      invariant BfsState(g, s, visitedNodesInOrder, queue, visited, distance, parent, level)
      invariant Levels(g, s, visitedNodesInOrder, levels, level)
      invariant visited <= cells
      decreases 2 * |cells - visited| + |queue|
    {
      ghost var expanded := visitedNodesInOrder;
      BfsPop(g, s, visitedNodesInOrder, queue, visited, distance, parent, level);
      LevelsAtPop(g, s, visitedNodesInOrder, queue, visited, distance, parent, level, levels);
      var current := queue[0];
      queue := queue[1..];
      visitedNodesInOrder := visitedNodesInOrder + [current];
      levels := levels + [distance[current]];
      level := distance[current];
      SameLayoutCell(grid, clonedGrid, current);

      if At(clonedGrid, current).nodeType == End {
        var path := ReconstructPath(parent, current, distance);
        result := AlgorithmResult(visitedNodesInOrder, path, true);
        BfsFound(g, s, expanded, current, queue, visited, distance, parent, path);
        LevelsInOrder(g, s, visitedNodesInOrder, levels, level, result);
        return;
      }

      var neighbors := GetNeighbors(clonedGrid, current);
      SameLayoutNeighbors(grid, clonedGrid, current);
      queue, visited, distance, parent :=
        EnqueueNeighbors(g, s, expanded, current, neighbors, queue, visited, distance, parent);
      BfsExpanded(g, s, expanded, current, queue, visited, distance, parent, neighbors);
    }

    result := AlgorithmResult(visitedNodesInOrder, [], false);
    BfsExhausted(g, s, visitedNodesInOrder, visited, distance, parent, level);
    LevelsInOrder(g, s, visitedNodesInOrder, levels, level, result);
  }

  /**
   * The neighbour loop of `bfs`: every neighbour not yet visited is marked
   * visited, gets `current` as parent and one more step, and is queued.
   */
  method EnqueueNeighbors(ghost g: Grid, ghost s: Pos, ghost expanded: seq<Pos>, current: Pos, neighbors: seq<Pos>,
                          queue0: seq<Pos>, visited0: set<Pos>, distance0: map<Pos, nat>, parent0: map<Pos, Pos>)
    returns (queue: seq<Pos>, visited: set<Pos>, distance: map<Pos, nat>, parent: map<Pos, Pos>)
    requires WellFormed(g) && neighbors == Neighbors(g, current)
    requires current in distance0 && Expanding(g, s, expanded, current, distance0[current], queue0, visited0, distance0, parent0, [])
    requires visited0 <= RectCells(|g|, Cols(g))
    ensures Expanding(g, s, expanded, current, distance0[current], queue, visited, distance, parent, neighbors)
    ensures current in distance && distance[current] == distance0[current]
    ensures visited <= RectCells(|g|, Cols(g))
    ensures 2 * |RectCells(|g|, Cols(g)) - visited| + |queue| <= 2 * |RectCells(|g|, Cols(g)) - visited0| + |queue0|
  {
    queue, visited, distance, parent := queue0, visited0, distance0, parent0;
    ghost var cells := RectCells(|g|, Cols(g));
    ghost var lo := distance0[current];
    for i := 0 to |neighbors|
      invariant Expanding(g, s, expanded, current, lo, queue, visited, distance, parent, neighbors[..i])
      invariant visited <= cells
      invariant 2 * |cells - visited| + |queue| <= 2 * |cells - visited0| + |queue0|
    {
      var neighbor := neighbors[i];
      TakeOneMore(neighbors, i);
      DistinctNotInPrefix(neighbors, i);
      if neighbor !in visited {
        BfsEnqueue(g, s, expanded, current, lo, queue, visited, distance, parent, neighbors[..i], neighbor);
        GrowWithinGrid(g, visited, neighbor);
        visited := visited + {neighbor};
        distance := distance[neighbor := distance[current] + 1];
        parent := parent[neighbor := current];
        queue := queue + [neighbor];
      } else {
        BfsSkip(g, s, expanded, current, lo, queue, visited, distance, parent, neighbors[..i], neighbor);
      }
    }
    TakeAll(neighbors);
  }

  // ---------------------------------------------------------------------
  // The loop invariant and its steps
  // ---------------------------------------------------------------------

  /** Every neighbour of `v` has been discovered, at most one step further than `v`. */
  ghost predicate ClosedAt(g: Grid, v: Pos, visited: set<Pos>, distance: map<Pos, nat>) {
    v in distance && forall u :: Passable(g, u) && Adjacent(v, u) ==> u in visited && u in distance && distance[u] <= distance[v] + 1
  }

  /** Every expanded cell has had all its neighbours discovered. */
  ghost predicate Closure(g: Grid, expanded: seq<Pos>, visited: set<Pos>, distance: map<Pos, nat>) {
    forall v :: v in expanded ==> ClosedAt(g, v, visited, distance)
  }

  /**
   * The discovered cells form a parent tree rooted at `s` whose inner
   * cells are all expanded, each cell one step beyond its parent.
   */
  ghost predicate Tree(g: Grid, s: Pos, order: seq<Pos>, visited: set<Pos>, distance: map<Pos, nat>, parent: map<Pos, Pos>) {
    && ParentTree(g, s, parent, visited)
    && distance.Keys == visited && distance[s] == 0
    && (forall c :: c in parent ==> parent[c] in order && distance[c] == distance[parent[c]] + 1)
  }

  /** Every discovered cell is either expanded or queued, and only once. */
  ghost predicate Line(order: seq<Pos>, queue: seq<Pos>, visited: set<Pos>) {
    && Distinct(order + queue)
    && (forall p {:trigger p in visited} :: p in visited <==> p in order || p in queue)
  }

  /** Expanded cells are at most `lo` steps out, queued ones `lo` or `lo + 1`, nearest first. */
  ghost predicate Band(distance: map<Pos, nat>, order: seq<Pos>, queue: seq<Pos>, lo: nat) {
    && (forall p :: p in order ==> p in distance && distance[p] <= lo)
    && (forall i :: 0 <= i < |queue| ==> queue[i] in distance && lo <= distance[queue[i]] <= lo + 1)
    && (forall i, j :: 0 <= i < j < |queue| ==> distance[queue[i]] <= distance[queue[j]])
  }

  /** The state between two dequeues; `order` is `visitedNodesInOrder`. */
  ghost predicate BfsState(g: Grid, s: Pos, order: seq<Pos>, queue: seq<Pos>, visited: set<Pos>,
                           distance: map<Pos, nat>, parent: map<Pos, Pos>, level: nat)
    requires WellFormed(g)
  {
    && Tree(g, s, order, visited, distance, parent)
    && Line(order, queue, visited)
    && Band(distance, order, queue, level)
    && Closure(g, order, visited, distance)
    && NoEndAmong(g, order)
    && (order == [] ==> queue == [s])
    && (order != [] ==> order[0] == s && [s] + Neighbors(g, s) <= order + queue)
  }

  /**
   * The state while the neighbours of `current` are examined, `done` being
   * those already examined.
   */
  ghost predicate Expanding(g: Grid, s: Pos, expanded: seq<Pos>, current: Pos, lo: nat, queue: seq<Pos>,
                            visited: set<Pos>, distance: map<Pos, nat>, parent: map<Pos, Pos>, done: seq<Pos>)
    requires WellFormed(g)
  {
    var order := expanded + [current];
    && Tree(g, s, order, visited, distance, parent)
    && Line(order, queue, visited)
    && current in distance && distance[current] == lo
    && Band(distance, order, queue, lo)
    && Closure(g, expanded, visited, distance)
    && NoEndAmong(g, expanded)
    && Done(visited, distance, lo, done)
    && Head(g, s, expanded, current, queue, done)
  }

  /** Every examined neighbour is discovered, at most one step beyond the band. */
  ghost predicate Done(visited: set<Pos>, distance: map<Pos, nat>, lo: nat, done: seq<Pos>) {
    forall u :: u in done ==> u in visited && u in distance && distance[u] <= lo + 1
  }

  /**
   * Expanding the start queues exactly its examined neighbours; afterwards
   * the start and its neighbours head the visit order.
   */
  ghost predicate Head(g: Grid, s: Pos, expanded: seq<Pos>, current: Pos, queue: seq<Pos>, done: seq<Pos>)
    requires WellFormed(g)
  {
    && (expanded == [] ==> current == s && queue == done)
    && (expanded != [] ==> expanded[0] == s && [s] + Neighbors(g, s) <= expanded + [current] + queue)
  }

  lemma BfsStart(g: Grid, s: Pos)
    requires WellFormed(g) && Passable(g, s)
    ensures BfsState(g, s, [], [s], {s}, map[s := 0], map[], 0)
  {
  }

  /** Taking the head of the queue starts its expansion. */
  lemma BfsPop(g: Grid, s: Pos, order: seq<Pos>, queue: seq<Pos>, visited: set<Pos>,
               distance: map<Pos, nat>, parent: map<Pos, Pos>, level: nat)
    requires WellFormed(g) && BfsState(g, s, order, queue, visited, distance, parent, level)
    requires |queue| > 0
    ensures Passable(g, queue[0]) && queue[0] in distance && Ranked(parent, distance)
    ensures Expanding(g, s, order, queue[0], distance[queue[0]], queue[1..], visited, distance, parent, [])
  {
    LinePop(order, queue, visited);
    BandPop(distance, order, queue, level);
    TreePop(g, s, order, visited, distance, parent, queue[0]);
    HeadPop(g, s, order, queue);
    ExpandingIntro(g, s, order, queue[0], distance[queue[0]], queue[1..], visited, distance, parent, []);
  }

  lemma TreePop(g: Grid, s: Pos, order: seq<Pos>, visited: set<Pos>, distance: map<Pos, nat>, parent: map<Pos, Pos>,
                c: Pos)
    requires Tree(g, s, order, visited, distance, parent)
    ensures Tree(g, s, order + [c], visited, distance, parent)
    ensures Ranked(parent, distance)
  {
  }

  lemma HeadPop(g: Grid, s: Pos, order: seq<Pos>, queue: seq<Pos>)
    requires WellFormed(g) && |queue| > 0
    requires order == [] ==> queue == [s]
    requires order != [] ==> order[0] == s && [s] + Neighbors(g, s) <= order + queue
    ensures Head(g, s, order, queue[0], queue[1..], [])
  {
    assert (order + [queue[0]]) + queue[1..] == order + queue;
  }

  lemma LinePop(order: seq<Pos>, queue: seq<Pos>, visited: set<Pos>)
    requires Line(order, queue, visited) && |queue| > 0
    ensures queue[0] in visited
    ensures Line(order + [queue[0]], queue[1..], visited)
  {
    assert (order + [queue[0]]) + queue[1..] == order + queue;
    assert queue == [queue[0]] + queue[1..];
    assert queue[0] in queue;
  }

  lemma BandPop(distance: map<Pos, nat>, order: seq<Pos>, queue: seq<Pos>, lo: nat)
    requires Band(distance, order, queue, lo) && |queue| > 0
    ensures queue[0] in distance
    ensures Band(distance, order + [queue[0]], queue[1..], distance[queue[0]])
  {
    var rest := queue[1..];
    assert forall i :: 0 <= i < |rest| ==> rest[i] == queue[i + 1];
  }

  lemma LinePush(order: seq<Pos>, queue: seq<Pos>, visited: set<Pos>, u: Pos)
    requires Line(order, queue, visited) && u !in visited
    ensures Line(order, queue + [u], visited + {u})
  {
    assert order + (queue + [u]) == (order + queue) + [u];
    assert u !in order + queue;
  }

  lemma BandPush(distance: map<Pos, nat>, order: seq<Pos>, queue: seq<Pos>, lo: nat, u: Pos, d: nat)
    requires Band(distance, order, queue, lo) && u !in distance && d == lo + 1
    ensures Band(distance[u := d], order, queue + [u], lo)
  {
  }

  lemma TreePush(g: Grid, s: Pos, order: seq<Pos>, visited: set<Pos>, distance: map<Pos, nat>, parent: map<Pos, Pos>,
                 current: Pos, u: Pos)
    requires Tree(g, s, order, visited, distance, parent)
    requires current in order && current in visited
    requires u !in visited && Passable(g, u) && Adjacent(current, u)
    ensures Tree(g, s, order, visited + {u}, distance[u := distance[current] + 1], parent[u := current])
  {
  }

  lemma ClosurePush(g: Grid, expanded: seq<Pos>, visited: set<Pos>, distance: map<Pos, nat>, u: Pos, d: nat)
    requires Closure(g, expanded, visited, distance)
    requires u !in visited && u !in distance
    ensures Closure(g, expanded, visited + {u}, distance[u := d])
  {
    forall v | v in expanded
      ensures ClosedAt(g, v, visited + {u}, distance[u := d])
    {
      assert ClosedAt(g, v, visited, distance);
    }
  }

  /** An undiscovered neighbour joins the queue one step further out. */
  lemma BfsEnqueue(g: Grid, s: Pos, expanded: seq<Pos>, current: Pos, lo: nat, queue: seq<Pos>, visited: set<Pos>,
                   distance: map<Pos, nat>, parent: map<Pos, Pos>, done: seq<Pos>, u: Pos)
    requires WellFormed(g) && Expanding(g, s, expanded, current, lo, queue, visited, distance, parent, done)
    requires u in Neighbors(g, current) && u !in visited
    ensures Passable(g, u) && u != current
    ensures Expanding(g, s, expanded, current, lo, queue + [u], visited + {u},
                      distance[u := distance[current] + 1], parent[u := current], done + [u])
  {
    assert current in visited;
    EnqueueTree(g, s, expanded, current, visited, distance, parent, u);
    EnqueueLine(expanded + [current], queue, visited, distance, lo, u);
    EnqueueFrontier(g, s, expanded, current, lo, queue, visited, distance, parent, done, u);
    ExpandingIntro(g, s, expanded, current, lo, queue + [u], visited + {u},
                   distance[u := distance[current] + 1], parent[u := current], done + [u]);
  }

  /** The part of `BfsEnqueue` about the parent tree. */
  lemma EnqueueTree(g: Grid, s: Pos, expanded: seq<Pos>, current: Pos, visited: set<Pos>,
                    distance: map<Pos, nat>, parent: map<Pos, Pos>, u: Pos)
    requires WellFormed(g) && Tree(g, s, expanded + [current], visited, distance, parent) && current in visited
    requires u in Neighbors(g, current) && u !in visited
    ensures Passable(g, u) && u != current
    ensures Tree(g, s, expanded + [current], visited + {u}, distance[u := distance[current] + 1], parent[u := current])
  {
    TreePush(g, s, expanded + [current], visited, distance, parent, current, u);
  }

  /** The part of `BfsEnqueue` about the queue and the distances. */
  lemma EnqueueLine(order: seq<Pos>, queue: seq<Pos>, visited: set<Pos>, distance: map<Pos, nat>, lo: nat, u: Pos)
    requires Line(order, queue, visited) && Band(distance, order, queue, lo)
    requires distance.Keys == visited && u !in visited
    ensures Line(order, queue + [u], visited + {u})
    ensures Band(distance[u := lo + 1], order, queue + [u], lo)
  {
    LinePush(order, queue, visited, u);
    BandPush(distance, order, queue, lo, u, lo + 1);
  }

  /** The parts of `BfsEnqueue` about expanded cells, examined neighbours and the head of the order. */
  lemma EnqueueFrontier(g: Grid, s: Pos, expanded: seq<Pos>, current: Pos, lo: nat, queue: seq<Pos>, visited: set<Pos>,
                        distance: map<Pos, nat>, parent: map<Pos, Pos>, done: seq<Pos>, u: Pos)
    requires WellFormed(g) && Expanding(g, s, expanded, current, lo, queue, visited, distance, parent, done)
    requires u !in visited
    ensures Closure(g, expanded, visited + {u}, distance[u := distance[current] + 1])
    ensures Done(visited + {u}, distance[u := distance[current] + 1], lo, done + [u])
    ensures Head(g, s, expanded, current, queue + [u], done + [u])
  {
    ClosurePush(g, expanded, visited, distance, u, distance[current] + 1);
    DonePush(visited, distance, lo, done, u, distance[current] + 1);
    HeadPush(g, s, expanded, current, queue, done, u);
  }

  lemma ExpandingIntro(g: Grid, s: Pos, expanded: seq<Pos>, current: Pos, lo: nat, queue: seq<Pos>,
                       visited: set<Pos>, distance: map<Pos, nat>, parent: map<Pos, Pos>, done: seq<Pos>)
    requires WellFormed(g)
    requires Tree(g, s, expanded + [current], visited, distance, parent)
    requires Line(expanded + [current], queue, visited)
    requires current in distance && distance[current] == lo
    requires Band(distance, expanded + [current], queue, lo)
    requires Closure(g, expanded, visited, distance)
    requires NoEndAmong(g, expanded)
    requires Done(visited, distance, lo, done)
    requires Head(g, s, expanded, current, queue, done)
    ensures Expanding(g, s, expanded, current, lo, queue, visited, distance, parent, done)
  {
  }

  /** An already discovered neighbour changes nothing. */
  lemma BfsSkip(g: Grid, s: Pos, expanded: seq<Pos>, current: Pos, lo: nat, queue: seq<Pos>, visited: set<Pos>,
                distance: map<Pos, nat>, parent: map<Pos, Pos>, done: seq<Pos>, u: Pos)
    requires WellFormed(g) && Expanding(g, s, expanded, current, lo, queue, visited, distance, parent, done)
    requires u in Neighbors(g, current) && u in visited && u !in done
    ensures Expanding(g, s, expanded, current, lo, queue, visited, distance, parent, done + [u])
  {
    DoneSkip(expanded + [current], queue, visited, distance, lo, done, u);
    HeadSkip(g, s, expanded, current, queue, visited, done, u);
  }

  lemma DonePush(visited: set<Pos>, distance: map<Pos, nat>, lo: nat, done: seq<Pos>, u: Pos, d: nat)
    requires Done(visited, distance, lo, done) && u !in distance && d == lo + 1
    ensures Done(visited + {u}, distance[u := d], lo, done + [u])
  {
  }

  lemma HeadPush(g: Grid, s: Pos, expanded: seq<Pos>, current: Pos, queue: seq<Pos>, done: seq<Pos>, u: Pos)
    requires WellFormed(g) && Head(g, s, expanded, current, queue, done)
    ensures Head(g, s, expanded, current, queue + [u], done + [u])
  {
    assert expanded + [current] + (queue + [u]) == (expanded + [current] + queue) + [u];
  }

  /** An already discovered neighbour is within one step of the band. */
  lemma DoneSkip(order: seq<Pos>, queue: seq<Pos>, visited: set<Pos>, distance: map<Pos, nat>, lo: nat,
                 done: seq<Pos>, u: Pos)
    requires Done(visited, distance, lo, done) && Line(order, queue, visited) && Band(distance, order, queue, lo)
    requires u in visited
    ensures Done(visited, distance, lo, done + [u])
  {
    if u !in order {
      var k :| 0 <= k < |queue| && queue[k] == u;
    }
  }

  /** While the start is expanded, its neighbours are all undiscovered. */
  lemma HeadSkip(g: Grid, s: Pos, expanded: seq<Pos>, current: Pos, queue: seq<Pos>, visited: set<Pos>,
                 done: seq<Pos>, u: Pos)
    requires WellFormed(g) && Head(g, s, expanded, current, queue, done)
    requires Line(expanded + [current], queue, visited)
    requires u in visited && u != current && u !in done
    ensures Head(g, s, expanded, current, queue, done + [u])
  {
    assert expanded == [] ==> u in [current] || u in queue;
  }

  /** After the last neighbour, `current` counts as expanded and the band moves to its distance. */
  lemma BfsExpanded(g: Grid, s: Pos, expanded: seq<Pos>, current: Pos, queue: seq<Pos>, visited: set<Pos>,
                    distance: map<Pos, nat>, parent: map<Pos, Pos>, neighbors: seq<Pos>)
    requires WellFormed(g) && current in distance
    requires Expanding(g, s, expanded, current, distance[current], queue, visited, distance, parent, neighbors)
    requires neighbors == Neighbors(g, current)
    requires Passable(g, current) && KindAt(g, current) != End
    ensures BfsState(g, s, expanded + [current], queue, visited, distance, parent, distance[current])
  {
    var order := expanded + [current];
    forall v | v in order
      ensures ClosedAt(g, v, visited, distance)
    {
      if v !in expanded {
        assert v == current;
        forall u | Passable(g, u) && Adjacent(v, u)
          ensures u in visited && u in distance && distance[u] <= distance[v] + 1
        {
          assert u in neighbors;
        }
      }
    }
    if expanded == [] {
      assert order + queue == [s] + Neighbors(g, s);
    }
  }

  /** `current` is an END: its parent chain is a walk no longer than any other. */
  lemma BfsFound(g: Grid, s: Pos, expanded: seq<Pos>, current: Pos, queue: seq<Pos>, visited: set<Pos>,
                 distance: map<Pos, nat>, parent: map<Pos, Pos>, path: seq<Pos>)
    requires WellFormed(g) && current in distance
    requires Expanding(g, s, expanded, current, distance[current], queue, visited, distance, parent, [])
    requires Passable(g, current) && KindAt(g, current) == End
    requires ChainTo(parent, path, current)
    ensures var r := AlgorithmResult(expanded + [current], path, true);
      Explores(g, s, r) && FewestSteps(g, s, r) && NeighboursFirst(g, s, r)
  {
    FoundOrder(g, s, expanded, current, queue, visited);
    FoundPath(g, s, expanded, current, queue, visited, distance, parent, path);
    ExploresFound(g, s, expanded + [current], path);
  }

  /** The parent chain of `current` is a walk from the start with no more cells than any other. */
  lemma FoundPath(g: Grid, s: Pos, expanded: seq<Pos>, current: Pos, queue: seq<Pos>, visited: set<Pos>,
                  distance: map<Pos, nat>, parent: map<Pos, Pos>, path: seq<Pos>)
    requires WellFormed(g) && current in distance
    requires Tree(g, s, expanded + [current], visited, distance, parent)
    requires Line(expanded + [current], queue, visited)
    requires Band(distance, expanded + [current], queue, distance[current])
    requires Closure(g, expanded, visited, distance)
    requires ChainTo(parent, path, current)
    ensures IsWalk(g, path) && path[0] == s && Last(path) == current
    ensures FewestSteps(g, s, AlgorithmResult(expanded + [current], path, true))
  {
    assert current in visited;
    LastNotInFront(expanded, current, queue);
    ChainIsWalk(g, s, parent, visited, path, current);
    ChainSteps(parent, distance, path, s);
    forall w | IsWalk(g, w) && w[0] == s && Last(w) == current
      ensures |path| <= |w|
    {
      BfsLowerBound(g, s, expanded, current, queue, visited, distance, w);
    }
  }

  lemma LastNotInFront(expanded: seq<Pos>, current: Pos, queue: seq<Pos>)
    requires Distinct(expanded + [current] + queue)
    ensures current !in expanded
  {
    var v := expanded + [current] + queue;
    forall k | 0 <= k < |expanded| ensures expanded[k] != current {
      assert v[k] == expanded[k] && v[|expanded|] == current;
    }
  }

  /** The visit order of a successful run: distinct, wall-free, breadth-first at the start. */
  lemma FoundOrder(g: Grid, s: Pos, expanded: seq<Pos>, current: Pos, queue: seq<Pos>, visited: set<Pos>)
    requires WellFormed(g) && Line(expanded + [current], queue, visited) && NoEndAmong(g, expanded)
    requires Passable(g, current)
    requires expanded == [] ==> current == s
    requires expanded != [] ==> expanded[0] == s && [s] + Neighbors(g, s) <= expanded + [current] + queue
    ensures var v := expanded + [current];
      && v[0] == s && Distinct(v)
      && (forall i :: 0 <= i < |v| ==> Passable(g, v[i]))
      && (forall i :: 0 <= i < |v| - 1 ==> KindAt(g, v[i]) != End)
      && NeighboursFirst(g, s, AlgorithmResult(v, [], false))
  {
    var v := expanded + [current];
    assert forall i :: 0 <= i < |v| ==> v[i] == (v + queue)[i];
    forall i | 0 <= i < |v| - 1
      ensures Passable(g, v[i]) && KindAt(g, v[i]) != End
    {
      assert v[i] in expanded;
    }
  }

  /** The queue ran dry: every reachable cell was expanded and no END among them. */
  lemma BfsExhausted(g: Grid, s: Pos, order: seq<Pos>, visited: set<Pos>,
                     distance: map<Pos, nat>, parent: map<Pos, Pos>, level: nat)
    requires WellFormed(g) && BfsState(g, s, order, [], visited, distance, parent, level)
    ensures var r := AlgorithmResult(order, [], false);
      Explores(g, s, r) && FewestSteps(g, s, r) && NeighboursFirst(g, s, r)
  {
    ExhaustedOrder(g, s, order, visited);
    ClosedOrder(g, order, visited, distance);
    ExhaustedSearchIsReachableSet(g, s, parent, distance, visited);
    ExploresExhausted(g, s, order);
  }

  /** The visit order of an exhausted run: distinct, wall-free, END-free, breadth-first at the start. */
  lemma ExhaustedOrder(g: Grid, s: Pos, order: seq<Pos>, visited: set<Pos>)
    requires WellFormed(g) && Line(order, [], visited) && NoEndAmong(g, order)
    requires order == [] ==> [] == [s]
    requires order != [] ==> order[0] == s && [s] + Neighbors(g, s) <= order + []
    ensures |order| >= 1 && order[0] == s && Distinct(order)
    ensures forall i :: 0 <= i < |order| ==> Passable(g, order[i]) && KindAt(g, order[i]) != End
    ensures forall p {:trigger p in visited} :: p in visited <==> p in order
    ensures NeighboursFirst(g, s, AlgorithmResult(order, [], false))
  {
    assert order + [] == order;
    forall i | 0 <= i < |order|
      ensures Passable(g, order[i]) && KindAt(g, order[i]) != End
    {
      assert order[i] in order;
    }
  }

  /** With nothing queued, every visited cell has been expanded, so the visited set is closed under steps. */
  lemma ClosedOrder(g: Grid, order: seq<Pos>, visited: set<Pos>, distance: map<Pos, nat>)
    requires Line(order, [], visited) && Closure(g, order, visited, distance)
    ensures ClosedUnderSteps(g, visited)
  {
    forall v, u | v in visited && Passable(g, u) && Adjacent(v, u)
      ensures u in visited
    {
      assert order + [] == order;
      assert ClosedAt(g, v, visited, distance);
    }
  }

  // ---------------------------------------------------------------------
  // Levels
  // ---------------------------------------------------------------------

  /** `c` is exactly `d` steps from the start: some walk takes that many and none takes fewer. */
  ghost predicate Settled(g: Grid, s: Pos, c: Pos, d: nat) {
    && WalkWithin(g, s, c, d + 1)
    && forall w :: IsWalk(g, w) && w[0] == s && Last(w) == c ==> d + 1 <= |w|
  }

  /**
   * `levels[i]` is the number of steps from the start to `order[i]`. The
   * levels never decrease along the order and none exceeds `level`, the
   * level of the cell dequeued last.
   */
  ghost predicate Levels(g: Grid, s: Pos, order: seq<Pos>, levels: seq<nat>, level: nat) {
    && |levels| == |order|
    && (forall i :: 0 <= i < |order| ==> levels[i] <= level && Settled(g, s, order[i], levels[i]))
    && (forall i, j :: 0 <= i < j < |order| ==> levels[i] <= levels[j])
  }

  /**
   * The head of the queue is `distance` steps from the start, no nearer
   * than the level of the cell dequeued before it.
   */
  lemma LevelAtPop(g: Grid, s: Pos, order: seq<Pos>, queue: seq<Pos>, visited: set<Pos>,
                   distance: map<Pos, nat>, parent: map<Pos, Pos>, level: nat)
    requires WellFormed(g) && BfsState(g, s, order, queue, visited, distance, parent, level)
    requires |queue| > 0
    ensures queue[0] in distance && level <= distance[queue[0]]
    ensures Settled(g, s, queue[0], distance[queue[0]])
  {
    var current, rest := queue[0], queue[1..];
    LinePop(order, queue, visited);
    LastNotInFront(order, current, rest);
    assert Ranked(parent, distance);
    var path := ParentChain(parent, distance, current);
    ChainIsWalk(g, s, parent, visited, path, current);
    ChainSteps(parent, distance, path, s);
    forall w | IsWalk(g, w) && w[0] == s && Last(w) == current
      ensures distance[current] + 1 <= |w|
    {
      forall i | 0 <= i < |rest| ensures distance[current] <= distance[rest[i]] {
        assert rest[i] == queue[i + 1];
      }
      BfsLowerBound(g, s, order, current, rest, visited, distance, w);
    }
  }

  /** Dequeuing the head of the queue records its level. */
  lemma LevelsAtPop(g: Grid, s: Pos, order: seq<Pos>, queue: seq<Pos>, visited: set<Pos>,
                    distance: map<Pos, nat>, parent: map<Pos, Pos>, level: nat, levels: seq<nat>)
    requires WellFormed(g) && BfsState(g, s, order, queue, visited, distance, parent, level)
    requires Levels(g, s, order, levels, level) && |queue| > 0
    ensures queue[0] in distance
    ensures Levels(g, s, order + [queue[0]], levels + [distance[queue[0]]], distance[queue[0]])
  {
    LevelAtPop(g, s, order, queue, visited, distance, parent, level);
    LevelsPop(g, s, order, levels, level, queue[0], distance[queue[0]]);
  }

  /** Dequeuing a cell that is `d` steps out, no nearer than `level`, extends the levels. */
  lemma LevelsPop(g: Grid, s: Pos, order: seq<Pos>, levels: seq<nat>, level: nat, c: Pos, d: nat)
    requires Levels(g, s, order, levels, level) && level <= d && Settled(g, s, c, d)
    ensures Levels(g, s, order + [c], levels + [d], d)
  {
    var v, l := order + [c], levels + [d];
    forall i | 0 <= i < |v| ensures l[i] <= d && Settled(g, s, v[i], l[i]) {
      if i < |order| {
        assert v[i] == order[i] && l[i] == levels[i];
      }
    }
  }

  /** Levels that never decrease along the visit order make it level by level. */
  lemma LevelsInOrder(g: Grid, s: Pos, order: seq<Pos>, levels: seq<nat>, level: nat, r: AlgorithmResult)
    requires Levels(g, s, order, levels, level) && r.visitedNodesInOrder == order
    ensures LevelOrder(g, s, r)
  {
    forall i, j, w | 0 <= i < j < |order| && IsWalk(g, w) && w[0] == s && Last(w) == order[j]
      ensures WalkWithin(g, s, order[i], |w|)
    {
      assert Settled(g, s, order[i], levels[i]) && Settled(g, s, order[j], levels[j]);
      var u :| IsWalk(g, u) && u[0] == s && Last(u) == order[i] && |u| <= levels[i] + 1;
    }
  }

  // ---------------------------------------------------------------------
  // Shortest paths
  // ---------------------------------------------------------------------

  /** Along the parent chain, the recorded distance is the position in the chain. */
  lemma ChainSteps(parent: map<Pos, Pos>, distance: map<Pos, nat>, path: seq<Pos>, s: Pos)
    requires |path| >= 1 && ChainTo(parent, path, Last(path)) && path[0] == s
    requires s in distance && distance[s] == 0
    requires forall c :: c in parent ==> c in distance && parent[c] in distance && distance[c] == distance[parent[c]] + 1
    ensures distance[Last(path)] == |path| - 1
  {
    ChainStepsAt(parent, distance, path, s, |path| - 1);
  }

  lemma {:induction false} ChainStepsAt(parent: map<Pos, Pos>, distance: map<Pos, nat>, path: seq<Pos>, s: Pos, i: nat)
    requires |path| >= 1 && ChainTo(parent, path, Last(path)) && path[0] == s
    requires s in distance && distance[s] == 0
    requires forall c :: c in parent ==> c in distance && parent[c] in distance && distance[c] == distance[parent[c]] + 1
    requires i < |path|
    ensures path[i] in distance && distance[path[i]] == i
  {
    if i > 0 {
      ChainStepsAt(parent, distance, path, s, i - 1);
    }
  }

  /**
   * When `current` leaves the queue, no walk from the start reaches it in
   * fewer than `distance[current]` steps: every cell a shorter walk passes
   * through would already have been expanded.
   */
  lemma BfsLowerBound(g: Grid, s: Pos, expanded: seq<Pos>, current: Pos, queue: seq<Pos>,
                      visited: set<Pos>, distance: map<Pos, nat>, w: seq<Pos>)
    requires WellFormed(g)
    requires distance.Keys == visited && s in visited && distance[s] == 0
    requires forall p {:trigger p in visited} :: p in visited <==> p in expanded + [current] || p in queue
    requires current !in expanded
    requires forall v :: v in expanded ==> ClosedAt(g, v, visited, distance)
    requires forall i :: 0 <= i < |queue| ==> distance[current] <= distance[queue[i]]
    requires IsWalk(g, w) && w[0] == s && Last(w) == current
    ensures distance[current] <= |w| - 1
  {
    if |w| - 1 < distance[current] {
      BfsShortWalkExpanded(g, s, expanded, current, queue, visited, distance, w, |w| - 1);
    }
  }

  lemma {:induction false} BfsShortWalkExpanded(g: Grid, s: Pos, expanded: seq<Pos>, current: Pos, queue: seq<Pos>,
                                                visited: set<Pos>, distance: map<Pos, nat>, w: seq<Pos>, j: nat)
    requires WellFormed(g)
    requires distance.Keys == visited && s in visited && distance[s] == 0
    requires forall p {:trigger p in visited} :: p in visited <==> p in expanded + [current] || p in queue
    requires forall v :: v in expanded ==> ClosedAt(g, v, visited, distance)
    requires forall i :: 0 <= i < |queue| ==> distance[current] <= distance[queue[i]]
    requires IsWalk(g, w) && w[0] == s
    requires j < |w| && j < distance[current]
    ensures w[j] in expanded && distance[w[j]] <= j
  {
    if j > 0 {
      BfsShortWalkExpanded(g, s, expanded, current, queue, visited, distance, w, j - 1);
      assert ClosedAt(g, w[j - 1], visited, distance);
      assert Adjacent(w[j - 1], w[j]);
    }
  }
}
