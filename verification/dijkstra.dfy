/**
 * Dijkstra's algorithm: a queue of (cell, distance) entries kept sorted by
 * distance, stale entries skipped when they reach the head, a neighbour's
 * distance lowered only when the new one is strictly smaller.
 */
module DijkstraSearch {
  import opened Types
  import opened GridModel
  import opened SearchUtils
  import opened SearchSpec
  import opened WeightedTrees
  import opened PriorityQueues

  /**
   * `dijkstra`. The per-cell fields of the original (`isVisited`,
   * `distance`, `parent`) are the set `visited` and the maps `dist` and
   * `parent`; a cell missing from `dist` has distance `Infinity`.
   */
  method Dijkstra(grid: Grid) returns (result: AlgorithmResult)
    requires WellFormed(grid)
    ensures DijkstraContract(grid, result)
  {
    var clonedGrid := CloneGrid(grid);
    var start, end := FindStartAndEnd(clonedGrid);
    SameLayoutEndpoints(grid, clonedGrid);
    if start.None? || end.None? {
      return NoResult;
    }
    result := SearchFrom(grid, clonedGrid, start.value);
  }

  /** The queue loop of `dijkstra`, from the start cell `s` of the copy `clonedGrid` of `grid`. */
  method SearchFrom(ghost grid: Grid, clonedGrid: Grid, s: Pos) returns (result: AlgorithmResult)
    requires WellFormed(grid) && WellFormed(clonedGrid) && SameLayout(grid, clonedGrid)
    requires Passable(grid, s)
    ensures Explores(grid, s, result) && Cheapest(grid, s, result) && CostOrder(grid, s, result)
  {
    var visitedNodesInOrder: seq<Pos> := [];
    var visited: set<Pos> := {};
    var parent: map<Pos, Pos> := map[];
    var pq := new PriorityQueue();
    var dist: map<Pos, nat> := map[s := 0];
    pq.Enqueue(s, 0);
    ghost var level: nat := 0;
    ghost var g := grid;
    ghost var cells := RectCells(|g|, Cols(g));
    DijkstraStart(g, s);

    while !pq.IsEmpty()
      invariant DijkstraState(g, s, visitedNodesInOrder, pq.items, visited, dist, parent, level)
      invariant visited <= cells
      decreases |cells - visited|, |pq.items|
    {
      ghost var items := pq.items;
      var node := pq.Dequeue();
      var current := node.value;
      if current in visited {
        DijkstraSkip(g, s, visitedNodesInOrder, items, visited, dist, parent, level);
        continue;
      }
      ghost var expanded := visitedNodesInOrder;
      DijkstraPop(g, clonedGrid, s, expanded, items, visited, dist, parent, level);
      level := items[0].priority;
      visited := visited + {current};
      visitedNodesInOrder := visitedNodesInOrder + [current];

      if At(clonedGrid, current).nodeType == End {
        var path := ReconstructPath(parent, current, dist);
        result := AlgorithmResult(visitedNodesInOrder, path, true);
        DijkstraFound(g, s, expanded, current, pq.items, visited, dist, parent, path);
        return;
      }

      dist, parent := RelaxNeighbors(g, s, expanded, current, clonedGrid, pq, visited, dist, parent);
    }

    result := AlgorithmResult(visitedNodesInOrder, [], false);
    DijkstraExhausted(g, s, visitedNodesInOrder, visited, dist, parent, level);
  }

  /**
   * The neighbour loop of `dijkstra`: a neighbour not yet visited whose
   * distance through `current` is strictly smaller than its own gets that
   * distance and `current` as parent, and is queued with that distance.
   */
  method RelaxNeighbors(ghost g: Grid, ghost s: Pos, ghost expanded: seq<Pos>, current: Pos,
                        clonedGrid: Grid, pq: PriorityQueue, visited: set<Pos>,
                        dist0: map<Pos, nat>, parent0: map<Pos, Pos>)
    returns (dist: map<Pos, nat>, parent: map<Pos, Pos>)
    requires WellFormed(g) && WellFormed(clonedGrid) && SameLayout(g, clonedGrid)
    requires current in dist0 && Relaxing(g, s, expanded, current, dist0[current], pq.items, visited, dist0, parent0, [])
    requires Passable(g, current) && KindAt(g, current) != End
    modifies pq
    ensures DijkstraState(g, s, expanded + [current], pq.items, visited, dist, parent, dist0[current])
  {
    dist, parent := dist0, parent0;
    ghost var lo := dist0[current];
    var neighbors := GetNeighbors(clonedGrid, current);
    SameLayoutNeighbors(g, clonedGrid, current);
    for i := 0 to |neighbors|
      invariant Relaxing(g, s, expanded, current, lo, pq.items, visited, dist, parent, neighbors[..i])
    {
      var neighbor := neighbors[i];
      TakeOneMore(neighbors, i);
      assert neighbor in neighbors;
      dist, parent := Relax(g, s, expanded, current, lo, neighbors[..i], neighbor, clonedGrid, pq, visited, dist, parent);
    }
    TakeAll(neighbors);
    DijkstraExpanded(g, s, expanded, current, pq.items, visited, dist, parent, neighbors);
  }

  /**
   * One neighbour of `current`: if it is not visited and the distance
   * through `current` is strictly smaller than its own, it takes that
   * distance and `current` as parent and is queued with that distance.
   */
  method Relax(ghost g: Grid, ghost s: Pos, ghost expanded: seq<Pos>, current: Pos, ghost lo: nat, ghost done: seq<Pos>,
               neighbor: Pos, clonedGrid: Grid, pq: PriorityQueue, visited: set<Pos>,
               dist0: map<Pos, nat>, parent0: map<Pos, Pos>)
    returns (dist: map<Pos, nat>, parent: map<Pos, Pos>)
    requires WellFormed(g) && SameLayout(g, clonedGrid) && neighbor in Neighbors(g, current)
    requires Relaxing(g, s, expanded, current, lo, pq.items, visited, dist0, parent0, done)
    modifies pq
    ensures Relaxing(g, s, expanded, current, lo, pq.items, visited, dist, parent, done + [neighbor])
    ensures var d := dist0[current] + TerrainAt(g, neighbor);
      if neighbor in visited || (neighbor in dist0 && dist0[neighbor] <= d)
      then dist == dist0 && parent == parent0 && pq.items == old(pq.items)
      else && dist == dist0[neighbor := d] && parent == parent0[neighbor := current]
           && pq.items == SortBy(old(pq.items) + [Entry(neighbor, d)], PriorityKey)
  {
    dist, parent := dist0, parent0;
    if neighbor !in visited {
      SameLayoutCell(g, clonedGrid, neighbor);
      var weight := At(clonedGrid, neighbor).terrain;
      var newDistance := dist[current] + weight;
      if neighbor !in dist || newDistance < dist[neighbor] {
        DijkstraRelax(g, s, expanded, current, lo, pq.items, visited, dist, parent, done, neighbor, newDistance);
        dist := dist[neighbor := newDistance];
        parent := parent[neighbor := current];
        pq.Enqueue(neighbor, newDistance);
      } else {
        DijkstraKeep(g, s, expanded, current, lo, pq.items, visited, dist, parent, done, neighbor);
      }
    } else {
      DijkstraKeep(g, s, expanded, current, lo, pq.items, visited, dist, parent, done, neighbor);
    }
  }

  // ---------------------------------------------------------------------
  // The loop invariant and its steps
  // ---------------------------------------------------------------------

  /**
   * The queue is sorted; no entry is below the level `lo` or below its
   * cell's distance; every cell with a distance but not visited is queued
   * with that distance; every visited cell is at most `lo` away.
   */
  ghost predicate Queue(items: seq<Entry>, visited: set<Pos>, dist: map<Pos, nat>, lo: nat) {
    && SortedBy(items, PriorityKey)
    && (forall i :: 0 <= i < |items| ==>
          items[i].node in dist && dist[items[i].node] <= items[i].priority && lo <= items[i].priority)
    && (forall x :: x in dist && x !in visited ==> Entry(x, dist[x]) in items)
    && (forall v :: v in visited ==> v in dist && dist[v] <= lo)
  }

  /** Every passable neighbour `u` of `v` has a distance at most `v`'s plus the terrain of `u`. */
  ghost predicate ClosedAt(g: Grid, v: Pos, dist: map<Pos, nat>) {
    v in dist && forall u :: Passable(g, u) && Adjacent(v, u) ==> u in dist && dist[u] <= dist[v] + TerrainAt(g, u)
  }

  /** Every expanded cell has relaxed all its neighbours. */
  ghost predicate Closure(g: Grid, expanded: seq<Pos>, dist: map<Pos, nat>) {
    forall v :: v in expanded ==> ClosedAt(g, v, dist)
  }

  /** The state between two dequeues; `order` is `visitedNodesInOrder`. */
  ghost predicate DijkstraState(g: Grid, s: Pos, order: seq<Pos>, items: seq<Entry>, visited: set<Pos>,
                                dist: map<Pos, nat>, parent: map<Pos, Pos>, lo: nat)
  {
    && CostTree(g, s, visited, dist, parent)
    && VisitOrder(order, visited, dist)
    && Queue(items, visited, dist, lo)
    && Ascending(order, dist)
    && Closure(g, order, dist)
    && NoEndAmong(g, order)
    && (order == [] ==> items == [Entry(s, 0)])
    && (order != [] ==> order[0] == s)
  }

  /**
   * The state while the neighbours of `current` are relaxed, `done` being
   * those already examined.
   */
  ghost predicate Relaxing(g: Grid, s: Pos, expanded: seq<Pos>, current: Pos, lo: nat, items: seq<Entry>,
                           visited: set<Pos>, dist: map<Pos, nat>, parent: map<Pos, Pos>, done: seq<Pos>)
  {
    var order := expanded + [current];
    && CostTree(g, s, visited, dist, parent)
    && VisitOrder(order, visited, dist)
    && Queue(items, visited, dist, lo)
    && current in dist && dist[current] == lo
    && Ascending(order, dist)
    && Closure(g, expanded, dist)
    && NoEndAmong(g, expanded)
    && order[0] == s
    && Done(g, dist, lo, done)
  }

  /** Every examined neighbour has a distance at most `lo` plus its terrain. */
  ghost predicate Done(g: Grid, dist: map<Pos, nat>, lo: nat, done: seq<Pos>) {
    forall u :: u in done ==> Passable(g, u) && u in dist && dist[u] <= lo + TerrainAt(g, u)
  }

  lemma DijkstraStart(g: Grid, s: Pos)
    requires Passable(g, s)
    ensures DijkstraState(g, s, [], [Entry(s, 0)], {}, map[s := 0], map[], 0)
  {
  }

  /** A head whose cell is already visited is a stale entry: dropping it changes nothing else. */
  lemma DijkstraSkip(g: Grid, s: Pos, order: seq<Pos>, items: seq<Entry>, visited: set<Pos>,
                     dist: map<Pos, nat>, parent: map<Pos, Pos>, lo: nat)
    requires DijkstraState(g, s, order, items, visited, dist, parent, lo)
    requires |items| > 0 && items[0].node in visited
    ensures DijkstraState(g, s, order, items[1..], visited, dist, parent, lo)
  {
    QueueSkip(items, visited, dist, lo);
  }

  lemma QueueSkip(items: seq<Entry>, visited: set<Pos>, dist: map<Pos, nat>, lo: nat)
    requires Queue(items, visited, dist, lo)
    requires |items| > 0 && items[0].node in visited
    ensures Queue(items[1..], visited, dist, lo)
  {
    var rest := items[1..];
    assert forall i :: 0 <= i < |rest| ==> rest[i] == items[i + 1];
    forall x | x in dist && x !in visited
      ensures Entry(x, dist[x]) in rest
    {
      InTail(items, Entry(x, dist[x]));
    }
  }

  /**
   * A head whose cell is not visited carries that cell's final distance:
   * it is the smallest in the queue, and the level rises to it.
   */
  lemma DijkstraPop(g: Grid, h: Grid, s: Pos, order: seq<Pos>, items: seq<Entry>, visited: set<Pos>,
                    dist: map<Pos, nat>, parent: map<Pos, Pos>, lo: nat)
    requires WellFormed(g) && SameLayout(g, h)
    requires DijkstraState(g, s, order, items, visited, dist, parent, lo)
    requires |items| > 0 && items[0].node !in visited && visited <= RectCells(|g|, Cols(g))
    ensures Passable(g, items[0].node) && items[0].node in dist && Ranked(parent, dist)
    ensures InBounds(h, items[0].node) && KindAt(h, items[0].node) == KindAt(g, items[0].node)
    ensures visited + {items[0].node} <= RectCells(|g|, Cols(g))
    ensures |RectCells(|g|, Cols(g)) - (visited + {items[0].node})| < |RectCells(|g|, Cols(g)) - visited|
    ensures Relaxing(g, s, order, items[0].node, items[0].priority, items[1..], visited + {items[0].node},
                     dist, parent, [])
  {
    PopState(g, s, order, items, visited, dist, parent, lo);
    GrowWithinGrid(g, visited, items[0].node);
    SameLayoutCell(g, h, items[0].node);
  }

  lemma PopState(g: Grid, s: Pos, order: seq<Pos>, items: seq<Entry>, visited: set<Pos>,
                 dist: map<Pos, nat>, parent: map<Pos, Pos>, lo: nat)
    requires DijkstraState(g, s, order, items, visited, dist, parent, lo)
    requires |items| > 0 && items[0].node !in visited
    ensures Passable(g, items[0].node) && items[0].node in dist && Ranked(parent, dist)
    ensures Relaxing(g, s, order, items[0].node, items[0].priority, items[1..], visited + {items[0].node},
                     dist, parent, [])
  {
    QueuePop(items, visited, dist, lo);
    CostTreeRanked(g, s, visited, dist, parent);
    assert lo <= items[0].priority;
    AscendingPush(order, dist, lo, items[0].node);
  }

  /** The head is the smallest entry; its cell's distance is the head's priority. */
  lemma QueuePop(items: seq<Entry>, visited: set<Pos>, dist: map<Pos, nat>, lo: nat)
    requires Queue(items, visited, dist, lo)
    requires |items| > 0 && items[0].node !in visited
    ensures items[0].node in dist && dist[items[0].node] == items[0].priority
    ensures Queue(items[1..], visited + {items[0].node}, dist, items[0].priority)
  {
    var current, p := items[0].node, items[0].priority;
    var rest := items[1..];
    assert forall i :: 0 <= i < |rest| ==> rest[i] == items[i + 1];
    assert Entry(current, dist[current]) in items;
    var k :| 0 <= k < |items| && items[k] == Entry(current, dist[current]);
    assert KeyLe(PriorityKey(items[0]), PriorityKey(items[k]));
    forall i | 0 <= i < |rest| ensures p <= rest[i].priority {
      assert KeyLe(PriorityKey(items[0]), PriorityKey(items[i + 1]));
    }
    forall x | x in dist && x !in visited + {current}
      ensures Entry(x, dist[x]) in rest
    {
      InTail(items, Entry(x, dist[x]));
    }
  }

  /** A strictly shorter distance through `current`: the neighbour's entry is replaced by a new one. */
  lemma DijkstraRelax(g: Grid, s: Pos, expanded: seq<Pos>, current: Pos, lo: nat, items: seq<Entry>,
                      visited: set<Pos>, dist: map<Pos, nat>, parent: map<Pos, Pos>, done: seq<Pos>,
                      u: Pos, d: nat)
    requires WellFormed(g) && Relaxing(g, s, expanded, current, lo, items, visited, dist, parent, done)
    requires u in Neighbors(g, current) && u !in visited
    requires d == dist[current] + TerrainAt(g, u)
    requires u !in dist || d < dist[u]
    ensures Relaxing(g, s, expanded, current, lo, Insert(items, Entry(u, d), PriorityKey), visited,
                     dist[u := d], parent[u := current], done + [u])
  {
    assert current in visited && s in visited;
    CostTreeRelax(g, s, current, visited, dist, parent, u, d);
    QueueRelax(items, visited, dist, lo, u, d);
    AscendingRelax(expanded + [current], dist, u, d);
    ClosureRelax(g, expanded, dist, u, d);
    DoneRelax(g, dist, lo, done, u, d);
  }

  lemma DoneRelax(g: Grid, dist: map<Pos, nat>, lo: nat, done: seq<Pos>, u: Pos, d: nat)
    requires Done(g, dist, lo, done) && Passable(g, u) && d <= lo + TerrainAt(g, u)
    requires u !in dist || d < dist[u]
    ensures Done(g, dist[u := d], lo, done + [u])
  {
  }

  lemma QueueRelax(items: seq<Entry>, visited: set<Pos>, dist: map<Pos, nat>, lo: nat, u: Pos, d: nat)
    requires Queue(items, visited, dist, lo)
    requires u !in visited && lo <= d && (u !in dist || d < dist[u])
    ensures Queue(Insert(items, Entry(u, d), PriorityKey), visited, dist[u := d], lo)
  {
    var r := Insert(items, Entry(u, d), PriorityKey);
    InsertSorted(items, Entry(u, d), PriorityKey);
    InsertMembers(items, Entry(u, d), PriorityKey);
    forall i | 0 <= i < |r|
      ensures r[i].node in dist[u := d] && dist[u := d][r[i].node] <= r[i].priority && lo <= r[i].priority
    {
      assert r[i] in r;
    }
    forall x | x in dist[u := d] && x !in visited
      ensures Entry(x, dist[u := d][x]) in r
    {
      if x != u {
        assert Entry(x, dist[x]) in items;
      }
    }
  }

  lemma ClosureRelax(g: Grid, expanded: seq<Pos>, dist: map<Pos, nat>, u: Pos, d: nat)
    requires Closure(g, expanded, dist) && u !in expanded
    requires u !in dist || d < dist[u]
    ensures Closure(g, expanded, dist[u := d])
  {
    forall v | v in expanded
      ensures ClosedAt(g, v, dist[u := d])
    {
      assert ClosedAt(g, v, dist);
    }
  }

  /** A neighbour already visited, or with a distance no larger: nothing changes. */
  lemma DijkstraKeep(g: Grid, s: Pos, expanded: seq<Pos>, current: Pos, lo: nat, items: seq<Entry>,
                     visited: set<Pos>, dist: map<Pos, nat>, parent: map<Pos, Pos>, done: seq<Pos>, u: Pos)
    requires WellFormed(g) && Relaxing(g, s, expanded, current, lo, items, visited, dist, parent, done)
    requires u in Neighbors(g, current)
    requires u in visited || (u in dist && dist[u] <= dist[current] + TerrainAt(g, u))
    ensures Relaxing(g, s, expanded, current, lo, items, visited, dist, parent, done + [u])
  {
  }

  /** After the last neighbour, `current` counts as expanded. */
  lemma DijkstraExpanded(g: Grid, s: Pos, expanded: seq<Pos>, current: Pos, items: seq<Entry>, visited: set<Pos>,
                         dist: map<Pos, nat>, parent: map<Pos, Pos>, neighbors: seq<Pos>)
    requires WellFormed(g) && current in dist
    requires Relaxing(g, s, expanded, current, dist[current], items, visited, dist, parent, neighbors)
    requires neighbors == Neighbors(g, current)
    requires Passable(g, current) && KindAt(g, current) != End
    ensures DijkstraState(g, s, expanded + [current], items, visited, dist, parent, dist[current])
  {
    var order := expanded + [current];
    forall v | v in order
      ensures ClosedAt(g, v, dist)
    {
      if v !in expanded {
        assert v == current;
        forall u | Passable(g, u) && Adjacent(v, u)
          ensures u in dist && dist[u] <= dist[v] + TerrainAt(g, u)
        {
          assert u in neighbors;
        }
      }
    }
  }

  // ---------------------------------------------------------------------
  // The two ways out
  // ---------------------------------------------------------------------

  /** `current` is an END: its parent chain is a walk that no other walk undercuts. */
  lemma DijkstraFound(g: Grid, s: Pos, expanded: seq<Pos>, current: Pos, items: seq<Entry>, visited: set<Pos>,
                      dist: map<Pos, nat>, parent: map<Pos, Pos>, path: seq<Pos>)
    requires current in dist
    requires Relaxing(g, s, expanded, current, dist[current], items, visited, dist, parent, [])
    requires Passable(g, current) && KindAt(g, current) == End
    requires ChainTo(parent, path, current)
    ensures var r := AlgorithmResult(expanded + [current], path, true);
      Explores(g, s, r) && Cheapest(g, s, r) && CostOrder(g, s, r)
  {
    FoundOrder(g, s, expanded, current, visited, dist);
    FoundPath(g, s, expanded, current, items, visited, dist, parent, path);
    ExploresFound(g, s, expanded + [current], path);
    FoundSettled(g, s, expanded, current, items, visited, dist, parent);
    CostOrderFrom(g, s, visited, dist, parent, expanded + [current], AlgorithmResult(expanded + [current], path, true));
  }

  lemma FoundOrder(g: Grid, s: Pos, expanded: seq<Pos>, current: Pos, visited: set<Pos>, dist: map<Pos, nat>)
    requires VisitOrder(expanded + [current], visited, dist) && (expanded + [current])[0] == s
    requires NoEndAmong(g, expanded)
    requires Passable(g, current) && KindAt(g, current) == End
    ensures var v := expanded + [current];
      && |v| >= 1 && v[0] == s && Distinct(v)
      && (forall i :: 0 <= i < |v| ==> Passable(g, v[i]))
      && (forall i :: 0 <= i < |v| - 1 ==> KindAt(g, v[i]) != End)
      && KindAt(g, Last(v)) == End
  {
    var v := expanded + [current];
    forall i | 0 <= i < |v| - 1 ensures Passable(g, v[i]) && KindAt(g, v[i]) != End {
      assert v[i] in expanded;
    }
  }

  /** The parent chain of `current` is a walk from the start costing `dist[current]`, which no walk undercuts. */
  lemma FoundPath(g: Grid, s: Pos, expanded: seq<Pos>, current: Pos, items: seq<Entry>, visited: set<Pos>,
                  dist: map<Pos, nat>, parent: map<Pos, Pos>, path: seq<Pos>)
    requires current in dist
    requires Relaxing(g, s, expanded, current, dist[current], items, visited, dist, parent, [])
    requires ChainTo(parent, path, current)
    ensures IsWalk(g, path) && path[0] == s && Last(path) == current
    ensures Cheapest(g, s, AlgorithmResult(expanded + [current], path, true))
  {
    ChainIsWalk(g, s, parent, dist.Keys, path, current);
    ChainCost(g, s, visited, dist, parent, path, current);
    FoundSettled(g, s, expanded, current, items, visited, dist, parent);
  }

  /** Stopping at `current`: no walk from the start undercuts the distance of a visited cell. */
  lemma FoundSettled(g: Grid, s: Pos, expanded: seq<Pos>, current: Pos, items: seq<Entry>, visited: set<Pos>,
                     dist: map<Pos, nat>, parent: map<Pos, Pos>)
    requires current in dist
    requires Relaxing(g, s, expanded, current, dist[current], items, visited, dist, parent, [])
    ensures Settled(g, s, expanded + [current], dist)
  {
    var order := expanded + [current];
    if expanded != [] {
      var lo := dist[current];
      LastNotInFront(expanded, current);
      forall x | x in dist && x !in expanded ensures lo <= dist[x] {
        if x != current {
          assert x !in visited;
          var k :| 0 <= k < |items| && items[k] == Entry(x, dist[x]);
        }
      }
      forall w | IsWalk(g, w) && w[0] == s && Last(w) in order
        ensures Last(w) in dist && dist[Last(w)] <= Cost(g, w)
      {
        WalkCostBound(g, s, expanded, dist, lo, w);
      }
    }
  }

  lemma LastNotInFront(expanded: seq<Pos>, current: Pos)
    requires Distinct(expanded + [current])
    ensures current !in expanded
  {
    var v := expanded + [current];
    forall k | 0 <= k < |expanded| ensures expanded[k] != current {
      assert v[k] == expanded[k] && v[|expanded|] == current;
    }
  }

  /**
   * With every expanded cell closed, expanded cells at most `lo` away and
   * every other cell with a distance at least `lo` away, a walk from `s`
   * costs at least the distance of an expanded cell it ends at, and at
   * least `lo` when it ends anywhere else.
   */
  lemma {:induction false} WalkCostBound(g: Grid, s: Pos, expanded: seq<Pos>, dist: map<Pos, nat>, lo: nat,
                                         w: seq<Pos>)
    requires IsWalk(g, w) && w[0] == s && s in expanded && s in dist && dist[s] == 0
    requires Closure(g, expanded, dist)
    requires forall v :: v in expanded ==> v in dist && dist[v] <= lo
    requires forall x :: x in dist && x !in expanded ==> lo <= dist[x]
    ensures Last(w) in expanded ==> dist[Last(w)] <= Cost(g, w)
    ensures Last(w) !in expanded ==> lo <= Cost(g, w)
    decreases |w|
  {
    if |w| > 1 {
      var front := w[..|w| - 1];
      WalkPrefix(g, w, |w| - 1);
      WalkCostBound(g, s, expanded, dist, lo, front);
      var p, t := Last(front), Last(w);
      assert Adjacent(w[|w| - 2], w[|w| - 1]);
      if p in expanded {
        assert ClosedAt(g, p, dist);
      }
    }
  }

  /** The queue ran dry: the visit order is exactly the cells reachable from the start. */
  lemma DijkstraExhausted(g: Grid, s: Pos, order: seq<Pos>, visited: set<Pos>, dist: map<Pos, nat>,
                          parent: map<Pos, Pos>, lo: nat)
    requires DijkstraState(g, s, order, [], visited, dist, parent, lo)
    ensures Explores(g, s, AlgorithmResult(order, [], false)) && CostOrder(g, s, AlgorithmResult(order, [], false))
  {
    ExhaustedOrder(g, s, order, visited, dist, lo);
    ExhaustedReach(g, s, order, visited, dist, parent, lo);
    ExploresExhausted(g, s, order);
    ExhaustedSettled(g, s, order, visited, dist, parent, lo);
    CostOrderFrom(g, s, visited, dist, parent, order, AlgorithmResult(order, [], false));
  }

  /** The queue ran dry: no walk from the start undercuts the distance of a visited cell. */
  lemma ExhaustedSettled(g: Grid, s: Pos, order: seq<Pos>, visited: set<Pos>, dist: map<Pos, nat>,
                         parent: map<Pos, Pos>, lo: nat)
    requires DijkstraState(g, s, order, [], visited, dist, parent, lo)
    ensures Settled(g, s, order, dist)
  {
    assert order != [] && order[0] == s;
    assert dist.Keys == visited;
    forall w | IsWalk(g, w) && w[0] == s && Last(w) in order
      ensures Last(w) in dist && dist[Last(w)] <= Cost(g, w)
    {
      WalkCostBound(g, s, order, dist, lo, w);
    }
  }

  // ---------------------------------------------------------------------
  // The visit order
  // ---------------------------------------------------------------------

  /** Distances never decrease along the visit order. */
  ghost predicate Ascending(order: seq<Pos>, dist: map<Pos, nat>) {
    forall i, j :: 0 <= i < j < |order| && order[i] in dist && order[j] in dist ==> dist[order[i]] <= dist[order[j]]
  }

  /** No walk from the start to a cell of `order` costs less than that cell's distance. */
  ghost predicate Settled(g: Grid, s: Pos, order: seq<Pos>, dist: map<Pos, nat>) {
    forall w :: IsWalk(g, w) && w[0] == s && Last(w) in order ==> Last(w) in dist && dist[Last(w)] <= Cost(g, w)
  }

  /** Dequeuing a cell at or above every distance visited so far keeps the order ascending. */
  lemma AscendingPush(order: seq<Pos>, dist: map<Pos, nat>, lo: nat, c: Pos)
    requires Ascending(order, dist)
    requires forall v :: v in order ==> v in dist && dist[v] <= lo
    requires c in dist && lo <= dist[c]
    ensures Ascending(order + [c], dist)
  {
    var v := order + [c];
    forall i, j | 0 <= i < j < |v| && v[i] in dist && v[j] in dist
      ensures dist[v[i]] <= dist[v[j]]
    {
      assert v[i] in order;
      if j < |order| {
        assert v[i] == order[i] && v[j] == order[j];
      }
    }
  }

  /** Relaxing a cell that is not yet visited keeps the distances of the visit order. */
  lemma AscendingRelax(order: seq<Pos>, dist: map<Pos, nat>, u: Pos, d: nat)
    requires Ascending(order, dist) && u !in order
    ensures Ascending(order, dist[u := d])
  {
    forall i, j | 0 <= i < j < |order| && order[i] in dist[u := d] && order[j] in dist[u := d]
      ensures dist[u := d][order[i]] <= dist[u := d][order[j]]
    {
      assert order[i] in order && order[j] in order;
    }
  }

  /**
   * Cells visited in ascending order of distance, none reachable more
   * cheaply than its distance, are visited in order of their cost from
   * the start: the parent chain of an earlier cell is a walk costing no
   * more than any walk to a later one.
   */
  lemma CostOrderFrom(g: Grid, s: Pos, visited: set<Pos>, dist: map<Pos, nat>, parent: map<Pos, Pos>,
                      order: seq<Pos>, r: AlgorithmResult)
    requires CostTree(g, s, visited, dist, parent)
    requires forall v :: v in order ==> v in dist
    requires Ascending(order, dist) && Settled(g, s, order, dist)
    requires r.visitedNodesInOrder == order
    ensures CostOrder(g, s, r)
  {
    CostTreeRanked(g, s, visited, dist, parent);
    forall i, j, w | 0 <= i < j < |order| && IsWalk(g, w) && w[0] == s && Last(w) == order[j]
      ensures WalkCostWithin(g, s, order[i], Cost(g, w))
    {
      var c := order[i];
      assert c in order && order[j] in order;
      var path := ParentChain(parent, dist, c);
      ChainIsWalk(g, s, parent, dist.Keys, path, c);
      ChainCost(g, s, visited, dist, parent, path, c);
    }
  }

  lemma ExhaustedOrder(g: Grid, s: Pos, order: seq<Pos>, visited: set<Pos>, dist: map<Pos, nat>, lo: nat)
    requires VisitOrder(order, visited, dist) && NoEndAmong(g, order) && order != [] && order[0] == s
    ensures && |order| >= 1 && order[0] == s && Distinct(order)
            && (forall i :: 0 <= i < |order| ==> Passable(g, order[i]))
            && (forall i :: 0 <= i < |order| ==> KindAt(g, order[i]) != End)
  {
    forall i | 0 <= i < |order| ensures Passable(g, order[i]) && KindAt(g, order[i]) != End {
      assert order[i] in order;
    }
  }

  lemma ExhaustedReach(g: Grid, s: Pos, order: seq<Pos>, visited: set<Pos>, dist: map<Pos, nat>,
                       parent: map<Pos, Pos>, lo: nat)
    requires DijkstraState(g, s, order, [], visited, dist, parent, lo)
    ensures order != []
    ensures forall p :: p in order <==> Reachable(g, s, p)
  {
    assert dist.Keys == visited;
    CostTreeRanked(g, s, visited, dist, parent);
    assert ParentTree(g, s, parent, visited);
    forall v, u | v in visited && Passable(g, u) && Adjacent(v, u) ensures u in visited {
      assert ClosedAt(g, v, dist);
    }
    ExhaustedSearchIsReachableSet(g, s, parent, dist, visited);
  }
}
