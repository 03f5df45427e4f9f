/**
 * Greedy best-first search: an open set sorted on the heuristic alone,
 * cells marked visited when they are expanded, every unvisited neighbour
 * given `current` as parent and queued again, duplicates and all.
 */
module GreedySearch {
  import opened Types
  import opened GridModel
  import opened SearchUtils
  import opened SearchSpec
  import opened PriorityQueues

  /**
   * `greedy`. The per-cell fields of the original (`isVisited`,
   * `heuristic`, `parent`) are the set `visited` and the maps `heur` and
   * `parent`; a cell missing from `heur` has the reset value 0.
   */
  method Greedy(grid: Grid, heuristicType: string := "manhattan") returns (result: AlgorithmResult)
    requires WellFormed(grid)
    requires GetHeuristic(heuristicType) != EuclideanH
    ensures InformedContract(grid, result)
  {
    var clonedGrid := CloneGrid(grid);
    var start, end := FindStartAndEnd(clonedGrid);
    SameLayoutEndpoints(grid, clonedGrid);
    if start.None? || end.None? {
      return NoResult;
    }
    var heuristic := GetHeuristic(heuristicType);
    result := SearchFrom(grid, clonedGrid, start.value, end.value, heuristic);
  }

  /**
   * The open-set loop of `greedy`, from the start cell `s` of the copy
   * `clonedGrid` of `grid` towards the END cell `endNode`.
   */
  method SearchFrom(ghost grid: Grid, clonedGrid: Grid, s: Pos, endNode: Pos, heuristic: HeuristicType)
    returns (result: AlgorithmResult)
    requires WellFormed(grid) && WellFormed(clonedGrid) && SameLayout(grid, clonedGrid)
    requires Passable(grid, s) && heuristic != EuclideanH
    ensures Explores(grid, s, result)
  {
    var visitedNodesInOrder: seq<Pos> := [];
    var openSet := new GreedyQueue();
    var visited: set<Pos> := {};
    var parent: map<Pos, Pos> := map[];
    var heur: map<Pos, nat> := map[s := Estimate(heuristic, s, endNode)];
    ghost var rank: map<Pos, nat> := map[s := 0];
    openSet.Enqueue(s, heur);
    ghost var g := grid;
    ghost var cells := RectCells(|g|, Cols(g));
    GreedyStart(g, s, endNode, heuristic, openSet.items);

    while !openSet.IsEmpty()
      invariant GreedyState(g, s, endNode, heuristic, visitedNodesInOrder, openSet.items, visited, heur, parent, rank)
      invariant visited <= cells
      decreases |cells - visited|, |openSet.items|
    {
      ghost var items := openSet.items;
      var node := openSet.Dequeue();
      var current := node.value;
      if current in visited {
        GreedySkip(g, s, endNode, heuristic, visitedNodesInOrder, items, visited, heur, parent, rank);
        continue;
      }
      ghost var expanded := visitedNodesInOrder;
      GreedyPop(g, clonedGrid, s, endNode, heuristic, expanded, items, visited, heur, parent, rank);
      visited := visited + {current};
      visitedNodesInOrder := visitedNodesInOrder + [current];

      if At(clonedGrid, current).nodeType == End {
        var path := ReconstructPath(parent, current, rank);
        result := AlgorithmResult(visitedNodesInOrder, path, true);
        GreedyFound(g, s, endNode, heuristic, expanded, current, openSet.items, visited, heur, parent, rank, path);
        return;
      }

      heur, parent, rank :=
        ExpandNeighbors(g, s, endNode, heuristic, expanded, current, clonedGrid, openSet, visited, heur, parent, rank);
    }

    result := AlgorithmResult(visitedNodesInOrder, [], false);
    GreedyExhausted(g, s, endNode, heuristic, visitedNodesInOrder, visited, heur, parent, rank);
  }

  /** The neighbour loop of `greedy`. */
  method ExpandNeighbors(ghost g: Grid, ghost s: Pos, endNode: Pos, heuristic: HeuristicType, ghost expanded: seq<Pos>,
                         current: Pos, clonedGrid: Grid, openSet: GreedyQueue, visited: set<Pos>,
                         heur0: map<Pos, nat>, parent0: map<Pos, Pos>, ghost rank0: map<Pos, nat>)
    returns (heur: map<Pos, nat>, parent: map<Pos, Pos>, ghost rank: map<Pos, nat>)
    requires WellFormed(g) && WellFormed(clonedGrid) && SameLayout(g, clonedGrid) && heuristic != EuclideanH
    requires Expanding(g, s, endNode, heuristic, expanded, current, openSet.items, visited, heur0, parent0, rank0, [])
    requires Passable(g, current) && KindAt(g, current) != End
    modifies openSet
    ensures GreedyState(g, s, endNode, heuristic, expanded + [current], openSet.items, visited, heur, parent, rank)
  {
    heur, parent, rank := heur0, parent0, rank0;
    var neighbors := GetNeighbors(clonedGrid, current);
    SameLayoutNeighbors(g, clonedGrid, current);
    for i := 0 to |neighbors|
      invariant Expanding(g, s, endNode, heuristic, expanded, current, openSet.items, visited, heur, parent, rank,
                          neighbors[..i])
    {
      var neighbor := neighbors[i];
      TakeOneMore(neighbors, i);
      assert neighbor in neighbors;
      heur, parent, rank :=
        Discover(g, s, endNode, heuristic, expanded, current, neighbors[..i], neighbor, openSet, visited,
                 heur, parent, rank);
    }
    TakeAll(neighbors);
    GreedyExpanded(g, s, endNode, heuristic, expanded, current, openSet.items, visited, heur, parent, rank, neighbors);
  }

  /**
   * One neighbour of `current`: unless it is visited, it takes `current` as
   * parent and its heuristic, and is queued, even when it is queued already.
   */
  method Discover(ghost g: Grid, ghost s: Pos, endNode: Pos, heuristic: HeuristicType, ghost expanded: seq<Pos>,
                  current: Pos, ghost done: seq<Pos>, neighbor: Pos, openSet: GreedyQueue, visited: set<Pos>,
                  heur0: map<Pos, nat>, parent0: map<Pos, Pos>, ghost rank0: map<Pos, nat>)
    returns (heur: map<Pos, nat>, parent: map<Pos, Pos>, ghost rank: map<Pos, nat>)
    requires heuristic != EuclideanH
    requires Passable(g, neighbor) && Adjacent(current, neighbor)
    requires Expanding(g, s, endNode, heuristic, expanded, current, openSet.items, visited, heur0, parent0, rank0, done)
    modifies openSet
    ensures neighbor in visited ==> heur == heur0 && parent == parent0 && openSet.items == old(openSet.items)
    ensures neighbor !in visited ==> parent == parent0[neighbor := current]
    ensures neighbor !in visited ==> openSet.items == SortBy(old(openSet.items) + [neighbor], HeuristicKey(heur))
    ensures Expanding(g, s, endNode, heuristic, expanded, current, openSet.items, visited, heur, parent, rank,
                      done + [neighbor])
  {
    heur, parent, rank := heur0, parent0, rank0;
    if neighbor !in visited {
      ghost var items := openSet.items;
      var h := Estimate(heuristic, neighbor, endNode);
      parent := parent[neighbor := current];
      heur := heur[neighbor := h];
      rank := rank[neighbor := rank[current] + 1];
      openSet.Enqueue(neighbor, heur);
      GreedyPush(g, s, endNode, heuristic, expanded, current, items, openSet.items, visited, heur0, parent0, rank0,
                 done, neighbor, h);
    } else {
      GreedyKeep(g, s, endNode, heuristic, expanded, current, openSet.items, visited, heur, parent, rank,
                 done, neighbor);
    }
  }

  // ---------------------------------------------------------------------
  // The loop invariant and its steps
  // ---------------------------------------------------------------------

  /** A cell ever queued: the start or a cell with a parent. */
  ghost predicate Discovered(s: Pos, parent: map<Pos, Pos>, x: Pos) {
    x == s || x in parent
  }

  /**
   * The discovered cells form a tree rooted at `s`: every parent is
   * visited and adjacent to its child; `rank` witnesses that parent chains
   * end.
   */
  ghost predicate Tree(g: Grid, s: Pos, visited: set<Pos>, parent: map<Pos, Pos>, rank: map<Pos, nat>) {
    && s !in parent && Passable(g, s) && s in rank
    && (forall x :: x in parent ==> Passable(g, x) && parent[x] in visited && Adjacent(parent[x], x))
    && Ranked(parent, rank)
    && (forall v :: v in visited ==> Discovered(s, parent, v))
  }

  /** The discovered cells as a set form a parent tree in the shared sense. */
  lemma TreeIsParentTree(g: Grid, s: Pos, visited: set<Pos>, parent: map<Pos, Pos>, rank: map<Pos, nat>)
    requires Tree(g, s, visited, parent, rank)
    ensures ParentTree(g, s, parent, parent.Keys + {s})
  {
    forall x | x in parent ensures parent[x] in parent.Keys + {s} {
      assert Discovered(s, parent, parent[x]);
    }
  }

  /** Every queued cell was discovered; every discovered cell not yet visited is queued (perhaps more than once). */
  ghost predicate Open(s: Pos, items: seq<Pos>, visited: set<Pos>, parent: map<Pos, Pos>) {
    && (forall i :: 0 <= i < |items| ==> Discovered(s, parent, items[i]))
    && (forall x :: Discovered(s, parent, x) && x !in visited ==> x in items)
  }

  /** Every `heuristic` field set so far holds the heuristic's estimate to `e`; every queued cell has one. */
  ghost predicate Estimates(heuristic: HeuristicType, e: Pos, items: seq<Pos>, heur: map<Pos, nat>)
    requires heuristic != EuclideanH
  {
    && (forall x :: x in heur ==> heur[x] == Estimate(heuristic, x, e))
    && (forall i :: 0 <= i < |items| ==> items[i] in heur)
  }

  /** The queue holds its cells nearest-first by the heuristic. */
  ghost predicate ClosestFirst(heuristic: HeuristicType, e: Pos, items: seq<Pos>)
    requires heuristic != EuclideanH
  {
    forall i, j :: 0 <= i < j < |items| ==> Estimate(heuristic, items[i], e) <= Estimate(heuristic, items[j], e)
  }

  /** Every passable neighbour of an expanded cell has been queued. */
  ghost predicate Closure(g: Grid, s: Pos, expanded: seq<Pos>, parent: map<Pos, Pos>) {
    forall v, u :: v in expanded && Passable(g, u) && Adjacent(v, u) ==> Discovered(s, parent, u)
  }

  /** The state between two dequeues; `order` is `visitedNodesInOrder`. */
  ghost predicate GreedyState(g: Grid, s: Pos, e: Pos, heuristic: HeuristicType, order: seq<Pos>, items: seq<Pos>,
                              visited: set<Pos>, heur: map<Pos, nat>, parent: map<Pos, Pos>, rank: map<Pos, nat>)
  {
    && heuristic != EuclideanH
    && Tree(g, s, visited, parent, rank)
    && VisitOrder(order, visited, rank)
    && Open(s, items, visited, parent)
    && Estimates(heuristic, e, items, heur)
    && ClosestFirst(heuristic, e, items)
    && Closure(g, s, order, parent)
    && NoEndAmong(g, order)
    && (order == [] ==> items == [s])
    && (order != [] ==> order[0] == s)
  }

  /**
   * The state while the neighbours of `current` are examined, `done` being
   * those already examined.
   */
  ghost predicate Expanding(g: Grid, s: Pos, e: Pos, heuristic: HeuristicType, expanded: seq<Pos>, current: Pos,
                            items: seq<Pos>, visited: set<Pos>, heur: map<Pos, nat>, parent: map<Pos, Pos>,
                            rank: map<Pos, nat>, done: seq<Pos>)
  {
    var order := expanded + [current];
    && heuristic != EuclideanH
    && Tree(g, s, visited, parent, rank)
    && VisitOrder(order, visited, rank)
    && Open(s, items, visited, parent)
    && Estimates(heuristic, e, items, heur)
    && ClosestFirst(heuristic, e, items)
    && Closure(g, s, expanded, parent)
    && NoEndAmong(g, expanded)
    && order[0] == s
    && (forall u :: u in done ==> Discovered(s, parent, u))
  }

  lemma GreedyStart(g: Grid, s: Pos, e: Pos, heuristic: HeuristicType, items: seq<Pos>)
    requires Passable(g, s) && heuristic != EuclideanH
    requires forall y :: y in items <==> y == s
    requires |items| == 1
    ensures GreedyState(g, s, e, heuristic, [], items, {}, map[s := Estimate(heuristic, s, e)], map[], map[s := 0])
  {
    assert items[0] in items;
    assert items == [items[0]];
  }

  /** A head that is already visited is dropped and nothing else changes. */
  lemma GreedySkip(g: Grid, s: Pos, e: Pos, heuristic: HeuristicType, order: seq<Pos>, items: seq<Pos>,
                   visited: set<Pos>, heur: map<Pos, nat>, parent: map<Pos, Pos>, rank: map<Pos, nat>)
    requires GreedyState(g, s, e, heuristic, order, items, visited, heur, parent, rank)
    requires |items| > 0 && items[0] in visited
    ensures GreedyState(g, s, e, heuristic, order, items[1..], visited, heur, parent, rank)
  {
    OpenTail(s, items, visited, parent);
    QueueTail(heuristic, e, items, heur);
  }

  lemma OpenTail(s: Pos, items: seq<Pos>, visited: set<Pos>, parent: map<Pos, Pos>)
    requires Open(s, items, visited, parent) && |items| > 0
    ensures Open(s, items[1..], visited + {items[0]}, parent)
  {
    forall x | Discovered(s, parent, x) && x !in visited + {items[0]}
      ensures x in items[1..]
    {
      InTail(items, x);
    }
  }

  lemma QueueTail(heuristic: HeuristicType, e: Pos, items: seq<Pos>, heur: map<Pos, nat>)
    requires heuristic != EuclideanH && |items| > 0
    requires Estimates(heuristic, e, items, heur) && ClosestFirst(heuristic, e, items)
    ensures Estimates(heuristic, e, items[1..], heur) && ClosestFirst(heuristic, e, items[1..])
  {
    var rest := items[1..];
    assert forall i :: 0 <= i < |rest| ==> rest[i] == items[i + 1];
  }

  /**
   * A head that is not visited is the queued cell the heuristic puts
   * nearest to the END; it is visited and expanded next.
   */
  lemma GreedyPop(g: Grid, h: Grid, s: Pos, e: Pos, heuristic: HeuristicType, order: seq<Pos>, items: seq<Pos>,
                  visited: set<Pos>, heur: map<Pos, nat>, parent: map<Pos, Pos>, rank: map<Pos, nat>)
    requires WellFormed(g) && SameLayout(g, h)
    requires GreedyState(g, s, e, heuristic, order, items, visited, heur, parent, rank)
    requires |items| > 0 && items[0] !in visited && visited <= RectCells(|g|, Cols(g))
    ensures forall i :: 0 <= i < |items| ==> Estimate(heuristic, items[0], e) <= Estimate(heuristic, items[i], e)
    ensures Passable(g, items[0]) && Ranked(parent, rank)
    ensures InBounds(h, items[0]) && KindAt(h, items[0]) == KindAt(g, items[0])
    ensures visited + {items[0]} <= RectCells(|g|, Cols(g))
    ensures |RectCells(|g|, Cols(g)) - (visited + {items[0]})| < |RectCells(|g|, Cols(g)) - visited|
    ensures Expanding(g, s, e, heuristic, order, items[0], items[1..], visited + {items[0]}, heur, parent, rank, [])
  {
    PopState(g, s, e, heuristic, order, items, visited, heur, parent, rank);
    GrowWithinGrid(g, visited, items[0]);
    SameLayoutCell(g, h, items[0]);
  }

  lemma PopState(g: Grid, s: Pos, e: Pos, heuristic: HeuristicType, order: seq<Pos>, items: seq<Pos>,
                 visited: set<Pos>, heur: map<Pos, nat>, parent: map<Pos, Pos>, rank: map<Pos, nat>)
    requires GreedyState(g, s, e, heuristic, order, items, visited, heur, parent, rank)
    requires |items| > 0 && items[0] !in visited
    ensures forall i :: 0 <= i < |items| ==> Estimate(heuristic, items[0], e) <= Estimate(heuristic, items[i], e)
    ensures Passable(g, items[0]) && Ranked(parent, rank)
    ensures Expanding(g, s, e, heuristic, order, items[0], items[1..], visited + {items[0]}, heur, parent, rank, [])
  {
    assert Discovered(s, parent, items[0]);
    OpenTail(s, items, visited, parent);
    QueueTail(heuristic, e, items, heur);
  }

  /** A neighbour already visited: nothing changes. */
  lemma GreedyKeep(g: Grid, s: Pos, e: Pos, heuristic: HeuristicType, expanded: seq<Pos>, current: Pos,
                   items: seq<Pos>, visited: set<Pos>, heur: map<Pos, nat>, parent: map<Pos, Pos>,
                   rank: map<Pos, nat>, done: seq<Pos>, u: Pos)
    requires Expanding(g, s, e, heuristic, expanded, current, items, visited, heur, parent, rank, done)
    requires u in visited
    ensures Expanding(g, s, e, heuristic, expanded, current, items, visited, heur, parent, rank, done + [u])
  {
  }

  /**
   * An unvisited neighbour hangs below `current` in the tree, gets its
   * heuristic, and joins the queue in nearest-first order.
   */
  lemma GreedyPush(g: Grid, s: Pos, e: Pos, heuristic: HeuristicType, expanded: seq<Pos>, current: Pos,
                   items: seq<Pos>, items': seq<Pos>, visited: set<Pos>, heur: map<Pos, nat>, parent: map<Pos, Pos>,
                   rank: map<Pos, nat>, done: seq<Pos>, u: Pos, h: nat)
    requires heuristic != EuclideanH && h == Estimate(heuristic, u, e)
    requires Expanding(g, s, e, heuristic, expanded, current, items, visited, heur, parent, rank, done)
    requires Passable(g, u) && Adjacent(current, u) && u !in visited
    requires forall y :: y in items' <==> y == u || y in items
    requires SortedBy(items', HeuristicKey(heur[u := h]))
    ensures Expanding(g, s, e, heuristic, expanded, current, items', visited, heur[u := h], parent[u := current],
                      rank[u := rank[current] + 1], done + [u])
  {
    assert current in visited && s in visited;
    TreePush(g, s, current, visited, parent, rank, u);
    QueuePush(heuristic, e, items, items', heur, u, h);
    OpenPush(s, items, items', visited, parent, current, u);
    ExpandingIntro(g, s, e, heuristic, expanded, current, items', visited, heur[u := h], parent[u := current],
                   rank[u := rank[current] + 1], done + [u]);
  }

  lemma TreePush(g: Grid, s: Pos, current: Pos, visited: set<Pos>, parent: map<Pos, Pos>, rank: map<Pos, nat>, u: Pos)
    requires Tree(g, s, visited, parent, rank)
    requires current in visited && s in visited
    requires Passable(g, u) && Adjacent(current, u) && u !in visited
    ensures Tree(g, s, visited, parent[u := current], rank[u := rank[current] + 1])
  {
    assert Discovered(s, parent, current);
    RankedPush(visited, parent, rank, current, u);
  }

  /** A child hung below a visited cell ranks one above it; no cell hangs below the unvisited child. */
  lemma RankedPush(visited: set<Pos>, parent: map<Pos, Pos>, rank: map<Pos, nat>, current: Pos, u: Pos)
    requires Ranked(parent, rank) && current in rank && current in visited && u !in visited
    requires forall x :: x in parent ==> parent[x] in visited
    ensures Ranked(parent[u := current], rank[u := rank[current] + 1])
  {
    var parent', rank' := parent[u := current], rank[u := rank[current] + 1];
    forall c | c in parent' ensures c in rank' && parent'[c] in rank' && rank'[parent'[c]] < rank'[c] {
      if c != u {
        assert parent[c] in visited;
      }
    }
  }

  lemma QueuePush(heuristic: HeuristicType, e: Pos, items: seq<Pos>, items': seq<Pos>, heur: map<Pos, nat>,
                  u: Pos, h: nat)
    requires heuristic != EuclideanH && h == Estimate(heuristic, u, e)
    requires Estimates(heuristic, e, items, heur)
    requires forall y :: y in items' <==> y == u || y in items
    requires SortedBy(items', HeuristicKey(heur[u := h]))
    ensures Estimates(heuristic, e, items', heur[u := h]) && ClosestFirst(heuristic, e, items')
  {
    EstimatesPush(heuristic, e, items, items', heur, u, h);
    SortedClosest(heuristic, e, items', heur[u := h]);
  }

  lemma EstimatesPush(heuristic: HeuristicType, e: Pos, items: seq<Pos>, items': seq<Pos>, heur: map<Pos, nat>,
                      u: Pos, h: nat)
    requires heuristic != EuclideanH && h == Estimate(heuristic, u, e)
    requires Estimates(heuristic, e, items, heur)
    requires forall y :: y in items' <==> y == u || y in items
    ensures Estimates(heuristic, e, items', heur[u := h])
  {
    forall i | 0 <= i < |items'| ensures items'[i] in heur[u := h] {
      assert items'[i] in items';
    }
  }

  /** Sorted on `heuristic` fields that hold the heuristic's estimates: nearest first. */
  lemma SortedClosest(heuristic: HeuristicType, e: Pos, items: seq<Pos>, heur: map<Pos, nat>)
    requires heuristic != EuclideanH
    requires SortedBy(items, HeuristicKey(heur)) && Estimates(heuristic, e, items, heur)
    ensures ClosestFirst(heuristic, e, items)
  {
    var key := HeuristicKey(heur);
    forall i, j | 0 <= i < j < |items|
      ensures Estimate(heuristic, items[i], e) <= Estimate(heuristic, items[j], e)
    {
      assert KeyLe(key(items[i]), key(items[j]));
    }
  }

  lemma OpenPush(s: Pos, items: seq<Pos>, items': seq<Pos>, visited: set<Pos>, parent: map<Pos, Pos>,
                 current: Pos, u: Pos)
    requires Open(s, items, visited, parent)
    requires forall y :: y in items' <==> y == u || y in items
    ensures Open(s, items', visited, parent[u := current])
  {
    forall i | 0 <= i < |items'| ensures Discovered(s, parent[u := current], items'[i]) {
      assert items'[i] in items';
    }
  }

  lemma ExpandingIntro(g: Grid, s: Pos, e: Pos, heuristic: HeuristicType, expanded: seq<Pos>, current: Pos,
                       items: seq<Pos>, visited: set<Pos>, heur: map<Pos, nat>, parent: map<Pos, Pos>,
                       rank: map<Pos, nat>, done: seq<Pos>)
    requires heuristic != EuclideanH
    requires Tree(g, s, visited, parent, rank)
    requires VisitOrder(expanded + [current], visited, rank)
    requires Open(s, items, visited, parent)
    requires Estimates(heuristic, e, items, heur) && ClosestFirst(heuristic, e, items)
    requires Closure(g, s, expanded, parent)
    requires NoEndAmong(g, expanded)
    requires (expanded + [current])[0] == s
    requires forall u :: u in done ==> Discovered(s, parent, u)
    ensures Expanding(g, s, e, heuristic, expanded, current, items, visited, heur, parent, rank, done)
  {
  }

  /** After the last neighbour, `current` counts as expanded. */
  lemma GreedyExpanded(g: Grid, s: Pos, e: Pos, heuristic: HeuristicType, expanded: seq<Pos>, current: Pos,
                       items: seq<Pos>, visited: set<Pos>, heur: map<Pos, nat>, parent: map<Pos, Pos>,
                       rank: map<Pos, nat>, neighbors: seq<Pos>)
    requires WellFormed(g)
    requires Expanding(g, s, e, heuristic, expanded, current, items, visited, heur, parent, rank, neighbors)
    requires neighbors == Neighbors(g, current)
    requires Passable(g, current) && KindAt(g, current) != End
    ensures GreedyState(g, s, e, heuristic, expanded + [current], items, visited, heur, parent, rank)
  {
    ClosureExpanded(g, s, expanded, current, parent, neighbors);
    NoEndSnoc(g, expanded, current);
    GreedyStateIntro(g, s, e, heuristic, expanded + [current], items, visited, heur, parent, rank);
  }

  lemma ClosureExpanded(g: Grid, s: Pos, expanded: seq<Pos>, current: Pos, parent: map<Pos, Pos>, neighbors: seq<Pos>)
    requires WellFormed(g) && Closure(g, s, expanded, parent) && neighbors == Neighbors(g, current)
    requires forall u :: u in neighbors ==> Discovered(s, parent, u)
    ensures Closure(g, s, expanded + [current], parent)
  {
    forall v, u | v in expanded + [current] && Passable(g, u) && Adjacent(v, u)
      ensures Discovered(s, parent, u)
    {
      if v !in expanded {
        assert u in neighbors;
      }
    }
  }

  lemma GreedyStateIntro(g: Grid, s: Pos, e: Pos, heuristic: HeuristicType, order: seq<Pos>, items: seq<Pos>,
                         visited: set<Pos>, heur: map<Pos, nat>, parent: map<Pos, Pos>, rank: map<Pos, nat>)
    requires heuristic != EuclideanH
    requires Tree(g, s, visited, parent, rank)
    requires VisitOrder(order, visited, rank)
    requires Open(s, items, visited, parent)
    requires Estimates(heuristic, e, items, heur) && ClosestFirst(heuristic, e, items)
    requires Closure(g, s, order, parent)
    requires NoEndAmong(g, order)
    requires order != [] && order[0] == s
    ensures GreedyState(g, s, e, heuristic, order, items, visited, heur, parent, rank)
  {
  }

  // ---------------------------------------------------------------------
  // The two ways out
  // ---------------------------------------------------------------------

  /** `current` is an END: its parent chain is a walk from the start. */
  lemma GreedyFound(g: Grid, s: Pos, e: Pos, heuristic: HeuristicType, expanded: seq<Pos>, current: Pos,
                    items: seq<Pos>, visited: set<Pos>, heur: map<Pos, nat>, parent: map<Pos, Pos>,
                    rank: map<Pos, nat>, path: seq<Pos>)
    requires Expanding(g, s, e, heuristic, expanded, current, items, visited, heur, parent, rank, [])
    requires Passable(g, current) && KindAt(g, current) == End
    requires ChainTo(parent, path, current)
    ensures Explores(g, s, AlgorithmResult(expanded + [current], path, true))
  {
    FoundOrder(g, s, expanded, current, visited, rank);
    assert current in visited;
    TreeIsParentTree(g, s, visited, parent, rank);
    ChainIsWalk(g, s, parent, parent.Keys + {s}, path, current);
    ExploresFound(g, s, expanded + [current], path);
  }

  lemma FoundOrder(g: Grid, s: Pos, expanded: seq<Pos>, current: Pos, visited: set<Pos>, rank: map<Pos, nat>)
    requires VisitOrder(expanded + [current], visited, rank) && (expanded + [current])[0] == s
    requires NoEndAmong(g, expanded)
    requires Passable(g, current) && KindAt(g, current) == End
    ensures var v := expanded + [current];
      forall i :: 0 <= i < |v| ==> Passable(g, v[i]) && (i < |v| - 1 ==> KindAt(g, v[i]) != End)
  {
    var v := expanded + [current];
    forall i | 0 <= i < |v| - 1 ensures Passable(g, v[i]) && KindAt(g, v[i]) != End {
      assert v[i] in expanded;
    }
  }

  /** The open set ran dry: the visited cells are exactly those reachable from the start. */
  lemma GreedyExhausted(g: Grid, s: Pos, e: Pos, heuristic: HeuristicType, order: seq<Pos>, visited: set<Pos>,
                        heur: map<Pos, nat>, parent: map<Pos, Pos>, rank: map<Pos, nat>)
    requires GreedyState(g, s, e, heuristic, order, [], visited, heur, parent, rank)
    ensures Explores(g, s, AlgorithmResult(order, [], false))
  {
    var marked := parent.Keys + {s};
    forall x ensures x in visited <==> x in marked {
      assert x in marked <==> Discovered(s, parent, x);
    }
    forall v, u | v in marked && Passable(g, u) && Adjacent(v, u)
      ensures u in marked
    {
      assert v in order;
      assert Discovered(s, parent, u);
    }
    TreeIsParentTree(g, s, visited, parent, rank);
    ExhaustedSearchIsReachableSet(g, s, parent, rank, marked);
    forall i | 0 <= i < |order| ensures Passable(g, order[i]) && KindAt(g, order[i]) != End {
      assert order[i] in order;
    }
    ExploresExhausted(g, s, order);
  }
}
