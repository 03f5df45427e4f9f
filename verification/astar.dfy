/**
 * A* search: an open set sorted on f = g + h (ties on h), a closed set of
 * expanded cells, a neighbour's g-score lowered only when the new one is
 * strictly smaller, and a neighbour queued only when it is not queued yet.
 */
module AStarSearch {
  import opened Types
  import opened GridModel
  import opened SearchUtils
  import opened SearchSpec
  import opened WeightedTrees
  import opened PriorityQueues

  /**
   * `astar`. The per-cell fields of the original (`gScore`, `fScore`,
   * `heuristic`, `parent`) are maps; a cell missing from them has the reset
   * values `Infinity`, `Infinity`, 0 and no parent. The closed set of
   * `row-col` strings is a set of positions: the string names one cell.
   */
  method AStar(grid: Grid, heuristicType: string := "manhattan") returns (result: AlgorithmResult)
    requires WellFormed(grid)
    requires GetHeuristic(heuristicType) != EuclideanH
    ensures InformedContract(grid, result)
  {
    var clonedGrid := CloneGrid(grid);
    var start, end := FindStartAndEnd(clonedGrid);
    SameLayoutEndpoints(grid, clonedGrid);
    if start.None? || end.None? {
      return NoResult;
    }
    var heuristic := GetHeuristic(heuristicType);
    result := SearchFrom(grid, clonedGrid, start.value, end.value, heuristic);
  }

  /**
   * The open-set loop of `astar`, from the start cell `s` of the copy
   * `clonedGrid` of `grid` towards the END cell `endNode`.
   */
  method SearchFrom(ghost grid: Grid, clonedGrid: Grid, s: Pos, endNode: Pos, heuristic: HeuristicType)
    returns (result: AlgorithmResult)
    requires WellFormed(grid) && WellFormed(clonedGrid) && SameLayout(grid, clonedGrid)
    requires Passable(grid, s) && heuristic != EuclideanH
    ensures Explores(grid, s, result)
  {
    var visitedNodesInOrder: seq<Pos> := [];
    var openSet := new AStarQueue();
    var closedSet: set<Pos> := {};
    var parent: map<Pos, Pos> := map[];
    var startHeuristic := Estimate(heuristic, s, endNode);
    var gScore: map<Pos, nat> := map[s := 0];
    var heur: map<Pos, nat> := map[s := startHeuristic];
    var fScore: map<Pos, nat> := map[s := startHeuristic];
    openSet.Enqueue(s, fScore, heur);
    ghost var g := grid;
    ghost var cells := RectCells(|g|, Cols(g));
    AStarStart(g, s, endNode, heuristic, openSet.items);

    while !openSet.IsEmpty()
      invariant AStarState(g, s, endNode, heuristic, visitedNodesInOrder, openSet.items, closedSet,
                           gScore, fScore, heur, parent)
      invariant closedSet <= cells
      decreases |cells - closedSet|, |openSet.items|
    {
      ghost var items := openSet.items;
      var node := openSet.Dequeue();
      var current := node.value;
      if current in closedSet {
        // No queued cell is closed (`Open`): this branch is never taken.
        assert false;
      }
      ghost var expanded := visitedNodesInOrder;
      AStarPop(g, clonedGrid, s, endNode, heuristic, expanded, items, closedSet, gScore, fScore, heur, parent);
      closedSet := closedSet + {current};
      visitedNodesInOrder := visitedNodesInOrder + [current];

      if At(clonedGrid, current).nodeType == End {
        var path := ReconstructPath(parent, current, gScore);
        result := AlgorithmResult(visitedNodesInOrder, path, true);
        AStarFound(g, s, endNode, heuristic, expanded, current, openSet.items, closedSet, gScore, fScore, heur,
                   parent, path);
        return;
      }

      gScore, fScore, heur, parent :=
        ExpandNeighbors(g, s, endNode, heuristic, expanded, current, clonedGrid, openSet, closedSet,
                        gScore, fScore, heur, parent);
    }

    result := AlgorithmResult(visitedNodesInOrder, [], false);
    AStarExhausted(g, s, endNode, heuristic, visitedNodesInOrder, closedSet, gScore, fScore, heur, parent);
  }

  /** The neighbour loop of `astar`. */
  method ExpandNeighbors(ghost g: Grid, ghost s: Pos, endNode: Pos, heuristic: HeuristicType, ghost expanded: seq<Pos>,
                         current: Pos, clonedGrid: Grid, openSet: AStarQueue, closedSet: set<Pos>,
                         gScore0: map<Pos, nat>, fScore0: map<Pos, nat>, heur0: map<Pos, nat>,
                         parent0: map<Pos, Pos>)
    returns (gScore: map<Pos, nat>, fScore: map<Pos, nat>, heur: map<Pos, nat>, parent: map<Pos, Pos>)
    requires WellFormed(g) && WellFormed(clonedGrid) && SameLayout(g, clonedGrid) && heuristic != EuclideanH
    requires Relaxing(g, s, endNode, heuristic, expanded, current, openSet.items, closedSet,
                      gScore0, fScore0, heur0, parent0, [])
    requires Passable(g, current) && KindAt(g, current) != End
    modifies openSet
    ensures AStarState(g, s, endNode, heuristic, expanded + [current], openSet.items, closedSet,
                       gScore, fScore, heur, parent)
  {
    gScore, fScore, heur, parent := gScore0, fScore0, heur0, parent0;
    var neighbors := GetNeighbors(clonedGrid, current);
    SameLayoutNeighbors(g, clonedGrid, current);
    for i := 0 to |neighbors|
      invariant Relaxing(g, s, endNode, heuristic, expanded, current, openSet.items, closedSet,
                         gScore, fScore, heur, parent, neighbors[..i])
    {
      var neighbor := neighbors[i];
      TakeOneMore(neighbors, i);
      assert neighbor in neighbors;
      gScore, fScore, heur, parent :=
        Relax(g, s, endNode, heuristic, expanded, current, neighbors[..i], neighbor, clonedGrid, openSet, closedSet,
              gScore, fScore, heur, parent);
    }
    TakeAll(neighbors);
    AStarExpanded(g, s, endNode, heuristic, expanded, current, openSet.items, closedSet, gScore, fScore, heur,
                  parent, neighbors);
  }

  /**
   * One neighbour of `current`: unless it is closed, and when the g-score
   * through `current` is strictly smaller than its own, it takes that
   * g-score, its heuristic, their sum as f-score and `current` as parent,
   * and joins the open set if it is not already there.
   */
  method Relax(ghost g: Grid, ghost s: Pos, endNode: Pos, heuristic: HeuristicType, ghost expanded: seq<Pos>,
               current: Pos, ghost done: seq<Pos>, neighbor: Pos, clonedGrid: Grid, openSet: AStarQueue,
               closedSet: set<Pos>, gScore0: map<Pos, nat>, fScore0: map<Pos, nat>, heur0: map<Pos, nat>,
               parent0: map<Pos, Pos>)
    returns (gScore: map<Pos, nat>, fScore: map<Pos, nat>, heur: map<Pos, nat>, parent: map<Pos, Pos>)
    requires WellFormed(g) && SameLayout(g, clonedGrid) && heuristic != EuclideanH
    requires Passable(g, neighbor) && Adjacent(current, neighbor) && current in gScore0
    requires Relaxing(g, s, endNode, heuristic, expanded, current, openSet.items, closedSet,
                      gScore0, fScore0, heur0, parent0, done)
    modifies openSet
    ensures Relaxing(g, s, endNode, heuristic, expanded, current, openSet.items, closedSet,
                     gScore, fScore, heur, parent, done + [neighbor])
    ensures RelaxStep(g, endNode, heuristic, current, neighbor, closedSet, gScore0, fScore0, heur0, parent0,
                      old(openSet.items), gScore, fScore, heur, parent, openSet.items)
  {
    gScore, fScore, heur, parent := gScore0, fScore0, heur0, parent0;
    if neighbor in closedSet {
      AStarKeep(g, s, endNode, heuristic, expanded, current, openSet.items, closedSet, gScore, fScore, heur,
                parent, done, neighbor);
      return;
    }
    SameLayoutCell(g, clonedGrid, neighbor);
    var weight := At(clonedGrid, neighbor).terrain;
    var tentativeGScore := gScore[current] + weight;
    if neighbor !in gScore || tentativeGScore < gScore[neighbor] {
      ghost var items := openSet.items;
      gScore, fScore, heur, parent :=
        Improve(g, s, endNode, heuristic, expanded, current, done, neighbor, tentativeGScore, openSet, closedSet,
                gScore, fScore, heur, parent);
      RelaxStepImproved(g, endNode, heuristic, current, neighbor, closedSet, gScore0, fScore0, heur0, parent0,
                        items, gScore, fScore, heur, parent, openSet.items, tentativeGScore);
    } else {
      AStarKeep(g, s, endNode, heuristic, expanded, current, openSet.items, closedSet, gScore, fScore, heur,
                parent, done, neighbor);
    }
  }

  /**
   * What examining one neighbour does. A closed neighbour, or one whose
   * g-score through `current` is not strictly smaller than its own, leaves
   * the scores, the parents and the open set as they were. Otherwise the
   * neighbour takes that g-score, its heuristic, their sum as f-score and
   * `current` as parent, and the open set stays as it was when it already
   * holds the neighbour and otherwise becomes the push sorted by f-score,
   * then heuristic.
   */
  ghost predicate RelaxStep(g: Grid, e: Pos, heuristic: HeuristicType, current: Pos, neighbor: Pos, closed: set<Pos>,
                            gScore0: map<Pos, nat>, fScore0: map<Pos, nat>, heur0: map<Pos, nat>,
                            parent0: map<Pos, Pos>, items0: seq<Pos>, gScore: map<Pos, nat>, fScore: map<Pos, nat>,
                            heur: map<Pos, nat>, parent: map<Pos, Pos>, items: seq<Pos>)
    requires InBounds(g, neighbor) && current in gScore0 && heuristic != EuclideanH
  {
    var d := gScore0[current] + TerrainAt(g, neighbor);
    if neighbor in closed || (neighbor in gScore0 && gScore0[neighbor] <= d) then
      && gScore == gScore0 && fScore == fScore0 && heur == heur0 && parent == parent0
      && items == items0
    else
      && gScore == gScore0[neighbor := d] && parent == parent0[neighbor := current]
      && heur == heur0[neighbor := Estimate(heuristic, neighbor, e)]
      && fScore == fScore0[neighbor := d + Estimate(heuristic, neighbor, e)]
      && (neighbor in items0 ==> items == items0)
      && (neighbor !in items0 ==> items == SortBy(items0 + [neighbor], FScoreKey(fScore, heur)))
  }

  /** A strict improvement that `Improve` has applied is the improving case of `RelaxStep`. */
  lemma RelaxStepImproved(g: Grid, e: Pos, heuristic: HeuristicType, current: Pos, neighbor: Pos, closed: set<Pos>,
                          gScore0: map<Pos, nat>, fScore0: map<Pos, nat>, heur0: map<Pos, nat>,
                          parent0: map<Pos, Pos>, items0: seq<Pos>, gScore: map<Pos, nat>, fScore: map<Pos, nat>,
                          heur: map<Pos, nat>, parent: map<Pos, Pos>, items: seq<Pos>, d: nat)
    requires InBounds(g, neighbor) && current in gScore0 && heuristic != EuclideanH
    requires d == gScore0[current] + TerrainAt(g, neighbor)
    requires neighbor !in closed && (neighbor !in gScore0 || d < gScore0[neighbor])
    requires gScore == gScore0[neighbor := d] && parent == parent0[neighbor := current]
    requires heur == heur0[neighbor := Estimate(heuristic, neighbor, e)]
    requires fScore == fScore0[neighbor := d + Estimate(heuristic, neighbor, e)]
    requires neighbor in items0 ==> items == items0
    requires neighbor !in items0 ==> items == SortBy(items0 + [neighbor], FScoreKey(fScore, heur))
    ensures RelaxStep(g, e, heuristic, current, neighbor, closed, gScore0, fScore0, heur0, parent0, items0,
                      gScore, fScore, heur, parent, items)
  {
  }

  /**
   * A neighbour whose g-score through `current` is strictly smaller takes
   * it, with its heuristic, their sum as f-score and `current` as parent,
   * and is queued unless the open set already holds it. (`Relaxing` pins
   * the new heuristic and f-score through `Scores`.)
   */
  method Improve(ghost g: Grid, ghost s: Pos, endNode: Pos, heuristic: HeuristicType, ghost expanded: seq<Pos>,
                 current: Pos, ghost done: seq<Pos>, neighbor: Pos, tentativeGScore: nat, openSet: AStarQueue,
                 closedSet: set<Pos>, gScore0: map<Pos, nat>, fScore0: map<Pos, nat>, heur0: map<Pos, nat>,
                 parent0: map<Pos, Pos>)
    returns (gScore: map<Pos, nat>, fScore: map<Pos, nat>, heur: map<Pos, nat>, parent: map<Pos, Pos>)
    requires WellFormed(g) && heuristic != EuclideanH
    requires Relaxing(g, s, endNode, heuristic, expanded, current, openSet.items, closedSet,
                      gScore0, fScore0, heur0, parent0, done)
    requires Passable(g, neighbor) && Adjacent(current, neighbor) && neighbor !in closedSet
    requires tentativeGScore == gScore0[current] + TerrainAt(g, neighbor)
    modifies openSet
    ensures gScore == gScore0[neighbor := tentativeGScore] && parent == parent0[neighbor := current]
    ensures heur == heur0[neighbor := Estimate(heuristic, neighbor, endNode)]
    ensures fScore == fScore0[neighbor := tentativeGScore + Estimate(heuristic, neighbor, endNode)]
    ensures neighbor in old(openSet.items) ==> openSet.items == old(openSet.items)
    ensures neighbor !in old(openSet.items) ==>
      openSet.items == SortBy(old(openSet.items) + [neighbor], FScoreKey(fScore, heur))
    ensures Relaxing(g, s, endNode, heuristic, expanded, current, openSet.items, closedSet,
                     gScore, fScore, heur, parent, done + [neighbor])
  {
    ghost var items := openSet.items;
    var h := Estimate(heuristic, neighbor, endNode);
    parent := parent0[neighbor := current];
    gScore := gScore0[neighbor := tentativeGScore];
    heur := heur0[neighbor := h];
    fScore := fScore0[neighbor := tentativeGScore + h];
    var queued := openSet.Contains(neighbor);
    if !queued {
      openSet.Enqueue(neighbor, fScore, heur);
    }
    AStarRelax(g, s, endNode, heuristic, expanded, current, items, openSet.items, closedSet, gScore0, fScore0,
               heur0, parent0, done, neighbor, tentativeGScore, h);
    ScoresUpdated(heuristic, endNode, gScore0, fScore0, heur0, gScore, fScore, heur, neighbor, tentativeGScore);
  }

  // ---------------------------------------------------------------------
  // The loop invariant and its steps
  // ---------------------------------------------------------------------

  /**
   * No cell is queued twice; every queued cell has a g-score and is not
   * closed; every cell with a g-score that is not closed is queued.
   */
  ghost predicate Open(items: seq<Pos>, closed: set<Pos>, gScore: map<Pos, nat>) {
    && (forall x :: multiset(items)[x] <= 1)
    && (forall i :: 0 <= i < |items| ==> items[i] in gScore && items[i] !in closed)
    && (forall x :: x in gScore && x !in closed ==> x in items)
  }

  /** A cell with a g-score has the heuristic's estimate to `e` and f = g + h. */
  ghost predicate Scores(heuristic: HeuristicType, e: Pos, gScore: map<Pos, nat>, fScore: map<Pos, nat>,
                         heur: map<Pos, nat>)
    requires heuristic != EuclideanH
  {
    && fScore.Keys == gScore.Keys && heur.Keys == gScore.Keys
    && forall x :: x in gScore ==> heur[x] == Estimate(heuristic, x, e) && fScore[x] == gScore[x] + heur[x]
  }

  /** Every passable neighbour of an expanded cell has a g-score. */
  ghost predicate Closure(g: Grid, expanded: seq<Pos>, gScore: map<Pos, nat>) {
    forall v, u :: v in expanded && Passable(g, u) && Adjacent(v, u) ==> u in gScore
  }

  /** The state between two dequeues; `order` is `visitedNodesInOrder`. */
  ghost predicate AStarState(g: Grid, s: Pos, e: Pos, heuristic: HeuristicType, order: seq<Pos>, items: seq<Pos>,
                             closed: set<Pos>, gScore: map<Pos, nat>, fScore: map<Pos, nat>, heur: map<Pos, nat>,
                             parent: map<Pos, Pos>)
  {
    && heuristic != EuclideanH
    && CostTree(g, s, closed, gScore, parent)
    && VisitOrder(order, closed, gScore)
    && Open(items, closed, gScore)
    && Scores(heuristic, e, gScore, fScore, heur)
    && Closure(g, order, gScore)
    && NoEndAmong(g, order)
    && (order == [] ==> items == [s])
    && (order != [] ==> order[0] == s)
  }

  /**
   * The state while the neighbours of `current` are examined, `done` being
   * those already examined.
   */
  ghost predicate Relaxing(g: Grid, s: Pos, e: Pos, heuristic: HeuristicType, expanded: seq<Pos>, current: Pos,
                           items: seq<Pos>, closed: set<Pos>, gScore: map<Pos, nat>, fScore: map<Pos, nat>,
                           heur: map<Pos, nat>, parent: map<Pos, Pos>, done: seq<Pos>)
  {
    var order := expanded + [current];
    && heuristic != EuclideanH
    && CostTree(g, s, closed, gScore, parent)
    && VisitOrder(order, closed, gScore)
    && Open(items, closed, gScore)
    && Scores(heuristic, e, gScore, fScore, heur)
    && Closure(g, expanded, gScore)
    && NoEndAmong(g, expanded)
    && order[0] == s
    && (forall u :: u in done ==> u in gScore)
  }

  lemma AStarStart(g: Grid, s: Pos, e: Pos, heuristic: HeuristicType, items: seq<Pos>)
    requires Passable(g, s) && heuristic != EuclideanH
    requires forall y :: y in items <==> y == s
    requires |items| == 1
    ensures var h := Estimate(heuristic, s, e);
      AStarState(g, s, e, heuristic, [], items, {}, map[s := 0], map[s := h], map[s := h], map[])
  {
    assert items[0] in items;
    assert items == [items[0]];
  }

  /** A head that is not closed is closed and expanded next. */
  lemma AStarPop(g: Grid, h: Grid, s: Pos, e: Pos, heuristic: HeuristicType, order: seq<Pos>, items: seq<Pos>,
                 closed: set<Pos>, gScore: map<Pos, nat>, fScore: map<Pos, nat>, heur: map<Pos, nat>,
                 parent: map<Pos, Pos>)
    requires WellFormed(g) && SameLayout(g, h)
    requires AStarState(g, s, e, heuristic, order, items, closed, gScore, fScore, heur, parent)
    requires |items| > 0 && items[0] !in closed && closed <= RectCells(|g|, Cols(g))
    ensures Passable(g, items[0]) && items[0] in gScore && Ranked(parent, gScore)
    ensures InBounds(h, items[0]) && KindAt(h, items[0]) == KindAt(g, items[0])
    ensures closed + {items[0]} <= RectCells(|g|, Cols(g))
    ensures |RectCells(|g|, Cols(g)) - (closed + {items[0]})| < |RectCells(|g|, Cols(g)) - closed|
    ensures Relaxing(g, s, e, heuristic, order, items[0], items[1..], closed + {items[0]},
                     gScore, fScore, heur, parent, [])
  {
    PopState(g, s, e, heuristic, order, items, closed, gScore, fScore, heur, parent);
    GrowWithinGrid(g, closed, items[0]);
    SameLayoutCell(g, h, items[0]);
  }

  lemma PopState(g: Grid, s: Pos, e: Pos, heuristic: HeuristicType, order: seq<Pos>, items: seq<Pos>,
                 closed: set<Pos>, gScore: map<Pos, nat>, fScore: map<Pos, nat>, heur: map<Pos, nat>,
                 parent: map<Pos, Pos>)
    requires AStarState(g, s, e, heuristic, order, items, closed, gScore, fScore, heur, parent)
    requires |items| > 0 && items[0] !in closed
    ensures Passable(g, items[0]) && items[0] in gScore && Ranked(parent, gScore)
    ensures Relaxing(g, s, e, heuristic, order, items[0], items[1..], closed + {items[0]},
                     gScore, fScore, heur, parent, [])
  {
    assert items[0] in gScore;
    OpenPop(items, closed, gScore);
    CostTreeRanked(g, s, closed, gScore, parent);
    CostTreeGrow(g, s, closed, gScore, parent, items[0]);
  }

  lemma OpenPop(items: seq<Pos>, closed: set<Pos>, gScore: map<Pos, nat>)
    requires Open(items, closed, gScore) && |items| > 0
    ensures Open(items[1..], closed + {items[0]}, gScore)
  {
    assert items == [items[0]] + items[1..];
    assert multiset(items) == multiset{items[0]} + multiset(items[1..]);
    forall x ensures multiset(items[1..])[x] <= 1 {
      assert multiset(items[1..])[x] <= multiset(items)[x];
    }
    assert multiset(items)[items[0]] <= 1;
    assert multiset(items[1..])[items[0]] == 0;
    forall i | 0 <= i < |items| - 1 ensures items[1..][i] != items[0] && items[1..][i] !in closed {
      assert items[1..][i] == items[i + 1] && items[1..][i] in multiset(items[1..]);
    }
    forall x | x in gScore && x !in closed + {items[0]}
      ensures x in items[1..]
    {
      InTail(items, x);
    }
  }

  /** A neighbour that is closed, or whose g-score is no larger: nothing changes. */
  lemma AStarKeep(g: Grid, s: Pos, e: Pos, heuristic: HeuristicType, expanded: seq<Pos>, current: Pos,
                  items: seq<Pos>, closed: set<Pos>, gScore: map<Pos, nat>, fScore: map<Pos, nat>,
                  heur: map<Pos, nat>, parent: map<Pos, Pos>, done: seq<Pos>, u: Pos)
    requires Relaxing(g, s, e, heuristic, expanded, current, items, closed, gScore, fScore, heur, parent, done)
    requires u in closed || u in gScore
    ensures Relaxing(g, s, e, heuristic, expanded, current, items, closed, gScore, fScore, heur, parent, done + [u])
  {
  }

  /**
   * A strictly smaller g-score through `current`: the neighbour joins the
   * tree below `current` with new scores, and is queued unless it already is.
   */
  lemma AStarRelax(g: Grid, s: Pos, e: Pos, heuristic: HeuristicType, expanded: seq<Pos>, current: Pos,
                   items: seq<Pos>, items': seq<Pos>, closed: set<Pos>, gScore: map<Pos, nat>,
                   fScore: map<Pos, nat>, heur: map<Pos, nat>, parent: map<Pos, Pos>, done: seq<Pos>,
                   u: Pos, d: nat, h: nat)
    requires WellFormed(g) && heuristic != EuclideanH && h == Estimate(heuristic, u, e)
    requires Relaxing(g, s, e, heuristic, expanded, current, items, closed, gScore, fScore, heur, parent, done)
    requires Passable(g, u) && Adjacent(current, u) && u !in closed
    requires d == gScore[current] + TerrainAt(g, u)
    requires u in items ==> items' == items
    requires u !in items ==> multiset(items') == multiset(items) + multiset{u}
    ensures Relaxing(g, s, e, heuristic, expanded, current, items', closed, gScore[u := d], fScore[u := d + h],
                     heur[u := h], parent[u := current], done + [u])
  {
    assert current in closed && s in closed;
    CostTreeRelax(g, s, current, closed, gScore, parent, u, d);
    OpenRelax(items, items', closed, gScore, u, d);
    ScoresRelax(heuristic, e, gScore, fScore, heur, u, d, h);
    RelaxingIntro(g, s, e, heuristic, expanded, current, items', closed, gScore[u := d], fScore[u := d + h],
                  heur[u := h], parent[u := current], done + [u]);
  }

  lemma OpenRelax(items: seq<Pos>, items': seq<Pos>, closed: set<Pos>, gScore: map<Pos, nat>, u: Pos, d: nat)
    requires Open(items, closed, gScore)
    requires u !in closed
    requires u in items ==> items' == items
    requires u !in items ==> multiset(items') == multiset(items) + multiset{u}
    ensures Open(items', closed, gScore[u := d])
  {
    if u !in items {
      forall i | 0 <= i < |items'| ensures items'[i] in gScore[u := d] && items'[i] !in closed {
        assert items'[i] in multiset(items');
      }
      forall x | x in gScore[u := d] && x !in closed ensures x in items' {
        assert x in multiset(items');
      }
    }
  }

  lemma ScoresRelax(heuristic: HeuristicType, e: Pos, gScore: map<Pos, nat>, fScore: map<Pos, nat>,
                    heur: map<Pos, nat>, u: Pos, d: nat, h: nat)
    requires heuristic != EuclideanH && Scores(heuristic, e, gScore, fScore, heur)
    requires h == Estimate(heuristic, u, e)
    ensures Scores(heuristic, e, gScore[u := d], fScore[u := d + h], heur[u := h])
  {
  }

  /** Scores determine heuristic and f-score from g-score: one new g-score changes one entry of each. */
  lemma ScoresUpdated(heuristic: HeuristicType, e: Pos, gScore0: map<Pos, nat>, fScore0: map<Pos, nat>,
                      heur0: map<Pos, nat>, gScore: map<Pos, nat>, fScore: map<Pos, nat>, heur: map<Pos, nat>,
                      u: Pos, d: nat)
    requires heuristic != EuclideanH
    requires Scores(heuristic, e, gScore0, fScore0, heur0) && Scores(heuristic, e, gScore, fScore, heur)
    requires gScore == gScore0[u := d]
    ensures heur == heur0[u := Estimate(heuristic, u, e)]
    ensures fScore == fScore0[u := d + Estimate(heuristic, u, e)]
  {
    HeurUpdated(heuristic, e, gScore0, fScore0, heur0, gScore, fScore, heur, u, d);
    var h := Estimate(heuristic, u, e);
    forall x | x in fScore ensures x in fScore0[u := d + h] && fScore[x] == fScore0[u := d + h][x] {
      if x != u {
        assert x in gScore0 && gScore[x] == gScore0[x] && heur[x] == heur0[x];
      }
    }
    assert fScore.Keys == fScore0[u := d + h].Keys;
  }

  lemma HeurUpdated(heuristic: HeuristicType, e: Pos, gScore0: map<Pos, nat>, fScore0: map<Pos, nat>,
                    heur0: map<Pos, nat>, gScore: map<Pos, nat>, fScore: map<Pos, nat>, heur: map<Pos, nat>,
                    u: Pos, d: nat)
    requires heuristic != EuclideanH
    requires Scores(heuristic, e, gScore0, fScore0, heur0) && Scores(heuristic, e, gScore, fScore, heur)
    requires gScore == gScore0[u := d]
    ensures heur == heur0[u := Estimate(heuristic, u, e)]
  {
    var h := Estimate(heuristic, u, e);
    forall x | x in heur ensures x in heur0[u := h] && heur[x] == heur0[u := h][x] {
      if x != u {
        assert x in gScore0;
      }
    }
    assert heur.Keys == heur0[u := h].Keys;
  }

  lemma RelaxingIntro(g: Grid, s: Pos, e: Pos, heuristic: HeuristicType, expanded: seq<Pos>, current: Pos,
                      items: seq<Pos>, closed: set<Pos>, gScore: map<Pos, nat>, fScore: map<Pos, nat>,
                      heur: map<Pos, nat>, parent: map<Pos, Pos>, done: seq<Pos>)
    requires heuristic != EuclideanH
    requires CostTree(g, s, closed, gScore, parent)
    requires VisitOrder(expanded + [current], closed, gScore)
    requires Open(items, closed, gScore)
    requires Scores(heuristic, e, gScore, fScore, heur)
    requires Closure(g, expanded, gScore)
    requires NoEndAmong(g, expanded)
    requires (expanded + [current])[0] == s
    requires forall u :: u in done ==> u in gScore
    ensures Relaxing(g, s, e, heuristic, expanded, current, items, closed, gScore, fScore, heur, parent, done)
  {
  }

  /** After the last neighbour, `current` counts as expanded. */
  lemma AStarExpanded(g: Grid, s: Pos, e: Pos, heuristic: HeuristicType, expanded: seq<Pos>, current: Pos,
                      items: seq<Pos>, closed: set<Pos>, gScore: map<Pos, nat>, fScore: map<Pos, nat>,
                      heur: map<Pos, nat>, parent: map<Pos, Pos>, neighbors: seq<Pos>)
    requires WellFormed(g)
    requires Relaxing(g, s, e, heuristic, expanded, current, items, closed, gScore, fScore, heur, parent, neighbors)
    requires neighbors == Neighbors(g, current)
    requires Passable(g, current) && KindAt(g, current) != End
    ensures AStarState(g, s, e, heuristic, expanded + [current], items, closed, gScore, fScore, heur, parent)
  {
    ClosureExpanded(g, expanded, current, gScore, neighbors);
    NoEndSnoc(g, expanded, current);
    AStarStateIntro(g, s, e, heuristic, expanded + [current], items, closed, gScore, fScore, heur, parent);
  }

  lemma AStarStateIntro(g: Grid, s: Pos, e: Pos, heuristic: HeuristicType, order: seq<Pos>, items: seq<Pos>,
                        closed: set<Pos>, gScore: map<Pos, nat>, fScore: map<Pos, nat>, heur: map<Pos, nat>,
                        parent: map<Pos, Pos>)
    requires heuristic != EuclideanH
    requires CostTree(g, s, closed, gScore, parent)
    requires VisitOrder(order, closed, gScore)
    requires Open(items, closed, gScore)
    requires Scores(heuristic, e, gScore, fScore, heur)
    requires Closure(g, order, gScore)
    requires NoEndAmong(g, order)
    requires order != [] && order[0] == s
    ensures AStarState(g, s, e, heuristic, order, items, closed, gScore, fScore, heur, parent)
  {
  }

  lemma ClosureExpanded(g: Grid, expanded: seq<Pos>, current: Pos, gScore: map<Pos, nat>, neighbors: seq<Pos>)
    requires WellFormed(g) && Closure(g, expanded, gScore) && neighbors == Neighbors(g, current)
    requires forall u :: u in neighbors ==> u in gScore
    ensures Closure(g, expanded + [current], gScore)
  {
    forall v, u | v in expanded + [current] && Passable(g, u) && Adjacent(v, u)
      ensures u in gScore
    {
      if v !in expanded {
        assert u in neighbors;
      }
    }
  }

  // ---------------------------------------------------------------------
  // The two ways out
  // ---------------------------------------------------------------------

  /** `current` is an END: its parent chain is a walk from the start. */
  lemma AStarFound(g: Grid, s: Pos, e: Pos, heuristic: HeuristicType, expanded: seq<Pos>, current: Pos,
                   items: seq<Pos>, closed: set<Pos>, gScore: map<Pos, nat>, fScore: map<Pos, nat>,
                   heur: map<Pos, nat>, parent: map<Pos, Pos>, path: seq<Pos>)
    requires Relaxing(g, s, e, heuristic, expanded, current, items, closed, gScore, fScore, heur, parent, [])
    requires Passable(g, current) && KindAt(g, current) == End
    requires ChainTo(parent, path, current)
    ensures Explores(g, s, AlgorithmResult(expanded + [current], path, true))
  {
    FoundOrder(g, s, expanded, current, closed, gScore);
    assert current in gScore;
    ChainIsWalk(g, s, parent, gScore.Keys, path, current);
    ExploresFound(g, s, expanded + [current], path);
  }

  lemma FoundOrder(g: Grid, s: Pos, expanded: seq<Pos>, current: Pos, closed: set<Pos>, gScore: map<Pos, nat>)
    requires VisitOrder(expanded + [current], closed, gScore) && (expanded + [current])[0] == s
    requires NoEndAmong(g, expanded)
    requires Passable(g, current) && KindAt(g, current) == End
    ensures var v := expanded + [current];
      forall i :: 0 <= i < |v| ==> Passable(g, v[i]) && (i < |v| - 1 ==> KindAt(g, v[i]) != End)
  {
    var v := expanded + [current];
    forall i | 0 <= i < |v| - 1 ensures Passable(g, v[i]) && KindAt(g, v[i]) != End {
      assert v[i] in expanded;
    }
  }

  /** The open set ran dry: the closed cells are exactly those reachable from the start. */
  lemma AStarExhausted(g: Grid, s: Pos, e: Pos, heuristic: HeuristicType, order: seq<Pos>, closed: set<Pos>,
                       gScore: map<Pos, nat>, fScore: map<Pos, nat>, heur: map<Pos, nat>, parent: map<Pos, Pos>)
    requires AStarState(g, s, e, heuristic, order, [], closed, gScore, fScore, heur, parent)
    ensures Explores(g, s, AlgorithmResult(order, [], false))
  {
    assert closed == gScore.Keys;
    CostTreeRanked(g, s, closed, gScore, parent);
    forall v, u | v in gScore.Keys && Passable(g, u) && Adjacent(v, u)
      ensures u in gScore.Keys
    {
      assert v in order;
    }
    ExhaustedSearchIsReachableSet(g, s, parent, gScore, gScore.Keys);
    forall i | 0 <= i < |order| ensures Passable(g, order[i]) && KindAt(g, order[i]) != End {
      assert order[i] in order;
    }
    ExploresExhausted(g, s, order);
  }
}
