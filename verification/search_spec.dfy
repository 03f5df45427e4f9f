/**
 * What the searches promise, stated once so that each search and the
 * dispatcher can refer to it, and the lemmas about parent trees and
 * reachability that the searches share.
 */
module SearchSpec {
  import opened Types
  import opened GridModel
  import opened SearchUtils

  /** A grid without a START cell or without an END cell. */
  predicate MissingEndpoint(g: Grid) {
    LastOfKind(g, Start).None? || LastOfKind(g, End).None?
  }

  /** The cell a search starts from: the last START in row-major order. */
  function StartOf(g: Grid): (s: Pos)
    requires !MissingEndpoint(g)
    ensures InBounds(g, s) && KindAt(g, s) == Start
  {
    LastOfKind(g, Start).value
  }

  /** The END cell the heuristics aim at: the last END in row-major order. */
  function EndOf(g: Grid): (e: Pos)
    requires !MissingEndpoint(g)
    ensures InBounds(g, e) && KindAt(g, e) == End
  {
    LastOfKind(g, End).value
  }

  /**
   * The outcome every search shares once both endpoints exist: the visit
   * order starts at `s`, has no repetition and no wall, and stops at the
   * first END it reaches; a found path is a walk from `s` to that END; when
   * no END is reached the path is empty and every cell reachable from `s`
   * has been visited, and nothing else.
   */
  ghost predicate Explores(g: Grid, s: Pos, r: AlgorithmResult) {
    var v, path := r.visitedNodesInOrder, r.shortestPath;
    && |v| >= 1 && v[0] == s && Distinct(v)
    && (forall i :: 0 <= i < |v| ==> Passable(g, v[i]))
    && (forall i :: 0 <= i < |v| - 1 ==> KindAt(g, v[i]) != End)
    && (r.success <==> KindAt(g, Last(v)) == End)
    && (r.success ==> IsWalk(g, path) && path[0] == s && Last(path) == Last(v))
    && (!r.success ==> path == [] && forall p :: p in v <==> Reachable(g, s, p))
  }

  /** A found path has no more cells than any walk between the same two cells. */
  ghost predicate FewestSteps(g: Grid, s: Pos, r: AlgorithmResult) {
    r.success && |r.shortestPath| >= 1 ==>
      forall w :: IsWalk(g, w) && w[0] == s && Last(w) == Last(r.shortestPath) ==>
        |r.shortestPath| <= |w|
  }

  /** A found path that is a walk costs no more than any walk between the same two cells. */
  ghost predicate Cheapest(g: Grid, s: Pos, r: AlgorithmResult) {
    r.success && IsWalk(g, r.shortestPath) ==>
      forall w :: IsWalk(g, w) && w[0] == s && Last(w) == Last(r.shortestPath) ==>
        Cost(g, r.shortestPath) <= Cost(g, w)
  }

  /** `Explores` for a run that stopped at an END, from its parts. */
  lemma ExploresFound(g: Grid, s: Pos, v: seq<Pos>, path: seq<Pos>)
    requires |v| >= 1 && v[0] == s && Distinct(v)
    requires forall i :: 0 <= i < |v| ==> Passable(g, v[i]) && (i < |v| - 1 ==> KindAt(g, v[i]) != End)
    requires Passable(g, Last(v)) && KindAt(g, Last(v)) == End
    requires IsWalk(g, path) && path[0] == s && Last(path) == Last(v)
    ensures Explores(g, s, AlgorithmResult(v, path, true))
  {
  }

  /** `Explores` for a run that ran out of cells to expand, from its parts. */
  lemma ExploresExhausted(g: Grid, s: Pos, v: seq<Pos>)
    requires |v| >= 1 && v[0] == s && Distinct(v)
    requires forall i :: 0 <= i < |v| ==> Passable(g, v[i]) && KindAt(g, v[i]) != End
    requires forall p :: p in v <==> Reachable(g, s, p)
    ensures Explores(g, s, AlgorithmResult(v, [], false))
  {
  }

  /**
   * Breadth-first order: right after the start come its neighbours, in the
   * order up, down, left, right (as far as the visit order reaches).
   */
  ghost predicate NeighboursFirst(g: Grid, s: Pos, r: AlgorithmResult)
    requires WellFormed(g)
  {
    var v, n := r.visitedNodesInOrder, Neighbors(g, s);
    forall i :: 1 <= i < |v| && i <= |n| ==> v[i] == n[i - 1]
  }

  /** Some walk from `s` to `t` has at most `len` cells. */
  ghost predicate WalkWithin(g: Grid, s: Pos, t: Pos, len: nat) {
    exists w :: IsWalk(g, w) && w[0] == s && Last(w) == t && |w| <= len
  }

  /**
   * Breadth-first order, level by level: every visited cell is at least as
   * near the start as any cell visited after it.
   */
  ghost predicate LevelOrder(g: Grid, s: Pos, r: AlgorithmResult) {
    var v := r.visitedNodesInOrder;
    forall i, j, w :: 0 <= i < j < |v| && IsWalk(g, w) && w[0] == s && Last(w) == v[j] ==> WalkWithin(g, s, v[i], |w|)
  }

  /** What `bfs` promises about `g`. */
  ghost predicate BfsContract(g: Grid, r: AlgorithmResult)
    requires WellFormed(g)
  {
    if MissingEndpoint(g) then r == NoResult
    else
      && Explores(g, StartOf(g), r) && FewestSteps(g, StartOf(g), r)
      && LevelOrder(g, StartOf(g), r) && NeighboursFirst(g, StartOf(g), r)
  }

  /**
   * The cells a depth-first run has discovered once the cells `expanded`
   * have been expanded: the start, and every passable neighbour of an
   * expanded cell (a cell counts as discovered as soon as it is pushed).
   */
  ghost predicate Discovered(g: Grid, s: Pos, expanded: seq<Pos>, u: Pos) {
    if expanded == [] then u == s
    else Discovered(g, s, expanded[..|expanded| - 1], u) || (Passable(g, u) && Adjacent(Last(expanded), u))
  }

  /** The members of `cands` not yet discovered, in their order. */
  ghost function Undiscovered(g: Grid, s: Pos, expanded: seq<Pos>, cands: seq<Pos>): (r: seq<Pos>)
    ensures |r| <= |cands|
  {
    if cands == [] then []
    else (if Discovered(g, s, expanded, cands[0]) then [] else [cands[0]])
         + Undiscovered(g, s, expanded, cands[1..])
  }

  /** The members of `cands` not in `visited`, in their order. */
  function Unvisited(visited: set<Pos>, cands: seq<Pos>): (r: seq<Pos>)
    ensures |r| <= |cands|
  {
    if cands == [] then []
    else (if cands[0] in visited then [] else [cands[0]]) + Unvisited(visited, cands[1..])
  }

  /**
   * The cells pushed when `order[j]` was expanded, its neighbours not
   * discovered before, that `order` has not visited yet.
   */
  ghost function Pending(g: Grid, s: Pos, order: seq<Pos>, j: nat): seq<Pos>
    requires WellFormed(g) && j < |order|
  {
    Unvisited((set p | p in order), Undiscovered(g, s, order[..j], Neighbors(g, order[j])))
  }

  /**
   * Where a depth-first run goes after visiting `order`, looking back from
   * `order[j]`: the first pending neighbour of the latest cell, not after
   * `order[j]`, that still has one.
   */
  ghost function Resume(g: Grid, s: Pos, order: seq<Pos>, j: nat): Option<Pos>
    requires WellFormed(g) && j < |order|
    decreases j
  {
    var pending := Pending(g, s, order, j);
    if pending != [] then Some(pending[0])
    else if j == 0 then None
    else Resume(g, s, order, j - 1)
  }

  /**
   * Step `i` of a depth-first visit order `v`: the next cell visited is the
   * first neighbour, in the order up, down, left, right, not discovered
   * before its expansion and not visited since, of `v[i]` when it has one,
   * and otherwise of the latest earlier cell that still has one.
   */
  ghost predicate DeepStep(g: Grid, s: Pos, v: seq<Pos>, i: nat)
    requires WellFormed(g) && i + 1 < |v|
  {
    Resume(g, s, v[..i + 1], i) == Some(v[i + 1])
  }

  /**
   * Depth-first order: every cell after the first is the first pending
   * neighbour of the latest visited cell that has one, so the run goes as
   * deep as it can and then backs up.
   */
  ghost predicate DeepensFirst(g: Grid, s: Pos, r: AlgorithmResult)
    requires WellFormed(g)
  {
    var v := r.visitedNodesInOrder;
    forall i: nat :: i + 1 < |v| ==> DeepStep(g, s, v, i)
  }

  /** What `dfs` promises about `g`. */
  ghost predicate DfsContract(g: Grid, r: AlgorithmResult)
    requires WellFormed(g)
  {
    if MissingEndpoint(g) then r == NoResult
    else Explores(g, StartOf(g), r) && DeepensFirst(g, StartOf(g), r)
  }

  /** Some walk from `s` to `t` costs at most `c`. */
  ghost predicate WalkCostWithin(g: Grid, s: Pos, t: Pos, c: nat) {
    exists w :: IsWalk(g, w) && w[0] == s && Last(w) == t && Cost(g, w) <= c
  }

  /**
   * Dijkstra order: every visited cell is at least as cheap to reach from
   * the start as any cell visited after it.
   */
  ghost predicate CostOrder(g: Grid, s: Pos, r: AlgorithmResult) {
    var v := r.visitedNodesInOrder;
    forall i, j, w :: 0 <= i < j < |v| && IsWalk(g, w) && w[0] == s && Last(w) == v[j] ==>
      WalkCostWithin(g, s, v[i], Cost(g, w))
  }

  /** What `dijkstra` promises about `g`. */
  ghost predicate DijkstraContract(g: Grid, r: AlgorithmResult)
    requires WellFormed(g)
  {
    if MissingEndpoint(g) then r == NoResult
    else Explores(g, StartOf(g), r) && Cheapest(g, StartOf(g), r) && CostOrder(g, StartOf(g), r)
  }

  /**
   * What `astar` and `greedy` promise about `g`: the heuristics steer the
   * order, but not what is found.
   */
  ghost predicate InformedContract(g: Grid, r: AlgorithmResult) {
    if MissingEndpoint(g) then r == NoResult else Explores(g, StartOf(g), r)
  }

  // ---------------------------------------------------------------------
  // Parent trees
  // ---------------------------------------------------------------------

  /**
   * The discovered cells `marked` form a tree rooted at `s` through `parent`:
   * every discovered cell but the root has a discovered, adjacent parent.
   */
  ghost predicate ParentTree(g: Grid, s: Pos, parent: map<Pos, Pos>, marked: set<Pos>) {
    && s in marked && parent.Keys == marked - {s}
    && (forall x :: x in marked ==> Passable(g, x))
    && (forall x :: x in parent ==> parent[x] in marked && Adjacent(parent[x], x))
  }

  /** What `ReconstructPath` returns for `c`. */
  ghost predicate ChainTo(parent: map<Pos, Pos>, path: seq<Pos>, c: Pos) {
    && |path| >= 1 && Last(path) == c && path[0] !in parent
    && (forall i :: 0 < i < |path| ==> path[i] in parent && parent[path[i]] == path[i - 1])
  }

  /** The parent chain of a discovered cell is a walk from the root. */
  lemma ChainIsWalk(g: Grid, s: Pos, parent: map<Pos, Pos>, marked: set<Pos>, path: seq<Pos>, c: Pos)
    requires ParentTree(g, s, parent, marked)
    requires ChainTo(parent, path, c) && c in marked
    ensures IsWalk(g, path) && path[0] == s
    ensures forall i :: 0 <= i < |path| ==> path[i] in marked
  {
    forall i | 0 <= i < |path| ensures path[i] in marked {
      if i < |path| - 1 {
        assert path[i] == parent[path[i + 1]];
      }
    }
  }

  /** Every cell has a parent chain when the parent links are ranked. */
  lemma {:induction false} ParentChain(parent: map<Pos, Pos>, rank: map<Pos, nat>, c: Pos) returns (path: seq<Pos>)
    requires Ranked(parent, rank)
    ensures ChainTo(parent, path, c)
    decreases if c in rank then rank[c] else 0
  {
    if c !in parent {
      path := [c];
    } else {
      var front := ParentChain(parent, rank, parent[c]);
      path := front + [c];
    }
  }

  /** Every cell of a ranked parent tree is reachable from its root. */
  lemma {:induction false} TreeCellReachable(g: Grid, s: Pos, parent: map<Pos, Pos>, rank: map<Pos, nat>,
                                             marked: set<Pos>, c: Pos)
    returns (w: seq<Pos>)
    requires ParentTree(g, s, parent, marked) && Ranked(parent, rank)
    requires c in marked
    ensures IsWalk(g, w) && w[0] == s && Last(w) == c
    ensures Reachable(g, s, c)
    decreases if c in rank then rank[c] else 0
  {
    if c == s {
      w := [s];
    } else {
      var w' := TreeCellReachable(g, s, parent, rank, marked, parent[c]);
      w := w' + [c];
      WalkExtend(g, w', c);
    }
  }

  /** A set that holds `s` and every passable cell next to one of its members. */
  ghost predicate ClosedUnderSteps(g: Grid, closed: set<Pos>) {
    forall v, u :: v in closed && Passable(g, u) && Adjacent(v, u) ==> u in closed
  }

  /** A set closed under steps that holds `s` holds every cell reachable from `s`. */
  lemma ClosedSetHoldsReachable(g: Grid, s: Pos, closed: set<Pos>, t: Pos)
    requires s in closed && ClosedUnderSteps(g, closed)
    requires Reachable(g, s, t)
    ensures t in closed
  {
    var w :| IsWalk(g, w) && w[0] == s && Last(w) == t;
    WalkInClosedSet(g, closed, w, |w| - 1);
  }

  lemma {:induction false} WalkInClosedSet(g: Grid, closed: set<Pos>, w: seq<Pos>, j: nat)
    requires ClosedUnderSteps(g, closed)
    requires IsWalk(g, w) && w[0] in closed && j < |w|
    ensures w[j] in closed
  {
    if j > 0 {
      WalkInClosedSet(g, closed, w, j - 1);
      assert Adjacent(w[j - 1], w[j]);
    }
  }

  /**
   * When a search runs out of frontier, its visited set is closed under
   * steps and is a ranked parent tree: it is exactly the set of cells
   * reachable from the start.
   */
  lemma ExhaustedSearchIsReachableSet(g: Grid, s: Pos, parent: map<Pos, Pos>, rank: map<Pos, nat>,
                                      marked: set<Pos>)
    requires ParentTree(g, s, parent, marked) && Ranked(parent, rank)
    requires ClosedUnderSteps(g, marked)
    ensures forall p :: p in marked <==> Reachable(g, s, p)
  {
    forall p ensures p in marked <==> Reachable(g, s, p) {
      if p in marked {
        var _ := TreeCellReachable(g, s, parent, rank, marked, p);
      }
      if Reachable(g, s, p) {
        ClosedSetHoldsReachable(g, s, marked, p);
      }
    }
  }

  /** A search that reads its own copy of the grid sees the same endpoints. */
  lemma SameLayoutEndpoints(g: Grid, h: Grid)
    requires SameLayout(g, h)
    ensures LastOfKind(g, Start) == LastOfKind(h, Start)
    ensures LastOfKind(g, End) == LastOfKind(h, End)
  {
    SameLayoutLastOfKind(g, h, Start);
    SameLayoutLastOfKind(g, h, End);
  }

  lemma SameLayoutLastOfKind(g: Grid, h: Grid, k: NodeType)
    requires SameLayout(g, h)
    ensures LastOfKind(g, k) == LastOfKind(h, k)
  {
    var a, b := LastOfKind(g, k), LastOfKind(h, k);
    if a.Some? && b.Some? {
      assert RowMajorLe(a.value, b.value) && RowMajorLe(b.value, a.value);
    }
  }

  // ---------------------------------------------------------------------
  // Shared by the searches
  // ---------------------------------------------------------------------

  /** None of `cells` is a wall or an END. */
  ghost predicate NoEndAmong(g: Grid, cells: seq<Pos>) {
    forall p :: p in cells ==> Passable(g, p) && KindAt(g, p) != End
  }

  lemma NoEndSnoc(g: Grid, cells: seq<Pos>, c: Pos)
    requires NoEndAmong(g, cells) && Passable(g, c) && KindAt(g, c) != End
    ensures NoEndAmong(g, cells + [c])
  {
  }

  /** The visit order lists the visited cells, once each; every visited cell has a score. */
  ghost predicate VisitOrder(order: seq<Pos>, visited: set<Pos>, score: map<Pos, nat>) {
    && Distinct(order)
    && (forall p {:trigger p in visited} :: p in visited <==> p in order)
    && visited <= score.Keys
  }

  // ---------------------------------------------------------------------
  // Filtering by a mark
  // ---------------------------------------------------------------------

  /** The filter keeps exactly the members not in `visited`. */
  lemma {:induction false} UnvisitedMembers(visited: set<Pos>, cands: seq<Pos>)
    ensures forall u :: u in Unvisited(visited, cands) <==> u in cands && u !in visited
  {
    if cands != [] {
      UnvisitedMembers(visited, cands[1..]);
      assert cands == [cands[0]] + cands[1..];
    }
  }

  /** Filtering a sequence with one more element at the back. */
  lemma {:induction false} UnvisitedSnoc(visited: set<Pos>, cands: seq<Pos>, u: Pos)
    ensures Unvisited(visited, cands + [u]) == Unvisited(visited, cands) + (if u in visited then [] else [u])
  {
    if cands != [] {
      assert (cands + [u])[1..] == cands[1..] + [u];
      UnvisitedSnoc(visited, cands[1..], u);
    }
  }

  /** Filtering distributes over concatenation. */
  lemma {:induction false} UnvisitedAppend(visited: set<Pos>, a: seq<Pos>, b: seq<Pos>)
    ensures Unvisited(visited, a + b) == Unvisited(visited, a) + Unvisited(visited, b)
  {
    if a != [] {
      var head := if a[0] in visited then [] else [a[0]];
      assert (a + b)[0] == a[0] && (a + b)[1..] == a[1..] + b;
      UnvisitedAppend(visited, a[1..], b);
      calc {
        Unvisited(visited, a + b);
        head + Unvisited(visited, a[1..] + b);
        head + (Unvisited(visited, a[1..]) + Unvisited(visited, b));
        (head + Unvisited(visited, a[1..])) + Unvisited(visited, b);
      }
    } else {
      assert a + b == b;
    }
  }

  /** Filtering commutes with reversal. */
  lemma {:induction false} UnvisitedReverse(visited: set<Pos>, cands: seq<Pos>)
    ensures Unvisited(visited, Reverse(cands)) == Reverse(Unvisited(visited, cands))
  {
    if cands != [] {
      var head := if cands[0] in visited then [] else [cands[0]];
      var rest := Unvisited(visited, cands[1..]);
      UnvisitedSnoc(visited, Reverse(cands[1..]), cands[0]);
      UnvisitedReverse(visited, cands[1..]);
      ReverseAppend(head, rest);
      assert Reverse(head) == head;
    }
  }

  /** Filtering by a union is filtering twice. */
  lemma {:induction false} UnvisitedUnion(a: set<Pos>, b: set<Pos>, cands: seq<Pos>)
    ensures Unvisited(a + b, cands) == Unvisited(b, Unvisited(a, cands))
  {
    if cands != [] {
      var rest := Unvisited(a, cands[1..]);
      UnvisitedUnion(a, b, cands[1..]);
      if cands[0] !in a {
        UnvisitedAppend(b, [cands[0]], rest);
        assert [cands[0]][1..] == [];
        assert Unvisited(a, cands) == [cands[0]] + rest;
      } else {
        assert Unvisited(a, cands) == rest;
      }
    }
  }

  /** A sequence none of whose members is marked passes the filter whole. */
  lemma {:induction false} UnvisitedNone(visited: set<Pos>, cands: seq<Pos>)
    requires forall u :: u in cands ==> u !in visited
    ensures Unvisited(visited, cands) == cands
  {
    if cands != [] {
      UnvisitedNone(visited, cands[1..]);
      assert cands == [cands[0]] + cands[1..];
    }
  }

  /** Filtering out the last member of a sequence without repeats drops it. */
  lemma UnvisitedDropLast(cands: seq<Pos>)
    requires |cands| > 0 && Distinct(cands)
    ensures Unvisited({Last(cands)}, cands) == cands[..|cands| - 1]
  {
    var n := |cands|;
    assert cands == cands[..n - 1] + [cands[n - 1]];
    UnvisitedSnoc({Last(cands)}, cands[..n - 1], cands[n - 1]);
    var init := cands[..n - 1];
    forall i | 0 <= i < |init| ensures init[i] != cands[n - 1] {
      assert init[i] == cands[i];
    }
    UnvisitedNone({Last(cands)}, init);
  }

  /**
   * When the visited cells are exactly the discovered ones, filtering by
   * the mark is filtering by discovery.
   */
  lemma {:induction false} UnvisitedIsUndiscovered(g: Grid, s: Pos, expanded: seq<Pos>, visited: set<Pos>, cands: seq<Pos>)
    requires forall p {:trigger p in visited} :: p in visited <==> Discovered(g, s, expanded, p)
    ensures Unvisited(visited, cands) == Undiscovered(g, s, expanded, cands)
  {
    if cands != [] {
      UnvisitedIsUndiscovered(g, s, expanded, visited, cands[1..]);
    }
  }
}
