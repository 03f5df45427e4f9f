/**
 * The loop invariant of depth-first search and the lemmas that carry it
 * from one pop or push to the next.
 */
module DepthFirstInvariant {
  import opened Types
  import opened GridModel
  import opened SearchUtils
  import opened SearchSpec

  /** A neighbour not marked before the neighbour loop began is pushed. */
  lemma StackPush(stack0: seq<Pos>, visited0: set<Pos>, stack: seq<Pos>, done: seq<Pos>, u: Pos)
    requires stack == stack0 + Unvisited(visited0, done) && u !in visited0
    ensures stack + [u] == stack0 + Unvisited(visited0, done + [u])
  {
    UnvisitedSnoc(visited0, done, u);
  }

  /** A neighbour marked before the neighbour loop began is passed over. */
  lemma StackSkip(stack0: seq<Pos>, visited0: set<Pos>, stack: seq<Pos>, done: seq<Pos>, u: Pos)
    requires stack == stack0 + Unvisited(visited0, done) && u in visited0
    ensures stack == stack0 + Unvisited(visited0, done + [u])
  {
    UnvisitedSnoc(visited0, done, u);
  }

  // ---------------------------------------------------------------------
  // The loop invariant and its steps
  // ---------------------------------------------------------------------

  /**
   * The discovered cells form a parent tree rooted at `s` whose inner cells
   * are all expanded, each cell one level deeper than its parent.
   */
  ghost predicate Tree(g: Grid, s: Pos, order: seq<Pos>, visited: set<Pos>, parent: map<Pos, Pos>, depth: map<Pos, nat>) {
    && ParentTree(g, s, parent, visited)
    && depth.Keys == visited && depth[s] == 0
    && (forall c :: c in parent ==> parent[c] in order && depth[c] == depth[parent[c]] + 1)
  }

  /** Every discovered cell is either expanded or on the stack, and only once. */
  ghost predicate Line(order: seq<Pos>, stack: seq<Pos>, visited: set<Pos>) {
    && Distinct(order) && Distinct(stack)
    && (forall i :: 0 <= i < |stack| ==> stack[i] !in order)
    && (forall p {:trigger p in visited} :: p in visited <==> p in order || p in stack)
  }

  /** Every passable cell next to an expanded cell has been discovered. */
  ghost predicate Closure(g: Grid, expanded: seq<Pos>, visited: set<Pos>) {
    forall v, u :: v in expanded && Passable(g, u) && Adjacent(v, u) ==> u in visited
  }

  /** The visit order starts at `s` and goes depth first. */
  ghost predicate FirstSteps(g: Grid, s: Pos, order: seq<Pos>)
    requires WellFormed(g)
  {
    |order| >= 1 && order[0] == s && DeepensFirst(g, s, AlgorithmResult(order, [], false))
  }

  /**
   * The stack after `order[..k]` has been expanded and `order` visited: for
   * each expanded cell in turn, its pending neighbours, last first.
   */
  ghost function Frontier(g: Grid, s: Pos, order: seq<Pos>, k: nat): seq<Pos>
    requires WellFormed(g) && k <= |order|
    decreases k
  {
    if k == 0 then [] else Frontier(g, s, order, k - 1) + Reverse(Pending(g, s, order, k - 1))
  }

  /** The state between two pops; `order` is `visitedNodesInOrder`. */
  ghost predicate DfsState(g: Grid, s: Pos, order: seq<Pos>, stack: seq<Pos>, visited: set<Pos>,
                           parent: map<Pos, Pos>, depth: map<Pos, nat>)
    requires WellFormed(g)
  {
    && Tree(g, s, order, visited, parent, depth)
    && Line(order, stack, visited)
    && Closure(g, order, visited)
    && NoEndAmong(g, order)
    && (forall p {:trigger p in visited} :: p in visited <==> Discovered(g, s, order, p))
    && (order == [] ==> stack == [s])
    && (order != [] ==> FirstSteps(g, s, order) && stack == Frontier(g, s, order, |order|))
  }

  /**
   * The state while the neighbours of `current` are examined, `done` being
   * those already examined.
   */
  ghost predicate Expanding(g: Grid, s: Pos, expanded: seq<Pos>, current: Pos, stack: seq<Pos>, visited: set<Pos>,
                            parent: map<Pos, Pos>, depth: map<Pos, nat>, done: seq<Pos>)
    requires WellFormed(g)
  {
    var order := expanded + [current];
    && Tree(g, s, order, visited, parent, depth)
    && Line(order, stack, visited)
    && Closure(g, expanded, visited)
    && NoEndAmong(g, expanded)
    && (forall u :: u in done ==> u in visited)
  }

  lemma DfsStart(g: Grid, s: Pos)
    requires WellFormed(g) && Passable(g, s)
    ensures DfsState(g, s, [], [s], {s}, map[], map[s := 0])
  {
  }

  /** Taking the top of the stack starts its expansion. */
  lemma DfsPop(g: Grid, s: Pos, order: seq<Pos>, stack: seq<Pos>, visited: set<Pos>,
               parent: map<Pos, Pos>, depth: map<Pos, nat>)
    requires WellFormed(g) && DfsState(g, s, order, stack, visited, parent, depth)
    requires |stack| > 0
    ensures Passable(g, stack[|stack| - 1]) && Ranked(parent, depth)
    ensures Expanding(g, s, order, stack[|stack| - 1], stack[..|stack| - 1], visited, parent, depth, [])
    ensures FirstSteps(g, s, order + [stack[|stack| - 1]])
    ensures stack[..|stack| - 1] == Frontier(g, s, order + [stack[|stack| - 1]], |order|)
  {
    var top, rest := stack[|stack| - 1], stack[..|stack| - 1];
    LinePop(order, stack, visited);
    assert top in visited;
    DeepensFurther(g, s, order, top, stack);
    if order != [] {
      FrontierPop(g, s, order, top, |order|);
      UnvisitedDropLast(stack);
    }
  }

  /** Popping the top of the stack extends a depth-first visit order. */
  lemma DeepensFurther(g: Grid, s: Pos, order: seq<Pos>, top: Pos, stack: seq<Pos>)
    requires WellFormed(g) && |stack| > 0 && top == Last(stack)
    requires order == [] ==> top == s
    requires order != [] ==> FirstSteps(g, s, order) && stack == Frontier(g, s, order, |order|)
    ensures FirstSteps(g, s, order + [top])
  {
    var v := order + [top];
    forall i: nat | i + 1 < |v| ensures DeepStep(g, s, v, i) {
      if i + 1 < |order| {
        DeepStepKept(g, s, order, top, i);
      } else {
        DeepStepTop(g, s, order, top, stack);
      }
    }
  }

  /** The cell popped after `order` is the step that follows its last cell. */
  lemma DeepStepTop(g: Grid, s: Pos, order: seq<Pos>, top: Pos, stack: seq<Pos>)
    requires WellFormed(g) && |order| >= 1 && |stack| > 0 && top == Last(stack)
    requires stack == Frontier(g, s, order, |order|)
    ensures DeepStep(g, s, order + [top], |order| - 1)
  {
    assert (order + [top])[..|order|] == order;
    FrontierTop(g, s, order, |order|);
  }

  /** The top of the stack is where the run resumes. */
  lemma {:induction false} FrontierTop(g: Grid, s: Pos, order: seq<Pos>, k: nat)
    requires WellFormed(g) && 1 <= k <= |order|
    ensures var f := Frontier(g, s, order, k);
      f != [] ==> Resume(g, s, order, k - 1) == Some(Last(f))
  {
    var pending := Pending(g, s, order, k - 1);
    if pending != [] {
      assert Last(Reverse(pending)) == pending[0];
    } else if k > 1 {
      assert Reverse(pending) == [];
      FrontierTop(g, s, order, k - 1);
    }
  }

  /** Visiting `t` takes it off the pending lists and nothing else. */
  lemma {:induction false} FrontierPop(g: Grid, s: Pos, order: seq<Pos>, t: Pos, k: nat)
    requires WellFormed(g) && k <= |order|
    ensures Frontier(g, s, order + [t], k) == Unvisited({t}, Frontier(g, s, order, k))
  {
    if k > 0 {
      FrontierPop(g, s, order, t, k - 1);
      PendingPop(g, s, order, t, k - 1);
      FrontierPopStep(g, s, order, t, k);
    }
  }

  lemma FrontierPopStep(g: Grid, s: Pos, order: seq<Pos>, t: Pos, k: nat)
    requires WellFormed(g) && 0 < k <= |order|
    requires Frontier(g, s, order + [t], k - 1) == Unvisited({t}, Frontier(g, s, order, k - 1))
    requires Pending(g, s, order + [t], k - 1) == Unvisited({t}, Pending(g, s, order, k - 1))
    ensures Frontier(g, s, order + [t], k) == Unvisited({t}, Frontier(g, s, order, k))
  {
    UnvisitedOnTop({t}, Frontier(g, s, order, k - 1), Pending(g, s, order, k - 1),
                   Frontier(g, s, order + [t], k - 1), Pending(g, s, order + [t], k - 1));
  }

  /** Filtering a stack with a reversed list pushed on top. */
  lemma UnvisitedOnTop(visited: set<Pos>, below: seq<Pos>, pushed: seq<Pos>, below': seq<Pos>, pushed': seq<Pos>)
    requires below' == Unvisited(visited, below) && pushed' == Unvisited(visited, pushed)
    ensures below' + Reverse(pushed') == Unvisited(visited, below + Reverse(pushed))
  {
    UnvisitedReverse(visited, pushed);
    UnvisitedAppend(visited, below, Reverse(pushed));
  }

  lemma PendingPop(g: Grid, s: Pos, order: seq<Pos>, t: Pos, j: nat)
    requires WellFormed(g) && j < |order|
    ensures Pending(g, s, order + [t], j) == Unvisited({t}, Pending(g, s, order, j))
  {
    var v := order + [t];
    assert v[..j] == order[..j] && v[j] == order[j];
    assert (set p | p in v) == (set p | p in order) + {t};
    UnvisitedUnion((set p | p in order), {t}, Undiscovered(g, s, order[..j], Neighbors(g, order[j])));
  }

  /** Appending to a visit order keeps its earlier steps. */
  lemma DeepStepKept(g: Grid, s: Pos, order: seq<Pos>, top: Pos, i: nat)
    requires WellFormed(g) && i + 1 < |order| && DeepStep(g, s, order, i)
    ensures DeepStep(g, s, order + [top], i)
  {
    assert (order + [top])[..i + 1] == order[..i + 1];
  }

  lemma LinePop(order: seq<Pos>, stack: seq<Pos>, visited: set<Pos>)
    requires Line(order, stack, visited) && |stack| > 0
    ensures stack[|stack| - 1] in visited
    ensures Line(order + [stack[|stack| - 1]], stack[..|stack| - 1], visited)
  {
    var top, rest := stack[|stack| - 1], stack[..|stack| - 1];
    assert stack == rest + [top];
    assert top in stack;
    forall i | 0 <= i < |rest| ensures rest[i] !in order + [top] {
      assert rest[i] == stack[i];
    }
  }

  lemma LinePush(order: seq<Pos>, stack: seq<Pos>, visited: set<Pos>, u: Pos)
    requires Line(order, stack, visited) && u !in visited
    ensures Line(order, stack + [u], visited + {u})
  {
    assert u !in stack;
  }

  lemma TreePush(g: Grid, s: Pos, order: seq<Pos>, visited: set<Pos>, parent: map<Pos, Pos>, depth: map<Pos, nat>,
                 current: Pos, u: Pos)
    requires Tree(g, s, order, visited, parent, depth)
    requires current in order && current in visited
    requires u !in visited && Passable(g, u) && Adjacent(current, u)
    ensures Tree(g, s, order, visited + {u}, parent[u := current], depth[u := depth[current] + 1])
  {
  }

  /** An undiscovered neighbour is pushed. */
  lemma DfsPush(g: Grid, s: Pos, expanded: seq<Pos>, current: Pos, stack: seq<Pos>, visited: set<Pos>,
                parent: map<Pos, Pos>, depth: map<Pos, nat>, done: seq<Pos>, u: Pos)
    requires WellFormed(g) && Expanding(g, s, expanded, current, stack, visited, parent, depth, done)
    requires u in Neighbors(g, current) && u !in visited
    ensures Passable(g, u)
    ensures Expanding(g, s, expanded, current, stack + [u], visited + {u},
                      parent[u := current], depth[u := depth[current] + 1], done + [u])
  {
    var order := expanded + [current];
    assert current in visited;
    TreePush(g, s, order, visited, parent, depth, current, u);
    LinePush(order, stack, visited, u);
  }

  /** An already discovered neighbour changes nothing. */
  lemma DfsSkip(g: Grid, s: Pos, expanded: seq<Pos>, current: Pos, stack: seq<Pos>, visited: set<Pos>,
                parent: map<Pos, Pos>, depth: map<Pos, nat>, done: seq<Pos>, u: Pos)
    requires WellFormed(g) && Expanding(g, s, expanded, current, stack, visited, parent, depth, done)
    requires u in Neighbors(g, current) && u in visited && u !in done
    ensures Expanding(g, s, expanded, current, stack, visited, parent, depth, done + [u])
  {
  }

  /** After the last neighbour, `current` counts as expanded. */
  lemma DfsExpanded(g: Grid, s: Pos, expanded: seq<Pos>, current: Pos,
                    stack0: seq<Pos>, visited0: set<Pos>,
                    stack: seq<Pos>, visited: set<Pos>, parent: map<Pos, Pos>, depth: map<Pos, nat>, neighbors: seq<Pos>)
    requires WellFormed(g) && Expanding(g, s, expanded, current, stack, visited, parent, depth, neighbors)
    requires neighbors == Reverse(Neighbors(g, current))
    requires forall p {:trigger p in visited0} :: p in visited0 <==> Discovered(g, s, expanded, p)
    requires stack0 == Frontier(g, s, expanded + [current], |expanded|)
    requires forall p :: p in expanded + [current] ==> p in visited0
    requires stack == stack0 + Unvisited(visited0, neighbors)
    requires forall u {:trigger u in visited} :: u in visited <==> u in visited0 || u in neighbors
    requires Passable(g, current) && KindAt(g, current) != End && FirstSteps(g, s, expanded + [current])
    ensures DfsState(g, s, expanded + [current], stack, visited, parent, depth)
  {
    var order := expanded + [current];
    ReverseKeeps(Neighbors(g, current));
    UnvisitedReverse(visited0, Neighbors(g, current));
    assert order[..|expanded|] == expanded;
    forall p ensures p in visited <==> Discovered(g, s, order, p) {
      DiscoveredSnoc(g, s, expanded, current, p);
    }
    UnvisitedIsUndiscovered(g, s, expanded, visited0, Neighbors(g, current));
    forall v, u | v in order && Passable(g, u) && Adjacent(v, u)
      ensures u in visited
    {
      if v !in expanded {
        assert v == current;
        assert u in neighbors;
      }
    }
    FrontierExpanded(g, s, expanded, current, visited0);
  }

  /** The neighbours `current` pushes go on top of the earlier frontier. */
  lemma FrontierExpanded(g: Grid, s: Pos, expanded: seq<Pos>, current: Pos, visited0: set<Pos>)
    requires WellFormed(g)
    requires forall p {:trigger p in visited0} :: p in visited0 <==> Discovered(g, s, expanded, p)
    requires forall p :: p in expanded + [current] ==> p in visited0
    ensures var order := expanded + [current];
      Frontier(g, s, order, |order|)
        == Frontier(g, s, order, |expanded|) + Reverse(Unvisited(visited0, Neighbors(g, current)))
  {
    var order := expanded + [current];
    var unseen := Unvisited(visited0, Neighbors(g, current));
    assert order[..|expanded|] == expanded && order[|expanded|] == current;
    UnvisitedIsUndiscovered(g, s, expanded, visited0, Neighbors(g, current));
    UnvisitedMembers(visited0, Neighbors(g, current));
    UnvisitedNone((set p | p in order), unseen);
  }

  /** `current` is an END: its parent chain is a walk from the start. */
  lemma DfsFound(g: Grid, s: Pos, expanded: seq<Pos>, current: Pos, stack: seq<Pos>, visited: set<Pos>,
                 parent: map<Pos, Pos>, path: seq<Pos>)
    requires WellFormed(g) && ParentTree(g, s, parent, visited) && current in visited
    requires Line(expanded + [current], stack, visited) && NoEndAmong(g, expanded)
    requires FirstSteps(g, s, expanded + [current])
    requires Passable(g, current) && KindAt(g, current) == End
    requires ChainTo(parent, path, current)
    ensures var r := AlgorithmResult(expanded + [current], path, true);
      Explores(g, s, r) && DeepensFirst(g, s, r)
  {
    ChainIsWalk(g, s, parent, visited, path, current);
    FoundOrder(g, s, expanded, current, stack, visited, path);
    ExploresFound(g, s, expanded + [current], path);
  }

  /** The visit order of a successful run: distinct and wall-free, no END before the last. */
  lemma FoundOrder(g: Grid, s: Pos, expanded: seq<Pos>, current: Pos, stack: seq<Pos>, visited: set<Pos>,
                   path: seq<Pos>)
    requires WellFormed(g) && Line(expanded + [current], stack, visited) && NoEndAmong(g, expanded)
    requires Passable(g, current) && FirstSteps(g, s, expanded + [current])
    ensures var v := expanded + [current];
      && v[0] == s && Distinct(v)
      && DeepensFirst(g, s, AlgorithmResult(v, path, true))
      && (forall i :: 0 <= i < |v| ==> Passable(g, v[i]))
      && (forall i :: 0 <= i < |v| - 1 ==> KindAt(g, v[i]) != End)
  {
    var v := expanded + [current];
    forall i | 0 <= i < |v| - 1
      ensures Passable(g, v[i]) && KindAt(g, v[i]) != End
    {
      assert v[i] in expanded;
    }
  }

  /** The stack ran dry: every reachable cell was expanded and no END among them. */
  lemma DfsExhausted(g: Grid, s: Pos, order: seq<Pos>, visited: set<Pos>,
                     parent: map<Pos, Pos>, depth: map<Pos, nat>)
    requires WellFormed(g) && DfsState(g, s, order, [], visited, parent, depth)
    ensures var r := AlgorithmResult(order, [], false);
      Explores(g, s, r) && DeepensFirst(g, s, r)
  {
    ExhaustedOrder(g, order, visited);
    ExhaustedSearchIsReachableSet(g, s, parent, depth, visited);
    ExploresExhausted(g, s, order);
  }

  /** With the stack empty, every visited cell has been expanded. */
  lemma ExhaustedOrder(g: Grid, order: seq<Pos>, visited: set<Pos>)
    requires Line(order, [], visited) && NoEndAmong(g, order) && Closure(g, order, visited)
    ensures forall i :: 0 <= i < |order| ==> Passable(g, order[i]) && KindAt(g, order[i]) != End
    ensures forall p {:trigger p in visited} :: p in visited <==> p in order
    ensures ClosedUnderSteps(g, visited)
  {
    forall i | 0 <= i < |order|
      ensures Passable(g, order[i]) && KindAt(g, order[i]) != End
    {
      assert order[i] in order;
    }
  }

  // ---------------------------------------------------------------------
  // Discovered cells
  // ---------------------------------------------------------------------

  /** Expanding one more cell discovers exactly its passable neighbours. */
  lemma DiscoveredSnoc(g: Grid, s: Pos, expanded: seq<Pos>, c: Pos, u: Pos)
    ensures Discovered(g, s, expanded + [c], u) <==> Discovered(g, s, expanded, u) || (Passable(g, u) && Adjacent(c, u))
  {
    assert (expanded + [c])[..|expanded|] == expanded;
  }
}
