/**
 * Parent trees weighted by terrain, shared by the searches that keep a
 * running cost per cell.
 */
module WeightedTrees {
  import opened Types
  import opened GridModel
  import opened SearchUtils
  import opened SearchSpec

  // ---------------------------------------------------------------------
  // Parent trees weighted by terrain
  // ---------------------------------------------------------------------

  /**
   * The cells with a score form a parent tree rooted at `s`; each parent is
   * visited and each cell's score is its parent's plus the terrain of the
   * cell.
   */
  ghost predicate CostTree(g: Grid, s: Pos, visited: set<Pos>, score: map<Pos, nat>, parent: map<Pos, Pos>) {
    && ParentTree(g, s, parent, score.Keys)
    && s in score && score[s] == 0
    && (forall c :: c in parent ==>
          && c in score && parent[c] in score && parent[c] in visited && InBounds(g, c)
          && score[c] == score[parent[c]] + TerrainAt(g, c))
  }

  /** Parents score strictly less than their children, so parent chains end. */
  lemma CostTreeRanked(g: Grid, s: Pos, visited: set<Pos>, score: map<Pos, nat>, parent: map<Pos, Pos>)
    requires CostTree(g, s, visited, score, parent)
    ensures Ranked(parent, score)
  {
  }

  /** Visiting one more cell keeps the tree. */
  lemma CostTreeGrow(g: Grid, s: Pos, visited: set<Pos>, score: map<Pos, nat>, parent: map<Pos, Pos>, c: Pos)
    requires CostTree(g, s, visited, score, parent)
    ensures CostTree(g, s, visited + {c}, score, parent)
  {
  }

  /** A cell reached from a visited neighbour `current` joins the tree below it. */
  lemma CostTreeRelax(g: Grid, s: Pos, current: Pos, visited: set<Pos>, score: map<Pos, nat>, parent: map<Pos, Pos>,
                      u: Pos, d: nat)
    requires CostTree(g, s, visited, score, parent) && s in visited && current in visited && current in score
    requires Passable(g, u) && Adjacent(current, u) && u !in visited
    requires d == score[current] + TerrainAt(g, u)
    ensures CostTree(g, s, visited, score[u := d], parent[u := current])
  {
  }

  /** Following a parent chain costs exactly the score of the cell it ends at. */
  lemma {:induction false} ChainCost(g: Grid, s: Pos, visited: set<Pos>, score: map<Pos, nat>, parent: map<Pos, Pos>,
                                     path: seq<Pos>, c: Pos)
    requires CostTree(g, s, visited, score, parent)
    requires ChainTo(parent, path, c) && c in score && IsWalk(g, path)
    ensures Cost(g, path) == score[c]
    decreases |path|
  {
    if |path| == 1 {
      assert c !in parent;
    } else {
      var front := path[..|path| - 1];
      WalkPrefix(g, path, |path| - 1);
      assert Last(front) == parent[c];
      ChainCost(g, s, visited, score, parent, front, parent[c]);
    }
  }
}
