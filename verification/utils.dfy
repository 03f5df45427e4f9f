/**
 * Helpers shared by the five searches: neighbour enumeration, path
 * reconstruction from parent links, the distance heuristics, cloning a
 * grid for a run and locating its endpoints.
 */
module SearchUtils {
  import opened Types
  import opened GridModel

  // ---------------------------------------------------------------------
  // Neighbours
  // ---------------------------------------------------------------------

  /** Row and column offsets in the fixed order up, down, left, right. */
  const DIRECTIONS: seq<(int, int)> := [(-1, 0), (1, 0), (0, -1), (0, 1)]

  function Toward(p: Pos, k: nat): Pos
    requires k < 4
  {
    Pos(p.row + DIRECTIONS[k].0, p.col + DIRECTIONS[k].1)
  }

  /** Which of the four directions leads from `p` to `q` (4 when none does). */
  function DirectionOf(p: Pos, q: Pos): nat {
    if q == Toward(p, 0) then 0
    else if q == Toward(p, 1) then 1
    else if q == Toward(p, 2) then 2
    else if q == Toward(p, 3) then 3
    else 4
  }

  /** The rows/cols bounds test and the wall test of the neighbour loop. */
  predicate Enterable(g: Grid, q: Pos)
    requires WellFormed(g)
  {
    0 <= q.row < |g| && 0 <= q.col < Cols(g) && g[q.row][q.col].nodeType != Wall
  }

  /** Non-wall neighbours of `p` among the first `k` directions, in direction order. */
  function NeighborsAmong(g: Grid, p: Pos, k: nat): (r: seq<Pos>)
    requires WellFormed(g) && k <= 4
    ensures |r| <= k
    ensures forall q :: q in r <==> exists i :: 0 <= i < k && q == Toward(p, i) && Passable(g, q)
    ensures forall i :: 0 <= i < |r| ==> DirectionOf(p, r[i]) < k
    ensures forall i, j :: 0 <= i < j < |r| ==> DirectionOf(p, r[i]) < DirectionOf(p, r[j])
  {
    if k == 0 then []
    else
      var q := Toward(p, k - 1);
      assert DirectionOf(p, q) == k - 1;
      NeighborsAmong(g, p, k - 1) + (if Enterable(g, q) then [q] else [])
  }

  /** `getNeighbors` without diagonals. */
  function Neighbors(g: Grid, p: Pos): (r: seq<Pos>)
    requires WellFormed(g)
    ensures |r| <= 4
    ensures forall q :: q in r <==> Passable(g, q) && Adjacent(p, q)
    ensures forall i, j :: 0 <= i < j < |r| ==> DirectionOf(p, r[i]) < DirectionOf(p, r[j])
    ensures Distinct(r)
  {
    var r := NeighborsAmong(g, p, 4);
    forall q ensures Adjacent(p, q) <==> exists i :: 0 <= i < 4 && q == Toward(p, i) {
      if Adjacent(p, q) {
        AdjacentIsOneStep(p, q);
      }
    }
    r
  }

  lemma AdjacentIsOneStep(p: Pos, q: Pos)
    requires Adjacent(p, q)
    ensures DirectionOf(p, q) < 4
  {
  }

  /** Neighbour enumeration looks only at cell kinds. */
  lemma SameLayoutNeighbors(g: Grid, h: Grid, p: Pos)
    requires WellFormed(g) && WellFormed(h) && SameLayout(g, h)
    ensures Neighbors(g, p) == Neighbors(h, p)
  {
    SameLayoutNeighborsAmong(g, h, p, 4);
  }

  lemma {:induction false} SameLayoutNeighborsAmong(g: Grid, h: Grid, p: Pos, k: nat)
    requires WellFormed(g) && WellFormed(h) && SameLayout(g, h) && k <= 4
    ensures NeighborsAmong(g, p, k) == NeighborsAmong(h, p, k)
  {
    if k > 0 {
      SameLayoutNeighborsAmong(g, h, p, k - 1);
    }
  }

  /** The neighbour loop of `getNeighbors`, up/down/left/right. */
  method GetNeighbors(g: Grid, node: Pos) returns (neighbors: seq<Pos>)
    requires WellFormed(g) && |g| > 0
    ensures neighbors == Neighbors(g, node)
  {
    neighbors := [];
    var rows := |g|;
    var cols := |g[0]|;
    for k := 0 to 4
      invariant neighbors == NeighborsAmong(g, node, k)
    {
      var (dRow, dCol) := DIRECTIONS[k];
      var newRow := node.row + dRow;
      var newCol := node.col + dCol;
      assert Pos(newRow, newCol) == Toward(node, k);
      assert NeighborsAmong(g, node, k + 1) ==
        neighbors + (if Enterable(g, Toward(node, k)) then [Toward(node, k)] else []);
      if newRow >= 0 && newRow < rows && newCol >= 0 && newCol < cols {
        var neighbor := g[newRow][newCol];
        if neighbor.nodeType != Wall {
          neighbors := neighbors + [Pos(newRow, newCol)];
        }
      }
    }
  }

  // ---------------------------------------------------------------------
  // Parent links
  // ---------------------------------------------------------------------

  /**
   * `rank` witnesses that following parent links always descends, so the
   * chain from any cell ends at a cell without a parent.
   */
  ghost predicate Ranked(parent: map<Pos, Pos>, rank: map<Pos, nat>) {
    forall c :: c in parent ==> c in rank && parent[c] in rank && rank[parent[c]] < rank[c]
  }

  /** `reconstructPath`: walk the parent links back from `endNode`, prepending each cell. */
  method ReconstructPath(parent: map<Pos, Pos>, endNode: Pos, ghost rank: map<Pos, nat>)
    returns (path: seq<Pos>)
    requires Ranked(parent, rank)
    ensures |path| >= 1 && Last(path) == endNode
    ensures path[0] !in parent
    ensures forall i :: 0 < i < |path| ==> path[i] in parent && parent[path[i]] == path[i - 1]
  {
    path := [];
    var current: Option<Pos> := Some(endNode);
    while current.Some?
      invariant path == [] ==> current == Some(endNode)
      invariant path != [] ==> Last(path) == endNode
      invariant path != [] && current.Some? ==> path[0] in parent && parent[path[0]] == current.value
      invariant path != [] && current.None? ==> path[0] !in parent
      invariant forall i :: 0 < i < |path| ==> path[i] in parent && parent[path[i]] == path[i - 1]
      decreases if current.None? then 0 else if current.value in rank then rank[current.value] + 2 else 1
    {
      var node := current.value;
      path := [node] + path;
      current := if node in parent then Some(parent[node]) else None;
    }
  }

  // ---------------------------------------------------------------------
  // Heuristics
  // ---------------------------------------------------------------------

  function Manhattan(a: Pos, b: Pos): (d: nat)
    ensures d == 0 <==> a == b
  {
    Abs(a.row - b.row) + Abs(a.col - b.col)
  }

  function Chebyshev(a: Pos, b: Pos): (d: nat)
    ensures d == 0 <==> a == b
    ensures d <= Manhattan(a, b)
  {
    var dr, dc := Abs(a.row - b.row), Abs(a.col - b.col);
    if dr >= dc then dr else dc
  }

  lemma HeuristicsSymmetric(a: Pos, b: Pos)
    ensures Manhattan(a, b) == Manhattan(b, a)
    ensures Chebyshev(a, b) == Chebyshev(b, a)
  {
  }

  /** The Manhattan distance never exceeds the number of steps of a walk, nor its cost. */
  lemma {:induction false} ManhattanAdmissible(g: Grid, w: seq<Pos>)
    requires IsWalk(g, w)
    ensures Manhattan(w[0], Last(w)) <= |w| - 1 <= Cost(g, w)
    decreases |w|
  {
    if |w| > 1 {
      var v := w[..|w| - 1];
      WalkPrefix(g, w, |w| - 1);
      ManhattanAdmissible(g, v);
      assert Adjacent(Last(v), Last(w));
      assert w == v + [Last(w)];
      CostExtend(g, v, Last(w));
    }
  }

  datatype HeuristicType = ManhattanH | EuclideanH | ChebyshevH

  /** `getHeuristic`: a name to its heuristic; unknown names fall back to Manhattan. */
  function GetHeuristic(name: string): (h: HeuristicType)
    ensures name == "euclidean" <==> h == EuclideanH
    ensures name == "chebyshev" <==> h == ChebyshevH
    ensures h == ManhattanH <==> name != "euclidean" && name != "chebyshev"
  {
    match name
    case "manhattan" => ManhattanH
    case "euclidean" => EuclideanH
    case "chebyshev" => ChebyshevH
    case _ => ManhattanH
  }

  /** The integer-valued heuristics (Euclidean is not modelled). */
  function Estimate(h: HeuristicType, a: Pos, b: Pos): (d: nat)
    requires h != EuclideanH
    ensures d <= Manhattan(a, b)
    ensures d == 0 <==> a == b
  {
    if h == ChebyshevH then Chebyshev(a, b) else Manhattan(a, b)
  }

  // ---------------------------------------------------------------------
  // Cloning and endpoints
  // ---------------------------------------------------------------------

  /** The per-run search fields at their initial values. */
  predicate SearchFieldsReset(n: Node) {
    && n.parent == None && !n.isVisited && !n.isPath
    && n.distance == Infinity && n.gScore == Infinity && n.fScore == Infinity
    && n.heuristic == 0
  }

  function ResetNode(n: Node): (m: Node)
    ensures SearchFieldsReset(m)
    ensures m.row == n.row && m.col == n.col && m.nodeType == n.nodeType && m.terrain == n.terrain
  {
    n.(parent := None, isVisited := false, isPath := false,
       distance := Infinity, gScore := Infinity, fScore := Infinity, heuristic := 0)
  }

  /** `cloneGrid`: same shape, kinds, terrain and coordinates; fresh search fields. */
  function CloneGrid(g: Grid): (h: Grid)
    ensures |h| == |g| && forall r :: 0 <= r < |g| ==> |h[r]| == |g[r]|
    ensures SameLayout(g, h)
    ensures WellFormed(g) ==> WellFormed(h)
    ensures forall r, c :: 0 <= r < |g| && 0 <= c < |g[r]| ==>
              h[r][c].row == g[r][c].row && h[r][c].col == g[r][c].col && SearchFieldsReset(h[r][c])
  {
    seq(|g|, r requires 0 <= r < |g| =>
      seq(|g[r]|, c requires 0 <= c < |g[r]| => ResetNode(g[r][c])))
  }

  /** Row-major order: `p` is scanned no later than `q`. */
  predicate RowMajorLe(p: Pos, q: Pos) {
    p.row < q.row || (p.row == q.row && p.col <= q.col)
  }

  /** Column of the last cell of kind `k` among the first `n` of a row. */
  function LastInRow(row: seq<Node>, k: NodeType, n: nat): (r: Option<nat>)
    requires n <= |row|
    ensures r.None? <==> forall c :: 0 <= c < n ==> row[c].nodeType != k
    ensures r.Some? ==> r.value < n && row[r.value].nodeType == k &&
                        forall c :: r.value < c < n ==> row[c].nodeType != k
  {
    if n == 0 then None
    else if row[n - 1].nodeType == k then Some(n - 1)
    else LastInRow(row, k, n - 1)
  }

  /** The last cell of kind `k`, in row-major order, among the first `n` rows. */
  function LastInRows(g: Grid, k: NodeType, n: nat): (r: Option<Pos>)
    requires n <= |g|
    ensures r.None? <==> forall p :: InBounds(g, p) && p.row < n ==> KindAt(g, p) != k
    ensures r.Some? ==> InBounds(g, r.value) && r.value.row < n && KindAt(g, r.value) == k &&
                        forall p :: InBounds(g, p) && p.row < n && KindAt(g, p) == k ==> RowMajorLe(p, r.value)
  {
    if n == 0 then None
    else
      match LastInRow(g[n - 1], k, |g[n - 1]|)
      case Some(c) => Some(Pos(n - 1, c))
      case None =>
        var r := LastInRows(g, k, n - 1);
        assert forall p :: InBounds(g, p) && p.row == n - 1 ==> g[n - 1][p.col].nodeType != k;
        r
  }

  /** The last cell of kind `k` in row-major order, if any. */
  function LastOfKind(g: Grid, k: NodeType): (r: Option<Pos>)
    ensures r.None? <==> forall p :: InBounds(g, p) ==> KindAt(g, p) != k
    ensures r.Some? ==> InBounds(g, r.value) && KindAt(g, r.value) == k &&
                        forall p :: InBounds(g, p) && KindAt(g, p) == k ==> RowMajorLe(p, r.value)
  {
    LastInRows(g, k, |g|)
  }

  /** `findStartAndEnd`: one row-major scan that keeps the last START and the last END. */
  method FindStartAndEnd(g: Grid) returns (start: Option<Pos>, end: Option<Pos>)
    requires WellFormed(g)
    ensures start == LastOfKind(g, Start) && end == LastOfKind(g, End)
  {
    start, end := None, None;
    for r := 0 to |g|
      invariant start == LastInRows(g, Start, r) && end == LastInRows(g, End, r)
    {
      var row := g[r];
      for c := 0 to |row|
        invariant start == (match LastInRow(row, Start, c)
                            case Some(col) => Some(Pos(r, col))
                            case None => LastInRows(g, Start, r))
        invariant end == (match LastInRow(row, End, c)
                          case Some(col) => Some(Pos(r, col))
                          case None => LastInRows(g, End, r))
      {
        var node := row[c];
        if node.nodeType == Start {
          start := Some(Pos(node.row, node.col));
        } else if node.nodeType == End {
          end := Some(Pos(node.row, node.col));
        }
      }
    }
  }
}
