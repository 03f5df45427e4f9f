/**
 * The grid store: the editable grid, the tracked START and END cells, and
 * the actions the UI applies to them. The store's fields become the fields
 * of `GridStore`; each action assigns them. The whole-grid rewrites
 * (`clearPath`, `clearWalls`, `updateNode`) are pure maps over the grid and
 * are functions here.
 */
module Store {
  import opened Types
  import opened GridModel
  import opened SearchUtils

  // ---------------------------------------------------------------------
  // Fresh nodes and grids
  // ---------------------------------------------------------------------

  /** `createNode`: an EMPTY, NORMAL cell at (`row`, `col`) with no search state. */
  function CreateNode(row: int, col: int): (n: Node)
    ensures n.row == row && n.col == col
    ensures n.nodeType == Empty && n.terrain == NORMAL
    ensures SearchFieldsReset(n)
  {
    Node(row, col, Empty, NORMAL, Infinity, 0, Infinity, Infinity, None, false, false)
  }

  /** A `rows` by `cols` grid of fresh cells, each knowing its own place. */
  ghost predicate Fresh(g: Grid, rows: nat, cols: nat) {
    && |g| == rows
    && (forall r :: 0 <= r < rows ==> |g[r]| == cols)
    && (forall r, c :: 0 <= r < rows && 0 <= c < cols ==> g[r][c] == CreateNode(r, c))
  }

  /** `createInitialGrid`: row by row, cell by cell. */
  method CreateInitialGrid(rows: nat, cols: nat) returns (grid: Grid)
    ensures Fresh(grid, rows, cols)
    ensures WellFormed(grid) && Cols(grid) == (if rows == 0 then 0 else cols)
  {
    grid := [];
    for row := 0 to rows
      invariant |grid| == row
      invariant forall r :: 0 <= r < row ==> |grid[r]| == cols
      invariant forall r, c :: 0 <= r < row && 0 <= c < cols ==> grid[r][c] == CreateNode(r, c)
    {
      var currentRow: seq<Node> := [];
      for col := 0 to cols
        invariant |currentRow| == col
        invariant forall c :: 0 <= c < col ==> currentRow[c] == CreateNode(row, c)
      {
        currentRow := currentRow + [CreateNode(row, col)];
      }
      grid := grid + [currentRow];
    }
  }

  // ---------------------------------------------------------------------
  // Cell edits
  // ---------------------------------------------------------------------

  /** The bounds test of `setNodeType` and `getNode`, against the first row's length. */
  predicate InGrid(g: Grid, row: int, col: int) {
    0 <= row < |g| && 0 <= col < Cols(g)
  }

  /** Every row as long as the first. */
  ghost predicate Rectangular(g: Grid) {
    forall r :: 0 <= r < |g| ==> |g[r]| == Cols(g)
  }

  /** `g` with the cell at `p` replaced by `n`. */
  function WithNode(g: Grid, p: Pos, n: Node): (h: Grid)
    requires InBounds(g, p)
    ensures |h| == |g| && forall r :: 0 <= r < |g| ==> |h[r]| == |g[r]|
    ensures At(h, p) == n
    ensures forall q :: InBounds(g, q) && q != p ==> At(h, q) == At(g, q)
  {
    g[p.row := g[p.row][p.col := n]]
  }

  /** `g` with the kind of the cell at `p` set to `k`. */
  function WithKind(g: Grid, p: Pos, k: NodeType): (h: Grid)
    requires InBounds(g, p)
    ensures |h| == |g| && forall r :: 0 <= r < |g| ==> |h[r]| == |g[r]|
    ensures At(h, p) == At(g, p).(nodeType := k)
    ensures forall q :: InBounds(g, q) && q != p ==> At(h, q) == At(g, q)
  {
    WithNode(g, p, At(g, p).(nodeType := k))
  }

  /** A field-wise patch, as `Partial<Node>`: each present field overrides the node's. */
  datatype NodeUpdate = NodeUpdate(
    row: Option<int>,
    col: Option<int>,
    nodeType: Option<NodeType>,
    terrain: Option<Terrain>,
    distance: Option<Score>,
    heuristic: Option<int>,
    fScore: Option<Score>,
    gScore: Option<Score>,
    parent: Option<Option<Pos>>,
    isVisited: Option<bool>,
    isPath: Option<bool>)

  const NoUpdate := NodeUpdate(None, None, None, None, None, None, None, None, None, None, None)

  function Or<T>(o: Option<T>, x: T): T {
    if o.Some? then o.value else x
  }

  /** `{ ...node, ...updates }`. */
  function ApplyUpdate(n: Node, u: NodeUpdate): (m: Node)
    ensures u.nodeType.None? ==> m.nodeType == n.nodeType
    ensures u.row.None? && u.col.None? ==> m.row == n.row && m.col == n.col
  {
    Node(Or(u.row, n.row), Or(u.col, n.col), Or(u.nodeType, n.nodeType), Or(u.terrain, n.terrain),
         Or(u.distance, n.distance), Or(u.heuristic, n.heuristic), Or(u.fScore, n.fScore),
         Or(u.gScore, n.gScore), Or(u.parent, n.parent), Or(u.isVisited, n.isVisited),
         Or(u.isPath, n.isPath))
  }

  /** An empty patch changes nothing, and applying a patch twice is applying it once. */
  lemma ApplyUpdateLaws(n: Node, u: NodeUpdate)
    ensures ApplyUpdate(n, NoUpdate) == n
    ensures ApplyUpdate(ApplyUpdate(n, u), u) == ApplyUpdate(n, u)
  {
  }

  /** `updateNode`'s map: only the cell at (`row`, `col`) is patched; nothing happens out of range. */
  function UpdateGrid(g: Grid, row: int, col: int, u: NodeUpdate): (h: Grid)
    ensures |h| == |g| && forall r :: 0 <= r < |g| ==> |h[r]| == |g[r]|
    ensures forall q :: InBounds(g, q) && q != Pos(row, col) ==> At(h, q) == At(g, q)
    ensures InBounds(g, Pos(row, col)) ==> At(h, Pos(row, col)) == ApplyUpdate(At(g, Pos(row, col)), u)
    ensures !InBounds(g, Pos(row, col)) ==> h == g
  {
    if InBounds(g, Pos(row, col)) then WithNode(g, Pos(row, col), ApplyUpdate(g[row][col], u)) else g
  }

  // ---------------------------------------------------------------------
  // Whole-grid rewrites
  // ---------------------------------------------------------------------

  /** The kinds a search paints and `clearPath` erases. */
  predicate Painted(k: NodeType) {
    k == Visited || k == Path || k == Current
  }

  /** `clearPath` on one node: erase search paint, reset every search field. */
  function ClearPathNode(n: Node): (m: Node)
    ensures m.nodeType == (if Painted(n.nodeType) then Empty else n.nodeType)
    ensures m.row == n.row && m.col == n.col && m.terrain == n.terrain
    ensures SearchFieldsReset(m)
  {
    ResetNode(n).(nodeType := if Painted(n.nodeType) then Empty else n.nodeType)
  }

  function ClearPathGrid(g: Grid): (h: Grid)
    ensures |h| == |g| && forall r :: 0 <= r < |g| ==> |h[r]| == |g[r]|
    ensures forall r, c :: 0 <= r < |g| && 0 <= c < |g[r]| ==> h[r][c] == ClearPathNode(g[r][c])
  {
    seq(|g|, r requires 0 <= r < |g| => seq(|g[r]|, c requires 0 <= c < |g[r]| => ClearPathNode(g[r][c])))
  }

  /** `clearWalls` on one node: walls and weights become EMPTY; every terrain becomes NORMAL. */
  function ClearWallsNode(n: Node): (m: Node)
    ensures m.nodeType == (if n.nodeType == Wall || n.nodeType == Weight then Empty else n.nodeType)
    ensures m.terrain == NORMAL
    ensures m == n.(nodeType := m.nodeType, terrain := NORMAL)
  {
    n.(nodeType := if n.nodeType == Wall || n.nodeType == Weight then Empty else n.nodeType,
       terrain := NORMAL)
  }

  function ClearWallsGrid(g: Grid): (h: Grid)
    ensures |h| == |g| && forall r :: 0 <= r < |g| ==> |h[r]| == |g[r]|
    ensures forall r, c :: 0 <= r < |g| && 0 <= c < |g[r]| ==> h[r][c] == ClearWallsNode(g[r][c])
  {
    seq(|g|, r requires 0 <= r < |g| => seq(|g[r]|, c requires 0 <= c < |g[r]| => ClearWallsNode(g[r][c])))
  }

  /** Two grids with the same shape whose cells agree are equal. */
  lemma GridExt(g: Grid, h: Grid)
    requires |g| == |h| && forall r :: 0 <= r < |g| ==> |g[r]| == |h[r]|
    requires forall r, c :: 0 <= r < |g| && 0 <= c < |g[r]| ==> g[r][c] == h[r][c]
    ensures g == h
  {
    forall r | 0 <= r < |g| ensures g[r] == h[r] {
      assert forall c :: 0 <= c < |g[r]| ==> g[r][c] == h[r][c];
    }
  }

  /** Clearing the path twice is clearing it once. */
  lemma ClearPathIdempotent(g: Grid)
    ensures ClearPathGrid(ClearPathGrid(g)) == ClearPathGrid(g)
  {
    GridExt(ClearPathGrid(ClearPathGrid(g)), ClearPathGrid(g));
  }

  /** Clearing walls twice is clearing them once, and a cleared grid has neither walls nor weights. */
  lemma ClearWallsIdempotent(g: Grid)
    ensures ClearWallsGrid(ClearWallsGrid(g)) == ClearWallsGrid(g)
    ensures forall p :: InBounds(g, p) ==>
              KindAt(ClearWallsGrid(g), p) != Wall && KindAt(ClearWallsGrid(g), p) != Weight
  {
    GridExt(ClearWallsGrid(ClearWallsGrid(g)), ClearWallsGrid(g));
  }

  /** The two clears touch different kinds and fields, so their order does not matter. */
  lemma ClearsCommute(g: Grid)
    ensures ClearPathGrid(ClearWallsGrid(g)) == ClearWallsGrid(ClearPathGrid(g))
  {
    GridExt(ClearPathGrid(ClearWallsGrid(g)), ClearWallsGrid(ClearPathGrid(g)));
  }

  /** A fresh grid has nothing to clear. */
  lemma FreshGridIsClear(g: Grid, rows: nat, cols: nat)
    requires Fresh(g, rows, cols)
    ensures ClearPathGrid(g) == g && ClearWallsGrid(g) == g
  {
    GridExt(ClearPathGrid(g), g);
    GridExt(ClearWallsGrid(g), g);
  }

  /** The rewrites keep each cell's place. */
  lemma RewritesKeepWellFormed(g: Grid, p: Pos, k: NodeType, u: NodeUpdate)
    requires WellFormed(g)
    ensures WellFormed(ClearPathGrid(g)) && WellFormed(ClearWallsGrid(g))
    ensures InBounds(g, p) ==> WellFormed(WithKind(g, p, k))
    ensures u.row.None? && u.col.None? ==> WellFormed(UpdateGrid(g, p.row, p.col, u))
  {
  }

  // ---------------------------------------------------------------------
  // The endpoint invariant
  // ---------------------------------------------------------------------

  /** Every cell of kind `k` is the one `tracked` names, and a named cell has kind `k`. */
  ghost predicate TracksKind(g: Grid, k: NodeType, tracked: Option<Pos>) {
    && (forall p :: InBounds(g, p) && KindAt(g, p) == k ==> tracked == Some(p))
    && (tracked.Some? ==> InBounds(g, tracked.value) && KindAt(g, tracked.value) == k)
  }

  /** At most one START and one END, each named by `startNode` / `endNode`. */
  ghost predicate Tracked(g: Grid, startNode: Option<Pos>, endNode: Option<Pos>) {
    TracksKind(g, Start, startNode) && TracksKind(g, End, endNode)
  }

  /** What the invariant gives a search: exactly one START and one END when both are tracked. */
  lemma TrackedEndpoints(g: Grid, startNode: Option<Pos>, endNode: Option<Pos>)
    requires Tracked(g, startNode, endNode)
    ensures forall p, q :: InBounds(g, p) && InBounds(g, q) && KindAt(g, p) == Start && KindAt(g, q) == Start ==> p == q
    ensures forall p, q :: InBounds(g, p) && InBounds(g, q) && KindAt(g, p) == End && KindAt(g, q) == End ==> p == q
    ensures startNode.Some? && endNode.Some? ==>
              LastOfKind(g, Start) == startNode && LastOfKind(g, End) == endNode
  {
    if startNode.Some? && endNode.Some? {
      assert InBounds(g, startNode.value) && KindAt(g, startNode.value) == Start;
      assert InBounds(g, endNode.value) && KindAt(g, endNode.value) == End;
    }
  }

  /** Neither clear touches START or END. */
  lemma ClearsKeepTracked(g: Grid, startNode: Option<Pos>, endNode: Option<Pos>)
    requires Tracked(g, startNode, endNode)
    ensures Tracked(ClearPathGrid(g), startNode, endNode)
    ensures Tracked(ClearWallsGrid(g), startNode, endNode)
  {
  }

  /** A patch that leaves the kind alone keeps the invariant. */
  lemma UpdateKeepsTracked(g: Grid, startNode: Option<Pos>, endNode: Option<Pos>, row: int, col: int, u: NodeUpdate)
    requires Tracked(g, startNode, endNode) && u.nodeType.None?
    ensures Tracked(UpdateGrid(g, row, col, u), startNode, endNode)
  {
    var h := UpdateGrid(g, row, col, u);
    forall p | InBounds(h, p) ensures KindAt(h, p) == KindAt(g, p) {
    }
  }

  /** The default endpoints of `initializeGrid`: START a quarter, END three quarters along the middle row. */
  function DefaultStart(rows: nat, cols: nat): Pos {
    Pos(rows / 2, cols / 4)
  }

  function DefaultEnd(rows: nat, cols: nat): Pos {
    Pos(rows / 2, (3 * cols) / 4)
  }

  /**
   * The grid `initializeGrid` builds: fresh cells, END at its default
   * place and START at its own unless END landed on it.
   */
  ghost predicate DefaultLayout(g: Grid, rows: nat, cols: nat) {
    var s, e := DefaultStart(rows, cols), DefaultEnd(rows, cols);
    && WellFormed(g) && Rectangular(g) && |g| == rows && Cols(g) == cols
    && InBounds(g, s) && InBounds(g, e)
    && At(g, e) == CreateNode(e.row, e.col).(nodeType := End)
    && (s != e ==> At(g, s) == CreateNode(s.row, s.col).(nodeType := Start))
    && (forall p :: InBounds(g, p) && p != s && p != e ==> At(g, p) == CreateNode(p.row, p.col))
  }

  /**
   * Painting START and then END onto a fresh grid of at least one row and
   * column gives the default layout; the two default cells differ exactly
   * when there are at least two columns.
   */
  lemma PaintDefaults(g: Grid, rows: nat, cols: nat)
    requires Fresh(g, rows, cols) && rows >= 1 && cols >= 1
    ensures InBounds(g, DefaultStart(rows, cols))
    ensures InBounds(WithKind(g, DefaultStart(rows, cols), Start), DefaultEnd(rows, cols))
    ensures DefaultLayout(WithKind(WithKind(g, DefaultStart(rows, cols), Start), DefaultEnd(rows, cols), End), rows, cols)
    ensures DefaultStart(rows, cols) != DefaultEnd(rows, cols) <==> cols >= 2
  {
    var s, e := DefaultStart(rows, cols), DefaultEnd(rows, cols);
    var h := WithKind(WithKind(g, s, Start), e, End);
    forall p | InBounds(h, p) && p != s && p != e ensures At(h, p) == CreateNode(p.row, p.col) {
      assert g[p.row][p.col] == CreateNode(p.row, p.col);
    }
  }

  /** With two columns or more, the default layout satisfies the endpoint invariant. */
  lemma DefaultLayoutTracked(g: Grid, rows: nat, cols: nat)
    requires DefaultLayout(g, rows, cols) && cols >= 2
    ensures Tracked(g, Some(DefaultStart(rows, cols)), Some(DefaultEnd(rows, cols)))
  {
    var s, e := DefaultStart(rows, cols), DefaultEnd(rows, cols);
    assert s.col < e.col;
  }

  // ---------------------------------------------------------------------
  // The store
  // ---------------------------------------------------------------------

  /** The cell the endpoint move of `setNodeType` resets to EMPTY, if any. */
  function Displaced(startNode: Option<Pos>, endNode: Option<Pos>, target: Pos, k: NodeType): Option<Pos> {
    if k == Start && startNode.Some? && startNode.value != target then startNode
    else if k == End && endNode.Some? && endNode.value != target then endNode
    else None
  }

  /** The guard of `setNodeType`: START and END are only replaced by START or END. */
  predicate Protected(n: Node, k: NodeType) {
    (n.nodeType == Start || n.nodeType == End) && k != Start && k != End
  }

  class GridStore {
    var grid: Grid
    var rows: nat
    var cols: nat
    var startNode: Option<Pos>
    var endNode: Option<Pos>
    var isFinished: bool
    var stats: Option<Stats>

    /** The grid keeps its shape and the tracked cells lie inside it. */
    ghost predicate Valid()
      reads this
    {
      && Rectangular(grid)
      && (startNode.Some? ==> InBounds(grid, startNode.value))
      && (endNode.Some? ==> InBounds(grid, endNode.value))
    }

    /** The store's initial state: no grid yet, 25 by 50 requested, no endpoints. */
    constructor ()
      ensures Valid()
      ensures grid == [] && rows == 25 && cols == 50
      ensures startNode == None && endNode == None && !isFinished && stats == None
      ensures Tracked(grid, startNode, endNode)
    {
      grid := [];
      rows := 25;
      cols := 50;
      startNode := None;
      endNode := None;
      isFinished := false;
      stats := None;
    }

    /**
     * `initializeGrid`: a fresh `rows` by `cols` grid with START and END at
     * the default places, both tracked. Painting the endpoints indexes the
     * new grid, which fails without a row and a column.
     */
    method InitializeGrid(rows: nat, cols: nat)
      requires rows >= 1 && cols >= 1
      modifies this
      ensures DefaultLayout(grid, rows, cols)
      ensures this.rows == rows && this.cols == cols
      ensures startNode == Some(DefaultStart(rows, cols)) && endNode == Some(DefaultEnd(rows, cols))
      ensures !isFinished && stats == None
      ensures Valid()
    {
      var g := CreateInitialGrid(rows, cols);
      var s, e := DefaultStart(rows, cols), DefaultEnd(rows, cols);
      PaintDefaults(g, rows, cols);
      g := WithKind(g, s, Start);
      g := WithKind(g, e, End);
      grid := g;
      this.rows := rows;
      this.cols := cols;
      startNode := Some(s);
      endNode := Some(e);
      isFinished := false;
      stats := None;
    }

    /** `resetGrid`: initialise again with the current dimensions. */
    method ResetGrid()
      requires rows >= 1 && cols >= 1
      modifies this
      ensures DefaultLayout(grid, rows, cols)
      ensures rows == old(rows) && cols == old(cols)
      ensures startNode == Some(DefaultStart(rows, cols)) && endNode == Some(DefaultEnd(rows, cols))
      ensures !isFinished && stats == None
      ensures Valid()
    {
      InitializeGrid(rows, cols);
    }

    /** `clearPath`: erase the last run and forget its statistics. */
    method ClearPath()
      requires Valid()
      modifies this
      ensures grid == ClearPathGrid(old(grid))
      ensures Valid()
      ensures startNode == old(startNode) && endNode == old(endNode)
      ensures rows == old(rows) && cols == old(cols)
      ensures !isFinished && stats == None
    {
      grid := ClearPathGrid(grid);
      isFinished := false;
      stats := None;
    }

    /** `clearWalls`: remove walls and weights and flatten the terrain. */
    method ClearWalls()
      requires Valid()
      modifies this
      ensures grid == ClearWallsGrid(old(grid))
      ensures Valid()
      ensures startNode == old(startNode) && endNode == old(endNode)
      ensures rows == old(rows) && cols == old(cols) && isFinished == old(isFinished) && stats == old(stats)
    {
      grid := ClearWallsGrid(grid);
    }

    /** `updateNode`: patch one cell; out of range nothing changes. */
    method UpdateNode(row: int, col: int, updates: NodeUpdate)
      requires Valid()
      modifies this
      ensures grid == UpdateGrid(old(grid), row, col, updates)
      ensures Valid()
      ensures startNode == old(startNode) && endNode == old(endNode)
      ensures rows == old(rows) && cols == old(cols) && isFinished == old(isFinished) && stats == old(stats)
    {
      grid := UpdateGrid(grid, row, col, updates);
    }

    /** `getNode`: the cell at (`row`, `col`), or nothing out of range. */
    function GetNode(row: int, col: int): (n: Option<Node>)
      requires Valid()
      reads this
      ensures n.Some? <==> InBounds(grid, Pos(row, col))
      ensures n.Some? ==> n.value == At(grid, Pos(row, col))
    {
      if row < 0 || row >= |grid| || col < 0 || col >= |grid[0]| then None else Some(grid[row][col])
    }

    /**
     * `setNodeType`. Out of range, or when a START/END would be replaced by
     * another kind, nothing changes. Otherwise the cell takes the kind and
     * terrain; placing START (END) elsewhere resets the previous START (END)
     * to EMPTY, and placing it on the END (START) forgets that one.
     */
    method SetNodeType(row: int, col: int, nodeType: NodeType, terrain: Terrain := NORMAL)
      requires Valid()
      modifies this
      ensures Valid()
      ensures rows == old(rows) && cols == old(cols) && isFinished == old(isFinished) && stats == old(stats)
      ensures !InGrid(old(grid), row, col) || Protected(old(grid)[row][col], nodeType) ==>
                grid == old(grid) && startNode == old(startNode) && endNode == old(endNode)
      ensures InGrid(old(grid), row, col) && !Protected(old(grid)[row][col], nodeType) ==>
                Edited(old(grid), old(startNode), old(endNode), Pos(row, col), nodeType, terrain, grid, startNode, endNode)
    {
      if row < 0 || row >= |grid| || col < 0 || col >= |grid[0]| {
        return;
      }
      var target := Pos(row, col);
      var currentNode := grid[row][col];
      if (currentNode.nodeType == Start || currentNode.nodeType == End) && nodeType != Start && nodeType != End {
        return;
      }
      assert InGrid(grid, row, col) && !Protected(At(grid, target), nodeType);
      var newGrid, newStartNode, newEndNode := ApplyNodeType(grid, startNode, endNode, target, nodeType, terrain);
      grid, startNode, endNode := newGrid, newStartNode, newEndNode;
    }

    /** `setStartNode`. */
    method SetStartNode(row: int, col: int)
      requires Valid()
      modifies this
      ensures Valid()
      ensures rows == old(rows) && cols == old(cols) && isFinished == old(isFinished) && stats == old(stats)
      ensures InGrid(old(grid), row, col) ==> startNode == Some(Pos(row, col)) && KindAt(grid, Pos(row, col)) == Start
      ensures InGrid(old(grid), row, col) ==>
                Edited(old(grid), old(startNode), old(endNode), Pos(row, col), Start, NORMAL, grid, startNode, endNode)
      ensures !InGrid(old(grid), row, col) ==> grid == old(grid) && startNode == old(startNode) && endNode == old(endNode)
    {
      SetNodeType(row, col, Start);
    }

    /** `setEndNode`. */
    method SetEndNode(row: int, col: int)
      requires Valid()
      modifies this
      ensures Valid()
      ensures rows == old(rows) && cols == old(cols) && isFinished == old(isFinished) && stats == old(stats)
      ensures InGrid(old(grid), row, col) ==> endNode == Some(Pos(row, col)) && KindAt(grid, Pos(row, col)) == End
      ensures InGrid(old(grid), row, col) ==>
                Edited(old(grid), old(startNode), old(endNode), Pos(row, col), End, NORMAL, grid, startNode, endNode)
      ensures !InGrid(old(grid), row, col) ==> grid == old(grid) && startNode == old(startNode) && endNode == old(endNode)
    {
      SetNodeType(row, col, End);
    }
  }

  /**
   * The state update `setNodeType` hands to the store once its guards
   * pass: write the target cell, then move the endpoint it places.
   */
  method ApplyNodeType(grid: Grid, startNode: Option<Pos>, endNode: Option<Pos>, target: Pos, nodeType: NodeType,
                       terrain: Terrain)
    returns (newGrid: Grid, newStartNode: Option<Pos>, newEndNode: Option<Pos>)
    requires InBounds(grid, target)
    requires startNode.Some? ==> InBounds(grid, startNode.value)
    requires endNode.Some? ==> InBounds(grid, endNode.value)
    ensures Edited(grid, startNode, endNode, target, nodeType, terrain, newGrid, newStartNode, newEndNode)
    ensures Rectangular(grid) ==> Rectangular(newGrid)
    ensures newStartNode.Some? ==> InBounds(newGrid, newStartNode.value)
    ensures newEndNode.Some? ==> InBounds(newGrid, newEndNode.value)
    ensures WellFormed(grid) ==> WellFormed(newGrid)
    ensures Tracked(grid, startNode, endNode) && !Protected(At(grid, target), nodeType) ==>
              Tracked(newGrid, newStartNode, newEndNode)
  {
    newGrid := WithNode(grid, target, grid[target.row][target.col].(nodeType := nodeType, terrain := terrain));
    ghost var g1 := newGrid;
    newStartNode, newEndNode := startNode, endNode;
    if nodeType == Start {
      if startNode.Some? && startNode.value != target {
        newGrid := WithKind(newGrid, startNode.value, Empty);
      }
      if endNode == Some(target) {
        newEndNode := None;
      }
      newStartNode := Some(target);
    } else if nodeType == End {
      if endNode.Some? && endNode.value != target {
        newGrid := WithKind(newGrid, endNode.value, Empty);
      }
      if startNode == Some(target) {
        newStartNode := None;
      }
      newEndNode := Some(target);
    }
    EditDone(grid, startNode, endNode, target, nodeType, terrain, g1, newGrid, newStartNode, newEndNode);
    EditKeepsShape(grid, startNode, endNode, target, nodeType, terrain, newGrid, newStartNode, newEndNode);
    if Tracked(grid, startNode, endNode) && !Protected(At(grid, target), nodeType) {
      SetNodeTypeKeepsTracked(grid, startNode, endNode, target, nodeType, terrain, newGrid, newStartNode, newEndNode);
    }
  }

  /**
   * The new state of an edit `setNodeType` lets through: the target takes
   * kind `k` and `terrain`, the displaced endpoint (if any) becomes EMPTY,
   * every other cell is as before, and the tracked cells move with the
   * edit.
   */
  ghost predicate Edited(g: Grid, startNode: Option<Pos>, endNode: Option<Pos>, target: Pos, k: NodeType,
                         terrain: Terrain, h: Grid, startNode': Option<Pos>, endNode': Option<Pos>)
    requires InBounds(g, target)
  {
    var moved := Displaced(startNode, endNode, target, k);
    && |h| == |g| && (forall r :: 0 <= r < |g| ==> |h[r]| == |g[r]|)
    && At(h, target) == At(g, target).(nodeType := k, terrain := terrain)
    && (moved.Some? ==> InBounds(g, moved.value) && At(h, moved.value) == At(g, moved.value).(nodeType := Empty))
    && (forall q :: InBounds(g, q) && q != target && Some(q) != moved ==> At(h, q) == At(g, q))
    && startNode' == (if k == Start then Some(target)
                      else if k == End && startNode == Some(target) then None
                      else startNode)
    && endNode' == (if k == End then Some(target)
                    else if k == Start && endNode == Some(target) then None
                    else endNode)
  }

  /** The two grid writes of `setNodeType` make an `Edited` state that keeps the shape. */
  lemma EditDone(g: Grid, startNode: Option<Pos>, endNode: Option<Pos>, target: Pos, k: NodeType, terrain: Terrain,
                 g1: Grid, h: Grid, startNode': Option<Pos>, endNode': Option<Pos>)
    requires InBounds(g, target)
    requires startNode.Some? ==> InBounds(g, startNode.value)
    requires endNode.Some? ==> InBounds(g, endNode.value)
    requires g1 == WithNode(g, target, At(g, target).(nodeType := k, terrain := terrain))
    requires var moved := Displaced(startNode, endNode, target, k);
             h == if moved.Some? then WithKind(g1, moved.value, Empty) else g1
    requires startNode' == (if k == Start then Some(target)
                            else if k == End && startNode == Some(target) then None
                            else startNode)
    requires endNode' == (if k == End then Some(target)
                          else if k == Start && endNode == Some(target) then None
                          else endNode)
    ensures Edited(g, startNode, endNode, target, k, terrain, h, startNode', endNode')
  {
  }

  /** An edit keeps the grid's shape, the cells' places and the tracked cells inside the grid. */
  lemma EditKeepsShape(g: Grid, startNode: Option<Pos>, endNode: Option<Pos>, target: Pos, k: NodeType,
                       terrain: Terrain, h: Grid, startNode': Option<Pos>, endNode': Option<Pos>)
    requires InBounds(g, target)
    requires startNode.Some? ==> InBounds(g, startNode.value)
    requires endNode.Some? ==> InBounds(g, endNode.value)
    requires Edited(g, startNode, endNode, target, k, terrain, h, startNode', endNode')
    ensures Rectangular(g) ==> Rectangular(h)
    ensures startNode'.Some? ==> InBounds(h, startNode'.value)
    ensures endNode'.Some? ==> InBounds(h, endNode'.value)
    ensures WellFormed(g) ==> WellFormed(h)
  {
    if WellFormed(g) {
      forall r, c | 0 <= r < |h| && 0 <= c < |h[r]| ensures h[r][c].row == r && h[r][c].col == c {
        assert At(h, Pos(r, c)).row == At(g, Pos(r, c)).row;
      }
    }
  }

  /** `setNodeType` keeps the endpoint invariant. */
  lemma SetNodeTypeKeepsTracked(g: Grid, startNode: Option<Pos>, endNode: Option<Pos>, target: Pos, k: NodeType,
                                terrain: Terrain, h: Grid, startNode': Option<Pos>, endNode': Option<Pos>)
    requires Tracked(g, startNode, endNode) && InBounds(g, target) && !Protected(At(g, target), k)
    requires Edited(g, startNode, endNode, target, k, terrain, h, startNode', endNode')
    ensures Tracked(h, startNode', endNode')
  {
    var moved := Displaced(startNode, endNode, target, k);
    forall p | InBounds(h, p) && KindAt(h, p) == Start ensures startNode' == Some(p) {
      if p != target && Some(p) != moved {
        assert KindAt(g, p) == Start;
      }
    }
    forall p | InBounds(h, p) && KindAt(h, p) == End ensures endNode' == Some(p) {
      if p != target && Some(p) != moved {
        assert KindAt(g, p) == End;
      }
    }
    if startNode'.Some? && startNode'.value != target {
      assert startNode' == startNode;
      assert KindAt(g, startNode.value) == Start;
    }
    if endNode'.Some? && endNode'.value != target {
      assert endNode' == endNode;
      assert KindAt(g, endNode.value) == End;
    }
  }
}
