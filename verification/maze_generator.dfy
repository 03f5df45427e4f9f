/**
 * The maze and terrain generators. Each produces a list of cells (or of
 * weighted cells) that the UI then applies one by one through
 * `setNodeType`. `Math.random()` is an oracle supplied by the caller: the
 * `k`-th value a generator draws is `random(k)`, a real in [0, 1).
 */
module MazeGenerator {
  import opened Types
  import opened GridModel
  import opened SearchUtils

  /** A value `Math.random()` can return. */
  type Unit = r: real | 0.0 <= r < 1.0

  /** The successive values of `Math.random()`. */
  type Oracle = nat -> Unit

  /** `isStartOrEnd`. */
  function IsStartOrEnd(row: int, col: int, startPos: Pos, endPos: Pos): (b: bool)
    ensures b <==> Pos(row, col) == startPos || Pos(row, col) == endPos
  {
    (row == startPos.row && col == startPos.col) || (row == endPos.row && col == endPos.col)
  }

  /** `isNearStartOrEnd`: within `buffer` rows and `buffer` columns of an endpoint. */
  predicate IsNearStartOrEnd(row: int, col: int, startPos: Pos, endPos: Pos, buffer: int) {
    var nearStart := Abs(row - startPos.row) <= buffer && Abs(col - startPos.col) <= buffer;
    var nearEnd := Abs(row - endPos.row) <= buffer && Abs(col - endPos.col) <= buffer;
    nearStart || nearEnd
  }

  /** Near means within Chebyshev distance `buffer` of an endpoint. */
  lemma NearIsChebyshev(row: int, col: int, startPos: Pos, endPos: Pos, buffer: int)
    ensures IsNearStartOrEnd(row, col, startPos, endPos, buffer) <==>
            Chebyshev(Pos(row, col), startPos) <= buffer || Chebyshev(Pos(row, col), endPos) <= buffer
  {
  }

  /** A non-negative buffer covers the endpoints themselves, and a wider buffer covers more. */
  lemma NearCovers(row: int, col: int, startPos: Pos, endPos: Pos, buffer: int, wider: int)
    requires 0 <= buffer <= wider
    ensures IsStartOrEnd(row, col, startPos, endPos) ==> IsNearStartOrEnd(row, col, startPos, endPos, buffer)
    ensures IsNearStartOrEnd(row, col, startPos, endPos, buffer) ==> IsNearStartOrEnd(row, col, startPos, endPos, wider)
  {
  }

  predicate InRect(rows: int, cols: int, p: Pos) {
    0 <= p.row < rows && 0 <= p.col < cols
  }

  /** Row-major order, strictly. */
  predicate RowMajorLt(p: Pos, q: Pos) {
    RowMajorLe(p, q) && p != q
  }

  // ---------------------------------------------------------------------
  // randomMaze
  // ---------------------------------------------------------------------

  /** How many cells of the first `row` rows and `col` columns of row `row` lie outside the buffer. */
  function DrawsBefore(cols: nat, startPos: Pos, endPos: Pos, buffer: int, row: nat, col: nat): nat
    requires col <= cols
    decreases row, col
  {
    if col == 0 then
      (if row == 0 then 0 else DrawsBefore(cols, startPos, endPos, buffer, row - 1, cols))
    else
      DrawsBefore(cols, startPos, endPos, buffer, row, col - 1) +
      (if IsNearStartOrEnd(row, col - 1, startPos, endPos, buffer) then 0 else 1)
  }

  /** Cells further along in row-major order have drawn strictly more values. */
  lemma {:induction false} DrawsBeforeGrows(cols: nat, startPos: Pos, endPos: Pos, buffer: int,
                                            r: nat, c: nat, row: nat, col: nat)
    requires c < cols && col <= cols && RowMajorLt(Pos(r, c), Pos(row, col))
    requires !IsNearStartOrEnd(r, c, startPos, endPos, buffer)
    ensures DrawsBefore(cols, startPos, endPos, buffer, r, c) < DrawsBefore(cols, startPos, endPos, buffer, row, col)
    decreases row, col
  {
    if col == 0 {
      if r == row - 1 && c == cols - 1 {
      } else {
        DrawsBeforeGrows(cols, startPos, endPos, buffer, r, c, row - 1, cols);
      }
    } else if r == row && c == col - 1 {
    } else {
      DrawsBeforeGrows(cols, startPos, endPos, buffer, r, c, row, col - 1);
    }
  }

  /** Cell (`r`, `c`) is outside the buffer of 3 and its draw falls below `density`. */
  predicate RandomWall(cols: nat, density: real, startPos: Pos, endPos: Pos, random: Oracle, r: nat, c: nat)
    requires c < cols
  {
    !IsNearStartOrEnd(r, c, startPos, endPos, 3) && random(DrawsBefore(cols, startPos, endPos, 3, r, c)) < density
  }

  /** One more cell of row `row` draws exactly when it lies outside the buffer. */
  lemma DrawStep(cols: nat, startPos: Pos, endPos: Pos, row: nat, col: nat)
    requires col < cols
    ensures DrawsBefore(cols, startPos, endPos, 3, row, col + 1) ==
            DrawsBefore(cols, startPos, endPos, 3, row, col) + (if IsNearStartOrEnd(row, col, startPos, endPos, 3) then 0 else 1)
  {
  }

  /**
   * One row of `randomMaze`: the cells of row `row` that draw below
   * `density`, left to right, given that `k` values were drawn before it.
   */
  method RandomRow(row: nat, cols: nat, density: real, startPos: Pos, endPos: Pos, random: Oracle, k: nat)
    returns (rowWalls: seq<Pos>, next: nat)
    requires k == DrawsBefore(cols, startPos, endPos, 3, row, 0)
    ensures next == DrawsBefore(cols, startPos, endPos, 3, row, cols)
    ensures forall i :: 0 <= i < |rowWalls| ==> rowWalls[i].row == row && 0 <= rowWalls[i].col < cols
    ensures forall i, j :: 0 <= i < j < |rowWalls| ==> rowWalls[i].col < rowWalls[j].col
    ensures forall c: nat :: c < cols ==>
              (Pos(row, c) in rowWalls <==> RandomWall(cols, density, startPos, endPos, random, row, c))
  {
    rowWalls, next := [], k;
    for col := 0 to cols
      invariant next == DrawsBefore(cols, startPos, endPos, 3, row, col)
      invariant forall i :: 0 <= i < |rowWalls| ==> rowWalls[i].row == row && 0 <= rowWalls[i].col < col
      invariant forall i, j :: 0 <= i < j < |rowWalls| ==> rowWalls[i].col < rowWalls[j].col
      invariant forall c: nat :: c < col ==>
                  (Pos(row, c) in rowWalls <==> RandomWall(cols, density, startPos, endPos, random, row, c))
    {
      DrawStep(cols, startPos, endPos, row, col);
      if !IsNearStartOrEnd(row, col, startPos, endPos, 3) {
        if random(next) < density {
          rowWalls := rowWalls + [Pos(row, col)];
        }
        next := next + 1;
      }
    }
  }

  /**
   * `randomMaze`: every cell outside the buffer of 3 around the endpoints
   * draws once, in row-major order, and becomes a wall when its draw is
   * below `density`.
   */
  method RandomMaze(rows: nat, cols: nat, density: real := 0.25, startPos: Pos, endPos: Pos, random: Oracle)
    returns (walls: seq<Pos>)
    ensures forall i :: 0 <= i < |walls| ==> InRect(rows, cols, walls[i])
    ensures forall i, j :: 0 <= i < j < |walls| ==> RowMajorLt(walls[i], walls[j])
    ensures forall r: nat, c: nat :: r < rows && c < cols ==>
              (Pos(r, c) in walls <==> RandomWall(cols, density, startPos, endPos, random, r, c))
  {
    walls := [];
    var k: nat := 0;
    for row := 0 to rows
      invariant k == DrawsBefore(cols, startPos, endPos, 3, row, 0)
      invariant forall i :: 0 <= i < |walls| ==> InRect(row, cols, walls[i])
      invariant forall i, j :: 0 <= i < j < |walls| ==> RowMajorLt(walls[i], walls[j])
      invariant forall r: nat, c: nat :: r < row && c < cols ==>
                  (Pos(r, c) in walls <==> RandomWall(cols, density, startPos, endPos, random, r, c))
    {
      var rowWalls;
      rowWalls, k := RandomRow(row, cols, density, startPos, endPos, random, k);
      walls := walls + rowWalls;
    }
  }

  /** Every wall of `randomMaze` lies outside the buffer of 3 around the endpoints. */
  lemma RandomMazeClear(rows: nat, cols: nat, density: real, startPos: Pos, endPos: Pos, random: Oracle,
                        walls: seq<Pos>)
    requires forall i :: 0 <= i < |walls| ==> InRect(rows, cols, walls[i])
    requires forall r: nat, c: nat :: r < rows && c < cols ==>
               (Pos(r, c) in walls <==> RandomWall(cols, density, startPos, endPos, random, r, c))
    ensures forall i :: 0 <= i < |walls| ==> !IsNearStartOrEnd(walls[i].row, walls[i].col, startPos, endPos, 3)
  {
    forall i | 0 <= i < |walls|
      ensures !IsNearStartOrEnd(walls[i].row, walls[i].col, startPos, endPos, 3)
    {
      var r: nat, c: nat := walls[i].row, walls[i].col;
      assert Pos(r, c) == walls[i];
    }
  }

  /** A zero density gives no walls; a density of one walls every cell outside the buffer. */
  lemma RandomMazeDensity(rows: nat, cols: nat, density: real, startPos: Pos, endPos: Pos, random: Oracle,
                          walls: seq<Pos>)
    requires forall r: nat, c: nat :: r < rows && c < cols ==>
               (Pos(r, c) in walls <==> RandomWall(cols, density, startPos, endPos, random, r, c))
    ensures density <= 0.0 ==> forall r: nat, c: nat :: r < rows && c < cols ==> Pos(r, c) !in walls
    ensures density >= 1.0 ==> forall r: nat, c: nat :: r < rows && c < cols ==>
              (Pos(r, c) in walls <==> !IsNearStartOrEnd(r, c, startPos, endPos, 3))
  {
  }

  // ---------------------------------------------------------------------
  // stairPattern
  // ---------------------------------------------------------------------

  /** The `j`-th cell of the `i`-th barrier: a column running down from (3 + 5i, 5 + 8i). */
  function StairCell(i: nat, j: nat): Pos {
    Pos(3 + i * 5 + j, 5 + i * 8)
  }

  /** `p` lies on barrier `i`, which is `rows - 6` cells long. */
  predicate OnBarrier(rows: int, i: int, p: Pos) {
    0 <= i < 4 && p.col == 5 + i * 8 && 3 + i * 5 <= p.row < 3 + i * 5 + (rows - 6)
  }

  /**
   * `stairPattern`: four vertical barriers, each clipped to the grid and
   * kept out of the buffer of 2 around the endpoints.
   */
  method StairPattern(rows: nat, cols: nat, startPos: Pos, endPos: Pos) returns (walls: seq<Pos>)
    ensures forall w :: w in walls ==> InRect(rows, cols, w)
    ensures forall w :: w in walls ==> !IsNearStartOrEnd(w.row, w.col, startPos, endPos, 2)
    ensures forall w :: w in walls ==> OnBarrier(rows, (w.col - 5) / 8, w)
    ensures forall i: nat, j: nat ::
              (i < 4 && j < rows - 6 && InRect(rows, cols, StairCell(i, j)) &&
               !IsNearStartOrEnd(StairCell(i, j).row, StairCell(i, j).col, startPos, endPos, 2)) ==>
              StairCell(i, j) in walls
  {
    walls := [];
    for i := 0 to 4
      invariant forall w :: w in walls ==> InRect(rows, cols, w)
      invariant forall w :: w in walls ==> !IsNearStartOrEnd(w.row, w.col, startPos, endPos, 2)
      invariant forall w :: w in walls ==> OnBarrier(rows, (w.col - 5) / 8, w)
      invariant forall i': nat, j: nat ::
                  (i' < i && j < rows - 6 && InRect(rows, cols, StairCell(i', j)) &&
                   !IsNearStartOrEnd(StairCell(i', j).row, StairCell(i', j).col, startPos, endPos, 2)) ==>
                  StairCell(i', j) in walls
    {
      var startRow := 3 + i * 5;
      var startCol := 5 + i * 8;
      var j := 0;
      while j < rows - 6
        invariant 0 <= j
        invariant forall w :: w in walls ==> InRect(rows, cols, w)
        invariant forall w :: w in walls ==> !IsNearStartOrEnd(w.row, w.col, startPos, endPos, 2)
        invariant forall w :: w in walls ==> OnBarrier(rows, (w.col - 5) / 8, w)
        invariant forall i': nat, j': nat ::
                    ((i' < i && j' < rows - 6) || (i' == i && j' < j)) &&
                    (InRect(rows, cols, StairCell(i', j')) &&
                     !IsNearStartOrEnd(StairCell(i', j').row, StairCell(i', j').col, startPos, endPos, 2)) ==>
                    StairCell(i', j') in walls
      {
        var row := startRow + j;
        var col := startCol;
        assert Pos(row, col) == StairCell(i, j);
        if row >= 0 && row < rows && col >= 0 && col < cols {
          if !IsNearStartOrEnd(row, col, startPos, endPos, 2) {
            assert (col - 5) / 8 == i;
            walls := walls + [Pos(row, col)];
          }
        }
        j := j + 1;
      }
    }
  }

  // ---------------------------------------------------------------------
  // recursiveDivisionMaze
  // ---------------------------------------------------------------------

  /** The number of vertical walls. */
  function NumWalls(cols: nat): nat {
    cols / 6
  }

  /** The column of the `i`-th vertical wall, for `i` in 1..NumWalls: evenly spaced. */
  function WallCol(cols: nat, i: nat): int {
    (i * cols) / (NumWalls(cols) + 1)
  }

  /** Where the five-row gap of the `i`-th wall starts: row 2 for even `i`, the middle row for odd `i`. */
  function GapStart(rows: nat, i: nat): int {
    if i % 2 == 0 then 2 else rows / 2
  }

  /** Row `row` is covered by the `i`-th wall: strictly inside the grid and outside the gap. */
  predicate InWallSpan(rows: nat, i: nat, row: int) {
    1 <= row < rows - 1 && !(GapStart(rows, i) <= row <= GapStart(rows, i) + 4)
  }

  /** The row of the `i`-th horizontal connector, for `i` in 0..2. */
  function ConnectorRow(rows: nat, i: nat): int {
    ((i + 1) * rows) / 4
  }

  /** The first column of the `i`-th connector: 2 plus a random fraction of a third of the width. */
  function ConnectorStart(cols: nat, random: Oracle, i: nat): int {
    (random(i) * (cols as real / 3.0)).Floor + 2
  }

  /** `p` lies on some vertical wall. */
  ghost predicate OnVerticalWall(rows: nat, cols: nat, p: Pos) {
    exists i: nat :: 1 <= i <= NumWalls(cols) && p.col == WallCol(cols, i) && InWallSpan(rows, i, p.row)
  }

  /** `p` lies on connector `i`. */
  predicate OnConnector(rows: nat, cols: nat, random: Oracle, i: nat, p: Pos) {
    && i < 3 && p.row == ConnectorRow(rows, i)
    && ConnectorStart(cols, random, i) <= p.col < ConnectorStart(cols, random, i) + cols / 4
    && p.col < cols - 2
  }

  lemma DivBelow(x: int, d: int, q: int)
    requires d > 0 && 0 <= x < d * q
    ensures x / d < q
  {
  }

  lemma MulMono(a: nat, b: nat, c: nat)
    requires a <= b
    ensures a * c <= b * c
  {
  }

  /** Every vertical wall lies strictly inside the grid's columns. */
  lemma WallColInside(cols: nat, i: nat)
    requires 1 <= i <= NumWalls(cols)
    ensures 0 <= WallCol(cols, i) < cols
  {
    var n := NumWalls(cols);
    MulMono(i, n, cols);
    assert (n + 1) * cols == n * cols + cols;
    DivBelow(i * cols, n + 1, cols);
  }

  /** A connector starts at column 2 or later. */
  lemma ConnectorStartBound(cols: nat, random: Oracle, i: nat)
    ensures ConnectorStart(cols, random, i) >= 2
  {
    var r := random(i);
    assert r * (cols as real / 3.0) >= 0.0;
  }

  /**
   * `recursiveDivisionMaze`: NumWalls vertical walls with alternating gaps,
   * then three horizontal connectors starting at random columns, all kept
   * out of the buffer of 2 around the endpoints.
   */
  method RecursiveDivisionMaze(rows: nat, cols: nat, startPos: Pos, endPos: Pos, random: Oracle)
    returns (walls: seq<Pos>)
    ensures forall w :: w in walls ==> !IsNearStartOrEnd(w.row, w.col, startPos, endPos, 2)
    ensures rows >= 1 ==> forall w :: w in walls ==> InRect(rows, cols, w)
    ensures forall w :: w in walls ==>
              OnVerticalWall(rows, cols, w) || OnConnector(rows, cols, random, 0, w) ||
              OnConnector(rows, cols, random, 1, w) || OnConnector(rows, cols, random, 2, w)
    ensures forall i: nat, row ::
              (1 <= i <= NumWalls(cols) && InWallSpan(rows, i, row) &&
               !IsNearStartOrEnd(row, WallCol(cols, i), startPos, endPos, 2)) ==>
              Pos(row, WallCol(cols, i)) in walls
    ensures forall i: nat, col ::
              (i < 3 && OnConnector(rows, cols, random, i, Pos(ConnectorRow(rows, i), col)) &&
               !IsNearStartOrEnd(ConnectorRow(rows, i), col, startPos, endPos, 2)) ==>
              Pos(ConnectorRow(rows, i), col) in walls
  {
    walls := VerticalWalls(rows, cols, startPos, endPos);
    ghost var vertical := walls;
    for i := 0 to 3
      invariant forall w :: w in walls ==> !IsNearStartOrEnd(w.row, w.col, startPos, endPos, 2)
      invariant rows >= 1 ==> forall w :: w in walls ==> InRect(rows, cols, w)
      invariant forall w :: w in walls ==>
                  OnVerticalWall(rows, cols, w) || OnConnector(rows, cols, random, 0, w) ||
                  OnConnector(rows, cols, random, 1, w) || OnConnector(rows, cols, random, 2, w)
      invariant forall w :: w in vertical ==> w in walls
      invariant forall i': nat, col ::
                  (i' < i && OnConnector(rows, cols, random, i', Pos(ConnectorRow(rows, i'), col)) &&
                   !IsNearStartOrEnd(ConnectorRow(rows, i'), col, startPos, endPos, 2)) ==>
                  Pos(ConnectorRow(rows, i'), col) in walls
    {
      var connector := Connector(rows, cols, startPos, endPos, random, i);
      walls := walls + connector;
    }
  }

  /** The vertical walls of `recursiveDivisionMaze`, wall by wall. */
  method VerticalWalls(rows: nat, cols: nat, startPos: Pos, endPos: Pos) returns (walls: seq<Pos>)
    ensures forall w :: w in walls ==>
              !IsNearStartOrEnd(w.row, w.col, startPos, endPos, 2) && InRect(rows, cols, w) &&
              OnVerticalWall(rows, cols, w)
    ensures forall i: nat, row ::
              (1 <= i <= NumWalls(cols) && InWallSpan(rows, i, row) &&
               !IsNearStartOrEnd(row, WallCol(cols, i), startPos, endPos, 2)) ==>
              Pos(row, WallCol(cols, i)) in walls
  {
    walls := [];
    var numWalls := cols / 6;
    for i := 1 to numWalls + 1
      invariant forall w :: w in walls ==>
                  !IsNearStartOrEnd(w.row, w.col, startPos, endPos, 2) && InRect(rows, cols, w) &&
                  OnVerticalWall(rows, cols, w)
      invariant forall i': nat, row ::
                  (1 <= i' < i && InWallSpan(rows, i', row) &&
                   !IsNearStartOrEnd(row, WallCol(cols, i'), startPos, endPos, 2)) ==>
                  Pos(row, WallCol(cols, i')) in walls
    {
      var wall := Wall(rows, cols, startPos, endPos, i);
      walls := walls + wall;
    }
  }

  /** The cells of the `i`-th vertical wall: every row of its span outside the endpoints' buffer. */
  method Wall(rows: nat, cols: nat, startPos: Pos, endPos: Pos, i: nat) returns (wall: seq<Pos>)
    requires 1 <= i <= NumWalls(cols)
    ensures forall w :: w in wall ==>
              !IsNearStartOrEnd(w.row, w.col, startPos, endPos, 2) && InRect(rows, cols, w) &&
              w.col == WallCol(cols, i) && InWallSpan(rows, i, w.row)
    ensures forall row ::
              InWallSpan(rows, i, row) && !IsNearStartOrEnd(row, WallCol(cols, i), startPos, endPos, 2) ==>
              Pos(row, WallCol(cols, i)) in wall
  {
    wall := [];
    var wallCol := (i * cols) / (cols / 6 + 1);
    assert wallCol == WallCol(cols, i);
    WallColInside(cols, i);
    var gapStart := if i % 2 == 0 then 2 else rows / 2;
    var row := 1;
    while row < rows - 1
      invariant 1 <= row
      invariant forall w :: w in wall ==>
                  !IsNearStartOrEnd(w.row, w.col, startPos, endPos, 2) && InRect(rows, cols, w) &&
                  w.col == wallCol && InWallSpan(rows, i, w.row)
      invariant forall row' ::
                  row' < row && InWallSpan(rows, i, row') && !IsNearStartOrEnd(row', wallCol, startPos, endPos, 2) ==>
                  Pos(row', wallCol) in wall
    {
      if row >= gapStart && row <= gapStart + 4 {
      } else if IsNearStartOrEnd(row, wallCol, startPos, endPos, 2) {
      } else {
        wall := wall + [Pos(row, wallCol)];
      }
      row := row + 1;
    }
  }

  /** The cells of the `i`-th horizontal connector outside the endpoints' buffer. */
  method Connector(rows: nat, cols: nat, startPos: Pos, endPos: Pos, random: Oracle, i: nat)
    returns (connector: seq<Pos>)
    requires i < 3
    ensures forall w :: w in connector ==>
              !IsNearStartOrEnd(w.row, w.col, startPos, endPos, 2) && (rows >= 1 ==> InRect(rows, cols, w)) &&
              OnConnector(rows, cols, random, i, w)
    ensures forall col ::
              OnConnector(rows, cols, random, i, Pos(ConnectorRow(rows, i), col)) &&
              !IsNearStartOrEnd(ConnectorRow(rows, i), col, startPos, endPos, 2) ==>
              Pos(ConnectorRow(rows, i), col) in connector
  {
    connector := [];
    var wallRow := (i + 1) * rows / 4;
    var startCol := (random(i) * (cols as real / 3.0)).Floor + 2;
    ConnectorStartBound(cols, random, i);
    var length := cols / 4;
    var col := startCol;
    while col < startCol + length && col < cols - 2
      invariant col >= startCol
      invariant forall w :: w in connector ==>
                  !IsNearStartOrEnd(w.row, w.col, startPos, endPos, 2) && (rows >= 1 ==> InRect(rows, cols, w)) &&
                  OnConnector(rows, cols, random, i, w)
      invariant forall col' ::
                  startCol <= col' < col && OnConnector(rows, cols, random, i, Pos(wallRow, col')) &&
                  !IsNearStartOrEnd(wallRow, col', startPos, endPos, 2) ==>
                  Pos(wallRow, col') in connector
    {
      if !IsNearStartOrEnd(wallRow, col, startPos, endPos, 2) {
        connector := connector + [Pos(wallRow, col)];
      }
      col := col + 1;
    }
  }

  // ---------------------------------------------------------------------
  // generateWeightedTerrain
  // ---------------------------------------------------------------------

  /** A weighted cell, as the generator emits it. */
  datatype WeightedCell = WeightedCell(row: int, col: int, weight: int)

  /** One terrain cluster: a disc of `radius` around `center`, all of one weight. */
  datatype Cluster = Cluster(center: Pos, radius: int, weight: int)

  const WEIGHTS: seq<int> := [2, 5, 10]

  /** The `i`-th cluster, from the four values it draws: centre row, centre column, radius, weight. */
  function ClusterOf(rows: nat, cols: nat, random: Oracle, i: nat): (c: Cluster)
    ensures 2 <= c.radius <= 5
    ensures c.weight in WEIGHTS
  {
    var centerRow := (random(4 * i) * rows as real).Floor;
    var centerCol := (random(4 * i + 1) * cols as real).Floor;
    var radius := (random(4 * i + 2) * 4.0).Floor + 2;
    var k := (random(4 * i + 3) * 3.0).Floor;
    Cluster(Pos(centerRow, centerCol), radius, WEIGHTS[k])
  }

  /** The disc test: the Euclidean distance to the centre is at most the radius. */
  predicate InDisc(c: Cluster, row: int, col: int) {
    (row - c.center.row) * (row - c.center.row) + (col - c.center.col) * (col - c.center.col) <= c.radius * c.radius
  }

  /** Cell (`row`, `col`) is inside the grid and the disc of `c`, and is not an endpoint. */
  predicate Covers(rows: nat, cols: nat, startPos: Pos, endPos: Pos, c: Cluster, row: int, col: int) {
    InRect(rows, cols, Pos(row, col)) && InDisc(c, row, col) && !IsStartOrEnd(row, col, startPos, endPos)
  }

  /** `w` is a cell `c` covers, with the weight of `c`. */
  predicate FromCluster(rows: nat, cols: nat, startPos: Pos, endPos: Pos, c: Cluster, w: WeightedCell) {
    Covers(rows, cols, startPos, endPos, c, w.row, w.col) && w.weight == c.weight
  }

  /** The number of clusters: one per 150 cells. */
  function NumClusters(rows: nat, cols: nat): nat {
    (rows * cols) / 150
  }

  /** The cells of row `row` that `c` covers, left to right, each with the weight of `c`. */
  method DiscRow(rows: nat, cols: nat, startPos: Pos, endPos: Pos, c: Cluster, row: int)
    returns (cells: seq<WeightedCell>)
    requires c.radius >= 0
    ensures forall w :: w in cells ==> w.row == row && FromCluster(rows, cols, startPos, endPos, c, w)
    ensures forall col :: Covers(rows, cols, startPos, endPos, c, row, col) ==> WeightedCell(row, col, c.weight) in cells
  {
    cells := [];
    var col := c.center.col - c.radius;
    while col <= c.center.col + c.radius
      invariant forall w :: w in cells ==> w.row == row && FromCluster(rows, cols, startPos, endPos, c, w)
      invariant forall col' :: c.center.col - c.radius <= col' < col && Covers(rows, cols, startPos, endPos, c, row, col') ==>
                  WeightedCell(row, col', c.weight) in cells
      decreases c.center.col + c.radius - col
    {
      if row >= 0 && row < rows && col >= 0 && col < cols {
        var dr, dc := row - c.center.row, col - c.center.col;
        if dr * dr + dc * dc <= c.radius * c.radius && !IsStartOrEnd(row, col, startPos, endPos) {
          cells := cells + [WeightedCell(row, col, c.weight)];
        }
      }
      col := col + 1;
    }
    forall col | Covers(rows, cols, startPos, endPos, c, row, col)
      ensures WeightedCell(row, col, c.weight) in cells
    {
      DiscSpan(c, row, col);
    }
  }

  /** A cell of the disc is within `radius` columns of the centre. */
  lemma DiscSpan(c: Cluster, row: int, col: int)
    requires c.radius >= 0 && InDisc(c, row, col)
    ensures c.center.col - c.radius <= col <= c.center.col + c.radius
    ensures c.center.row - c.radius <= row <= c.center.row + c.radius
  {
    var dr, dc := row - c.center.row, col - c.center.col;
    assert dr * dr >= 0 && dc * dc >= 0;
    SquareBound(dc, c.radius);
    SquareBound(dr, c.radius);
  }

  lemma SquareBound(x: int, r: int)
    requires r >= 0 && x * x <= r * r
    ensures -r <= x <= r
  {
  }

  /** The cells one cluster covers, row by row. */
  method ClusterCells(rows: nat, cols: nat, startPos: Pos, endPos: Pos, c: Cluster)
    returns (cells: seq<WeightedCell>)
    requires c.radius >= 0
    ensures forall w :: w in cells ==> FromCluster(rows, cols, startPos, endPos, c, w)
    ensures forall row, col :: Covers(rows, cols, startPos, endPos, c, row, col) ==> WeightedCell(row, col, c.weight) in cells
  {
    cells := [];
    var row := c.center.row - c.radius;
    while row <= c.center.row + c.radius
      invariant forall w :: w in cells ==> FromCluster(rows, cols, startPos, endPos, c, w)
      invariant forall row', col :: c.center.row - c.radius <= row' < row && Covers(rows, cols, startPos, endPos, c, row', col) ==>
                  WeightedCell(row', col, c.weight) in cells
      decreases c.center.row + c.radius - row
    {
      var rowCells := DiscRow(rows, cols, startPos, endPos, c, row);
      cells := cells + rowCells;
      row := row + 1;
    }
    forall row, col | Covers(rows, cols, startPos, endPos, c, row, col)
      ensures WeightedCell(row, col, c.weight) in cells
    {
      DiscSpan(c, row, col);
    }
  }

  /**
   * `generateWeightedTerrain`: for each cluster, every cell of its disc
   * that is inside the grid and not an endpoint gets the cluster's weight.
   */
  method GenerateWeightedTerrain(rows: nat, cols: nat, startPos: Pos, endPos: Pos, random: Oracle)
    returns (weights: seq<WeightedCell>)
    ensures forall w :: w in weights ==>
              exists i: nat :: i < NumClusters(rows, cols) &&
                FromCluster(rows, cols, startPos, endPos, ClusterOf(rows, cols, random, i), w)
    ensures forall i: nat, row, col ::
              (i < NumClusters(rows, cols) && Covers(rows, cols, startPos, endPos, ClusterOf(rows, cols, random, i), row, col)) ==>
              WeightedCell(row, col, ClusterOf(rows, cols, random, i).weight) in weights
  {
    weights := [];
    var numClusters := (rows * cols) / 150;
    for i := 0 to numClusters
      invariant forall w :: w in weights ==>
                  exists i': nat :: i' < i && FromCluster(rows, cols, startPos, endPos, ClusterOf(rows, cols, random, i'), w)
      invariant forall i': nat, row, col ::
                  (i' < i && Covers(rows, cols, startPos, endPos, ClusterOf(rows, cols, random, i'), row, col)) ==>
                  WeightedCell(row, col, ClusterOf(rows, cols, random, i').weight) in weights
    {
      var centerRow := (random(4 * i) * rows as real).Floor;
      var centerCol := (random(4 * i + 1) * cols as real).Floor;
      var radius := (random(4 * i + 2) * 4.0).Floor + 2;
      var weight := WEIGHTS[(random(4 * i + 3) * 3.0).Floor];
      var cluster := Cluster(Pos(centerRow, centerCol), radius, weight);
      assert cluster == ClusterOf(rows, cols, random, i);
      var cells := ClusterCells(rows, cols, startPos, endPos, cluster);
      weights := weights + cells;
    }
  }
}
