/**
 * Shape of a grid, adjacency, walks and their cost: the vocabulary in
 * which the searches and the store are specified.
 */
module GridModel {
  import opened Types

  /** Rows all as long as the first one, and every node knows its own place. */
  ghost predicate WellFormed(g: Grid) {
    && (forall r :: 0 <= r < |g| ==> |g[r]| == |g[0]|)
    && (forall r, c :: 0 <= r < |g| && 0 <= c < |g[r]| ==> g[r][c].row == r && g[r][c].col == c)
  }

  function Cols(g: Grid): nat {
    if |g| == 0 then 0 else |g[0]|
  }

  predicate InBounds(g: Grid, p: Pos) {
    0 <= p.row < |g| && 0 <= p.col < |g[p.row]|
  }

  function At(g: Grid, p: Pos): Node
    requires InBounds(g, p)
  {
    g[p.row][p.col]
  }

  function KindAt(g: Grid, p: Pos): NodeType
    requires InBounds(g, p)
  {
    g[p.row][p.col].nodeType
  }

  function TerrainAt(g: Grid, p: Pos): Terrain
    requires InBounds(g, p)
  {
    g[p.row][p.col].terrain
  }

  /** A cell a search may enter: inside the grid and not a wall. */
  predicate Passable(g: Grid, p: Pos) {
    InBounds(g, p) && KindAt(g, p) != Wall
  }

  function Abs(x: int): nat {
    if x < 0 then -x else x
  }

  /** Orthogonal neighbours. */
  predicate Adjacent(p: Pos, q: Pos) {
    Abs(p.row - q.row) + Abs(p.col - q.col) == 1
  }

  function Last<T>(s: seq<T>): T
    requires |s| > 0
  {
    s[|s| - 1]
  }

  predicate Distinct<T(==)>(s: seq<T>) {
    forall i, j :: 0 <= i < j < |s| ==> s[i] != s[j]
  }

  /** Two grids with the same shape, cell kinds and terrain. */
  ghost predicate SameLayout(g: Grid, h: Grid) {
    && |g| == |h|
    && (forall r :: 0 <= r < |g| ==> |g[r]| == |h[r]|)
    && (forall r, c :: 0 <= r < |g| && 0 <= c < |g[r]| ==>
          g[r][c].nodeType == h[r][c].nodeType && g[r][c].terrain == h[r][c].terrain)
  }

  /** A sequence of passable cells, each orthogonally adjacent to the next. */
  ghost predicate IsWalk(g: Grid, w: seq<Pos>) {
    && |w| >= 1
    && (forall i :: 0 <= i < |w| ==> Passable(g, w[i]))
    && (forall i :: 0 < i < |w| ==> Adjacent(w[i - 1], w[i]))
  }

  ghost predicate Reachable(g: Grid, s: Pos, t: Pos) {
    exists w :: IsWalk(g, w) && w[0] == s && Last(w) == t
  }

  /** Cost of following `w`: the terrain of every cell entered after the first. */
  function Cost(g: Grid, w: seq<Pos>): nat
    requires forall i :: 0 <= i < |w| ==> InBounds(g, w[i])
  {
    if |w| <= 1 then 0 else Cost(g, w[..|w| - 1]) + TerrainAt(g, w[|w| - 1])
  }

  lemma TakeOneMore<T>(s: seq<T>, i: nat)
    requires i < |s|
    ensures s[..i + 1] == s[..i] + [s[i]]
  {
  }

  lemma TakeAll<T>(s: seq<T>)
    ensures s[..|s|] == s
  {
  }

  lemma InTail<T>(s: seq<T>, x: T)
    requires x in s && |s| > 0 && x != s[0]
    ensures x in s[1..]
  {
    assert s == [s[0]] + s[1..];
  }

  lemma DistinctNotInPrefix<T>(s: seq<T>, i: nat)
    requires Distinct(s) && i < |s|
    ensures s[i] !in s[..i]
  {
  }

  lemma WalkPrefix(g: Grid, w: seq<Pos>, n: nat)
    requires IsWalk(g, w) && 1 <= n <= |w|
    ensures IsWalk(g, w[..n])
  {
  }

  lemma WalkExtend(g: Grid, w: seq<Pos>, p: Pos)
    requires IsWalk(g, w) && Passable(g, p) && Adjacent(Last(w), p)
    ensures IsWalk(g, w + [p])
  {
  }

  lemma SameLayoutCell(g: Grid, h: Grid, p: Pos)
    requires SameLayout(g, h) && InBounds(g, p)
    ensures InBounds(h, p) && KindAt(h, p) == KindAt(g, p) && TerrainAt(h, p) == TerrainAt(g, p)
  {
  }

  lemma SameLayoutWalk(g: Grid, h: Grid, w: seq<Pos>)
    requires SameLayout(g, h)
    ensures IsWalk(g, w) <==> IsWalk(h, w)
  {
  }

  /** Cost grows by the terrain of each cell entered. */
  lemma {:induction false} CostExtend(g: Grid, w: seq<Pos>, p: Pos)
    requires |w| >= 1 && (forall i :: 0 <= i < |w| ==> InBounds(g, w[i])) && InBounds(g, p)
    ensures Cost(g, w + [p]) == Cost(g, w) + TerrainAt(g, p)
  {
    assert (w + [p])[..|w + [p]| - 1] == w;
  }

  /** The cost of a prefix of a walk never exceeds the cost of the walk. */
  lemma {:induction false} CostPrefix(g: Grid, w: seq<Pos>, n: nat)
    requires forall i :: 0 <= i < |w| ==> InBounds(g, w[i])
    requires 1 <= n <= |w|
    ensures Cost(g, w[..n]) + (|w| - n) <= Cost(g, w)
    decreases |w|
  {
    if n < |w| {
      var v := w[..|w| - 1];
      CostPrefix(g, v, n);
      assert v[..n] == w[..n];
    } else {
      assert w[..n] == w;
    }
  }

  lemma {:induction false} SameLayoutCost(g: Grid, h: Grid, w: seq<Pos>)
    requires SameLayout(g, h)
    requires forall i :: 0 <= i < |w| ==> InBounds(g, w[i])
    ensures forall i :: 0 <= i < |w| ==> InBounds(h, w[i])
    ensures Cost(g, w) == Cost(h, w)
    decreases |w|
  {
    if |w| > 1 {
      SameLayoutCost(g, h, w[..|w| - 1]);
    }
  }

  /** The cells of a `rows` by `cols` rectangle. */
  function RectCells(rows: nat, cols: nat): set<Pos> {
    set r: int, c: int | 0 <= r < rows && 0 <= c < cols :: Pos(r, c)
  }

  /** Discovering one more cell of the grid leaves one fewer undiscovered. */
  lemma GrowWithinGrid(g: Grid, visited: set<Pos>, u: Pos)
    requires WellFormed(g) && InBounds(g, u) && u !in visited
    requires visited <= RectCells(|g|, Cols(g))
    ensures visited + {u} <= RectCells(|g|, Cols(g))
    ensures |RectCells(|g|, Cols(g)) - (visited + {u})| < |RectCells(|g|, Cols(g)) - visited|
  {
    var cells := RectCells(|g|, Cols(g));
    assert u == Pos(u.row, u.col);
    assert u in cells;
    assert cells - (visited + {u}) == (cells - visited) - {u};
  }

  /** The elements of `s` back to front. */
  function Reverse<T>(s: seq<T>): (r: seq<T>)
    ensures |r| == |s|
  {
    if s == [] then [] else Reverse(s[1..]) + [s[0]]
  }

  /** Position `i` of the reversal holds position `|s| - 1 - i` of `s`. */
  lemma {:induction false} ReverseAt<T>(s: seq<T>)
    ensures forall i :: 0 <= i < |s| ==> Reverse(s)[i] == s[|s| - 1 - i]
  {
    if s != [] {
      ReverseAt(s[1..]);
    }
  }

  /** Reversing a concatenation reverses the order of its parts. */
  lemma ReverseAppend<T>(a: seq<T>, b: seq<T>)
    ensures Reverse(a + b) == Reverse(b) + Reverse(a)
  {
    var l, r := Reverse(a + b), Reverse(b) + Reverse(a);
    ReverseAt(a + b);
    ReverseAt(a);
    ReverseAt(b);
    forall i | 0 <= i < |l| ensures l[i] == r[i] {
      if i < |b| {
        assert l[i] == b[|b| - 1 - i];
      } else {
        assert l[i] == a[|a| + |b| - 1 - i];
      }
    }
  }

  /** Reversing keeps the elements and their distinctness. */
  lemma ReverseKeeps<T>(s: seq<T>)
    ensures forall x :: x in Reverse(s) <==> x in s
    ensures Distinct(s) ==> Distinct(Reverse(s))
  {
    var r := Reverse(s);
    ReverseAt(s);
    forall x | x in s ensures x in r {
      var i :| 0 <= i < |s| && s[i] == x;
      assert r[|s| - 1 - i] == x;
    }
  }
}
