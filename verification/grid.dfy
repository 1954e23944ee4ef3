/**
 * Grid helpers. A grid is a sequence of rows of cells; a position is a
 * (row, column) pair.
 */
module Grid {
  import opened Wrappers
  import Helpers
  import Graph

  type Point = Graph.Point

  /** Every row is as long as the first. */
  predicate Rectangular<T>(grid: seq<seq<T>>) {
    forall i :: 0 <= i < |grid| ==> |grid[i]| == |grid[0]|
  }

  // ---------------------------------------------------------------------
  // createGrid

  /** `createGrid`: `rows` rows of `cols` cells, each `defaultValue`. */
  function CreateGrid<T>(rows: nat, cols: nat, defaultValue: T): (g: seq<seq<T>>)
    ensures |g| == rows && Rectangular(g)
    ensures forall i :: 0 <= i < rows ==> |g[i]| == cols
    ensures forall i, j :: 0 <= i < rows && 0 <= j < cols ==> g[i][j] == defaultValue
  {
    seq(rows, _ => seq(cols, _ => defaultValue))
  }

  // ---------------------------------------------------------------------
  // getAdjacent4, getAdjacent8

  predicate InBounds(p: Point, maxRow: int, maxCol: int) {
    0 <= p.0 <= maxRow && 0 <= p.1 <= maxCol
  }

  /** The larger of the two coordinate differences. */
  function Chebyshev(p: Point, q: Point): int {
    var dr, dc := Helpers.Abs(p.0 - q.0), Helpers.Abs(p.1 - q.1);
    if dr < dc then dc else dr
  }

  const Directions4: seq<Point> := [(-1, 0), (1, 0), (0, -1), (0, 1)]

  const Directions8: seq<Point> := [(-1, -1), (-1, 0), (-1, 1), (0, -1), (0, 1), (1, -1), (1, 0), (1, 1)]

  /** The `map` step: `(row + dr, col + dc)` for each direction, in order. */
  function Shifted(row: int, col: int, dirs: seq<Point>): (ps: seq<Point>)
    ensures |ps| == |dirs|
    ensures forall k :: 0 <= k < |dirs| ==> ps[k] == (row + dirs[k].0, col + dirs[k].1)
  {
    seq(|dirs|, k requires 0 <= k < |dirs| => (row + dirs[k].0, col + dirs[k].1))
  }

  /** The `filter` step: the positions inside the bounds, in order. */
  function KeepInBounds(ps: seq<Point>, maxRow: int, maxCol: int): (r: seq<Point>)
    ensures |r| <= |ps|
    ensures forall p :: p in r <==> p in ps && InBounds(p, maxRow, maxCol)
  {
    if ps == [] then []
    else
      var rest := KeepInBounds(ps[1..], maxRow, maxCol);
      assert forall p :: p in ps <==> p == ps[0] || p in ps[1..];
      if InBounds(ps[0], maxRow, maxCol) then [ps[0]] + rest else rest
  }

  /** The filter keeps the order of what it keeps. */
  lemma {:induction false} KeepSubsequence(ps: seq<Point>, maxRow: int, maxCol: int)
    ensures Helpers.IsSubsequence(KeepInBounds(ps, maxRow, maxCol), ps)
  {
    if ps != [] {
      KeepSubsequence(ps[1..], maxRow, maxCol);
      var r := KeepInBounds(ps, maxRow, maxCol);
      if InBounds(ps[0], maxRow, maxCol) {
        assert r[1..] == KeepInBounds(ps[1..], maxRow, maxCol);
      }
    }
  }

  /** The four candidates are exactly the positions one step away along one axis. */
  lemma Candidates4(row: int, col: int, p: Point)
    ensures p in Shifted(row, col, Directions4) <==> Graph.ManhattanDistance(p, (row, col)) == 1
  {
    var ps := Shifted(row, col, Directions4);
    if Graph.ManhattanDistance(p, (row, col)) == 1 {
      if p.0 < row {
        assert p == ps[0];
      } else if p.0 > row {
        assert p == ps[1];
      } else if p.1 < col {
        assert p == ps[2];
      } else {
        assert p == ps[3];
      }
    }
  }

  /** The eight candidates are exactly the positions at Chebyshev distance 1. */
  lemma Candidates8(row: int, col: int, p: Point)
    ensures p in Shifted(row, col, Directions8) <==> Chebyshev(p, (row, col)) == 1
  {
    var ps := Shifted(row, col, Directions8);
    if Chebyshev(p, (row, col)) == 1 {
      var dr, dc := p.0 - row, p.1 - col;
      var k := if dr == -1 then 1 + dc else if dr == 0 then (if dc == -1 then 3 else 4) else 6 + dc;
      assert p == ps[k];
    }
  }

  /**
   * `getAdjacent4`: exactly the in-bounds positions one step away along one
   * axis, at most four, in the order up, down, left, right.
   */
  function GetAdjacent4(row: int, col: int, maxRow: int, maxCol: int): (r: seq<Point>)
    ensures |r| <= 4
    ensures forall p :: p in r <==> InBounds(p, maxRow, maxCol) && Graph.ManhattanDistance(p, (row, col)) == 1
    ensures Helpers.IsSubsequence(r, Shifted(row, col, Directions4))
  {
    var ps := Shifted(row, col, Directions4);
    KeepSubsequence(ps, maxRow, maxCol);
    assert forall p :: p in ps <==> Graph.ManhattanDistance(p, (row, col)) == 1 by {
      forall p ensures p in ps <==> Graph.ManhattanDistance(p, (row, col)) == 1 {
        Candidates4(row, col, p);
      }
    }
    KeepInBounds(ps, maxRow, maxCol)
  }

  /**
   * `getAdjacent8`: exactly the in-bounds positions at Chebyshev distance 1
   * (never the cell itself), at most eight, in the listed direction order.
   */
  function GetAdjacent8(row: int, col: int, maxRow: int, maxCol: int): (r: seq<Point>)
    ensures |r| <= 8
    ensures forall p :: p in r <==> InBounds(p, maxRow, maxCol) && Chebyshev(p, (row, col)) == 1
    ensures (row, col) !in r
    ensures Helpers.IsSubsequence(r, Shifted(row, col, Directions8))
  {
    var ps := Shifted(row, col, Directions8);
    KeepSubsequence(ps, maxRow, maxCol);
    assert forall p :: p in ps <==> Chebyshev(p, (row, col)) == 1 by {
      forall p ensures p in ps <==> Chebyshev(p, (row, col)) == 1 {
        Candidates8(row, col, p);
      }
    }
    KeepInBounds(ps, maxRow, maxCol)
  }

  // ---------------------------------------------------------------------
  // rotateGrid90, transposeGrid

  /**
   * The grid turned a quarter clockwise: row `c` of the result is column
   * `c` read from the bottom row up.
   */
  function Rotated<T>(grid: seq<seq<T>>): (g: seq<seq<T>>)
    requires |grid| > 0 && Rectangular(grid)
    ensures |g| == |grid[0]| && Rectangular(g)
    ensures forall c :: 0 <= c < |g| ==> |g[c]| == |grid|
    ensures forall r, c :: 0 <= r < |grid| && 0 <= c < |grid[0]| ==> g[c][|grid| - 1 - r] == grid[r][c]
  {
    seq(|grid[0]|, c requires 0 <= c < |grid[0]| =>
      seq(|grid|, k requires 0 <= k < |grid| => grid[|grid| - 1 - k][c]))
  }

  /**
   * `rotateGrid90`: fill a fresh cols x rows grid cell by cell with
   * `rotated[c][rows - 1 - r] = grid[r][c]`. An empty grid has no
   * `grid[0]` and makes the source throw; here that is `None`.
   */
  method RotateGrid90<T>(grid: seq<seq<T>>) returns (result: Option<seq<seq<T>>>)
    requires Rectangular(grid)
    ensures grid == [] ==> result == None
    ensures grid != [] ==> result == Some(Rotated(grid))
  {
    if |grid| == 0 {
      return None;
    }
    var rows, cols := |grid|, |grid[0]|;
    // Every cell of the fresh grid is overwritten below; a grid with no
    // columns has no cells to take a placeholder from and rotates to [].
    var rotated := if cols == 0 then [] else CreateGrid(cols, rows, grid[0][0]);
    for r := 0 to rows
      invariant |rotated| == cols && forall c :: 0 <= c < cols ==> |rotated[c]| == rows
      invariant forall c, k :: 0 <= c < cols && rows - r <= k < rows ==> rotated[c][k] == grid[rows - 1 - k][c]
    {
      for c := 0 to cols
        invariant |rotated| == cols && forall c' :: 0 <= c' < cols ==> |rotated[c']| == rows
        invariant forall c', k :: 0 <= c' < cols && rows - r <= k < rows ==> rotated[c'][k] == grid[rows - 1 - k][c']
        invariant forall c' :: 0 <= c' < c ==> rotated[c'][rows - 1 - r] == grid[r][c']
      {
        rotated := rotated[c := rotated[c][rows - 1 - r := grid[r][c]]];
      }
    }
    var expected := Rotated(grid);
    forall c | 0 <= c < cols ensures rotated[c] == expected[c] {
      forall k | 0 <= k < rows ensures rotated[c][k] == expected[c][k] {
        assert expected[c][k] == grid[rows - 1 - k][c];
      }
    }
    assert rotated == expected;
    return Some(rotated);
  }

  /** Two quarter turns are a half turn: rows and columns both read backwards. */
  lemma HalfTurn<T>(grid: seq<seq<T>>)
    requires |grid| > 0 && |grid[0]| > 0 && Rectangular(grid)
    ensures |Rotated(Rotated(grid))| == |grid|
    ensures forall r :: 0 <= r < |grid| ==> |Rotated(Rotated(grid))[r]| == |grid[0]|
    ensures forall r, c :: 0 <= r < |grid| && 0 <= c < |grid[0]| ==>
              Rotated(Rotated(grid))[r][c] == grid[|grid| - 1 - r][|grid[0]| - 1 - c]
  {
    var g1 := Rotated(grid);
    var g2 := Rotated(g1);
    forall r, c | 0 <= r < |grid| && 0 <= c < |grid[0]|
      ensures g2[r][c] == grid[|grid| - 1 - r][|grid[0]| - 1 - c]
    {
      assert g2[r][c] == g1[|g1| - 1 - c][r];
    }
  }

  /** Four quarter turns give the grid back. */
  lemma RotateFour<T>(grid: seq<seq<T>>)
    requires |grid| > 0 && |grid[0]| > 0 && Rectangular(grid)
    ensures Rotated(Rotated(Rotated(Rotated(grid)))) == grid
  {
    var h := Rotated(Rotated(grid));
    HalfTurn(grid);
    HalfTurn(h);
    var g4 := Rotated(Rotated(h));
    assert |g4| == |grid|;
    forall r | 0 <= r < |grid| ensures g4[r] == grid[r] {
      forall c | 0 <= c < |grid[0]| ensures g4[r][c] == grid[r][c] {
        assert g4[r][c] == h[|grid| - 1 - r][|grid[0]| - 1 - c];
      }
    }
  }

  /**
   * `transposeGrid`: `result[c][r] = grid[r][c]`. An empty grid has no
   * `grid[0]` and makes the source throw; here that is `None`.
   */
  function TransposeGrid<T>(grid: seq<seq<T>>): (t: Option<seq<seq<T>>>)
    requires Rectangular(grid)
    ensures t.None? <==> grid == []
    ensures t.Some? ==> |t.value| == |grid[0]| && Rectangular(t.value)
    ensures t.Some? ==> forall c :: 0 <= c < |t.value| ==> |t.value[c]| == |grid|
    ensures t.Some? ==> forall r, c :: 0 <= r < |grid| && 0 <= c < |grid[0]| ==> t.value[c][r] == grid[r][c]
  {
    if grid == [] then None
    else Some(seq(|grid[0]|, c requires 0 <= c < |grid[0]| =>
                seq(|grid|, r requires 0 <= r < |grid| => grid[r][c])))
  }

  /** Transposing twice gives the grid back (when it has a column to transpose back). */
  lemma TransposeTwice<T>(grid: seq<seq<T>>)
    requires |grid| > 0 && |grid[0]| > 0 && Rectangular(grid)
    ensures TransposeGrid(TransposeGrid(grid).value) == Some(grid)
  {
    var t := TransposeGrid(grid).value;
    assert |t| == |grid[0]| && |t[0]| == |grid|;
    var tt := TransposeGrid(t).value;
    assert |tt| == |grid|;
    forall r | 0 <= r < |grid| ensures tt[r] == grid[r] {
      assert |tt[r]| == |t| == |grid[r]|;
      forall c | 0 <= c < |grid[0]| ensures tt[r][c] == grid[r][c] {
        assert tt[r][c] == t[c][r];
      }
    }
    assert tt == grid;
  }

  function Reverse<T>(s: seq<T>): (r: seq<T>)
    ensures |r| == |s| && forall k :: 0 <= k < |s| ==> r[k] == s[|s| - 1 - k]
  {
    seq(|s|, k requires 0 <= k < |s| => s[|s| - 1 - k])
  }

  /** A quarter turn is the transpose with each of its rows reversed. */
  lemma RotateIsTransposeReversed<T>(grid: seq<seq<T>>)
    requires |grid| > 0 && Rectangular(grid)
    ensures forall c :: 0 <= c < |grid[0]| ==> Rotated(grid)[c] == Reverse(TransposeGrid(grid).value[c])
  {
    var t := TransposeGrid(grid).value;
    forall c | 0 <= c < |grid[0]| ensures Rotated(grid)[c] == Reverse(t[c]) {
      forall k | 0 <= k < |grid| ensures Rotated(grid)[c][k] == Reverse(t[c])[k] {
        assert Rotated(grid)[c][k] == grid[|grid| - 1 - k][c];
      }
    }
  }

  // ---------------------------------------------------------------------
  // findInGrid

  /** The matches among the first `n` cells of row `r`, left to right, as `[r, c, value]`. */
  function RowMatches<T>(row: seq<T>, r: int, pred: (T, int, int) -> bool, n: nat): seq<(int, int, T)>
    requires n <= |row|
  {
    if n == 0 then []
    else RowMatches(row, r, pred, n - 1) + (if pred(row[n - 1], r, n - 1) then [(r, n - 1, row[n - 1])] else [])
  }

  /** The matches in the first `n` rows, in row-major order. */
  function GridMatches<T>(grid: seq<seq<T>>, pred: (T, int, int) -> bool, n: nat): seq<(int, int, T)>
    requires n <= |grid|
  {
    if n == 0 then [] else GridMatches(grid, pred, n - 1) + RowMatches(grid[n - 1], n - 1, pred, |grid[n - 1]|)
  }

  /** `m` is the cell `grid[m.0][m.1]`, with its value, and the predicate holds there. */
  ghost predicate IsMatch<T>(grid: seq<seq<T>>, pred: (T, int, int) -> bool, m: (int, int, T)) {
    0 <= m.0 < |grid| && 0 <= m.1 < |grid[m.0]| && m.2 == grid[m.0][m.1] && pred(m.2, m.0, m.1)
  }

  /** Position `a` comes before position `b` in row-major order. */
  predicate Before<T>(a: (int, int, T), b: (int, int, T)) {
    a.0 < b.0 || (a.0 == b.0 && a.1 < b.1)
  }

  predicate RowMajor<T>(ms: seq<(int, int, T)>) {
    forall i, j :: 0 <= i < j < |ms| ==> Before(ms[i], ms[j])
  }

  /**
   * `findInGrid`: scan the rows in order and each row's cells in order,
   * pushing `[r, c, grid[r][c]]` for every cell where the predicate holds.
   */
  method FindInGrid<T>(grid: seq<seq<T>>, pred: (T, int, int) -> bool) returns (results: seq<(int, int, T)>)
    ensures results == GridMatches(grid, pred, |grid|)
  {
    results := [];
    for r := 0 to |grid|
      invariant results == GridMatches(grid, pred, r)
    {
      for c := 0 to |grid[r]|
        invariant results == GridMatches(grid, pred, r) + RowMatches(grid[r], r, pred, c)
      {
        if pred(grid[r][c], r, c) {
          results := results + [(r, c, grid[r][c])];
        }
      }
    }
  }

  /** `m` is cell `c` of row `r`, among the first `n`, with its value, and the predicate holds there. */
  ghost predicate InRow<T>(row: seq<T>, r: int, pred: (T, int, int) -> bool, n: nat, m: (int, int, T)) {
    m.0 == r && 0 <= m.1 < n && m.1 < |row| && m.2 == row[m.1] && pred(m.2, r, m.1)
  }

  lemma {:induction false} RowMatchesFacts<T>(row: seq<T>, r: int, pred: (T, int, int) -> bool, n: nat)
    requires n <= |row|
    ensures forall k :: 0 <= k < |RowMatches(row, r, pred, n)| ==> InRow(row, r, pred, n, RowMatches(row, r, pred, n)[k])
    ensures forall c :: 0 <= c < n && pred(row[c], r, c) ==> (r, c, row[c]) in RowMatches(row, r, pred, n)
    ensures RowMajor(RowMatches(row, r, pred, n))
  {
    if n > 0 {
      RowMatchesFacts(row, r, pred, n - 1);
      var a := RowMatches(row, r, pred, n - 1);
      var b: seq<(int, int, T)> := if pred(row[n - 1], r, n - 1) then [(r, n - 1, row[n - 1])] else [];
      var ab := a + b;
      assert ab == RowMatches(row, r, pred, n);
      forall k | 0 <= k < |ab| ensures InRow(row, r, pred, n, ab[k]) {
        if k < |a| {
          assert ab[k] == a[k] && InRow(row, r, pred, n - 1, a[k]);
        }
      }
      forall i, j | 0 <= i < j < |ab| ensures Before(ab[i], ab[j]) {
        if j < |a| {
          assert ab[i] == a[i] && ab[j] == a[j];
        } else {
          assert ab[i] == a[i] && InRow(row, r, pred, n - 1, a[i]);
        }
      }
    }
  }

  lemma {:induction false} GridMatchesSound<T>(grid: seq<seq<T>>, pred: (T, int, int) -> bool, n: nat)
    requires n <= |grid|
    ensures forall k :: 0 <= k < |GridMatches(grid, pred, n)| ==>
              GridMatches(grid, pred, n)[k].0 < n && IsMatch(grid, pred, GridMatches(grid, pred, n)[k])
  {
    if n > 0 {
      GridMatchesSound(grid, pred, n - 1);
      var a, b := GridMatches(grid, pred, n - 1), RowMatches(grid[n - 1], n - 1, pred, |grid[n - 1]|);
      RowMatchesFacts(grid[n - 1], n - 1, pred, |grid[n - 1]|);
      var ab := a + b;
      forall k | 0 <= k < |ab| ensures ab[k].0 < n && IsMatch(grid, pred, ab[k]) {
        if k < |a| {
          assert ab[k] == a[k];
        } else {
          assert ab[k] == b[k - |a|] && InRow(grid[n - 1], n - 1, pred, |grid[n - 1]|, b[k - |a|]);
        }
      }
    }
  }

  lemma {:induction false} GridMatchesComplete<T>(grid: seq<seq<T>>, pred: (T, int, int) -> bool, n: nat)
    requires n <= |grid|
    ensures forall m: (int, int, T) :: m.0 < n && IsMatch(grid, pred, m) ==> m in GridMatches(grid, pred, n)
  {
    if n > 0 {
      GridMatchesComplete(grid, pred, n - 1);
      var a, b := GridMatches(grid, pred, n - 1), RowMatches(grid[n - 1], n - 1, pred, |grid[n - 1]|);
      RowMatchesFacts(grid[n - 1], n - 1, pred, |grid[n - 1]|);
      forall m: (int, int, T) | m.0 < n && IsMatch(grid, pred, m) ensures m in a + b {
        if m.0 < n - 1 {
          assert m in a;
        } else {
          assert m == (n - 1, m.1, grid[n - 1][m.1]);
          assert m in b;
        }
      }
    }
  }

  lemma {:induction false} GridMatchesOrdered<T>(grid: seq<seq<T>>, pred: (T, int, int) -> bool, n: nat)
    requires n <= |grid|
    ensures RowMajor(GridMatches(grid, pred, n))
  {
    if n > 0 {
      GridMatchesOrdered(grid, pred, n - 1);
      GridMatchesSound(grid, pred, n - 1);
      var a, b := GridMatches(grid, pred, n - 1), RowMatches(grid[n - 1], n - 1, pred, |grid[n - 1]|);
      RowMatchesFacts(grid[n - 1], n - 1, pred, |grid[n - 1]|);
      var ab := a + b;
      forall i, j | 0 <= i < j < |ab| ensures Before(ab[i], ab[j]) {
        if j < |a| {
          assert ab[i] == a[i] && ab[j] == a[j];
        } else if i >= |a| {
          assert ab[i] == b[i - |a|] && ab[j] == b[j - |a|];
        } else {
          assert ab[i] == a[i] && ab[j] == b[j - |a|];
          assert InRow(grid[n - 1], n - 1, pred, |grid[n - 1]|, b[j - |a|]);
        }
      }
    }
  }

  /**
   * What `findInGrid` returns: exactly the matching cells, each with its
   * value, in row-major order (so each at most once).
   */
  lemma FindInGridSpec<T>(grid: seq<seq<T>>, pred: (T, int, int) -> bool)
    ensures forall m :: m in GridMatches(grid, pred, |grid|) <==> IsMatch(grid, pred, m)
    ensures RowMajor(GridMatches(grid, pred, |grid|))
  {
    var s := GridMatches(grid, pred, |grid|);
    GridMatchesSound(grid, pred, |grid|);
    GridMatchesComplete(grid, pred, |grid|);
    GridMatchesOrdered(grid, pred, |grid|);
    forall m | m in s ensures IsMatch(grid, pred, m) {
      var k :| 0 <= k < |s| && s[k] == m;
    }
  }
}
