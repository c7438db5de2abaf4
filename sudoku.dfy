/**
 * The backtracking solver of algorithms/backtracking/sudoku/sudoku.js.
 *
 * The 9×9 puzzle is changed in place; 0 marks an empty cell. Three lookup
 * tables say which digits each row, each column and each 3×3 box already
 * holds; they are 9×10 boolean arrays indexed by row, column or box and then
 * by digit (index 0 is never set). The search fills the first empty cell with
 * each digit the tables allow, recurses, and undoes the placement when the
 * recursion fails.
 *
 * The proofs work on snapshots of the arrays (`Contents`), so that a grid is
 * a value: a `Grid` of cells and a `Table` of flags.
 */
module Sudoku {
  type Grid = seq<seq<int>>
  type Table = seq<seq<bool>>

  // ---------------------------------------------------------------------
  // Snapshots of two-dimensional arrays

  ghost function RowOf<T>(a: array2<T>, i: nat, k: nat): (s: seq<T>)
    requires i < a.Length0 && k <= a.Length1
    reads a
    ensures |s| == k && forall j :: 0 <= j < k ==> s[j] == a[i, j]
  {
    if k == 0 then [] else RowOf(a, i, k - 1) + [a[i, k - 1]]
  }

  ghost function RowsOf<T>(a: array2<T>, k: nat): (s: seq<seq<T>>)
    requires k <= a.Length0
    reads a
    ensures |s| == k && forall i :: 0 <= i < k ==> s[i] == RowOf(a, i, a.Length1)
  {
    if k == 0 then [] else RowsOf(a, k - 1) + [RowOf(a, k - 1, a.Length1)]
  }

  /** The contents of `a`, row by row. */
  ghost function Contents<T>(a: array2<T>): (s: seq<seq<T>>)
    reads a
    ensures |s| == a.Length0
    ensures forall i :: 0 <= i < a.Length0 ==> |s[i]| == a.Length1
    ensures forall i, j :: 0 <= i < a.Length0 && 0 <= j < a.Length1 ==> s[i][j] == a[i, j]
  {
    RowsOf(a, a.Length0)
  }

  /** `s` with the entry at row `i`, column `j` replaced by `v`. */
  function Update<T>(s: seq<seq<T>>, i: int, j: int, v: T): (r: seq<seq<T>>)
    requires 0 <= i < |s| && 0 <= j < |s[i]|
    ensures |r| == |s| && forall k :: 0 <= k < |s| ==> |r[k]| == |s[k]|
    ensures forall k, l :: 0 <= k < |s| && 0 <= l < |s[k]| ==>
      r[k][l] == if k == i && l == j then v else s[k][l]
  {
    s[i := s[i][j := v]]
  }

  /** Writing back the entry an update replaced undoes the update. */
  lemma UpdateUndo<T>(s: seq<seq<T>>, i: int, j: int, v: T)
    requires 0 <= i < |s| && 0 <= j < |s[i]|
    ensures Update(Update(s, i, j, v), i, j, s[i][j]) == s
  {
    var r := Update(Update(s, i, j, v), i, j, s[i][j]);
    assert r[i] == s[i];
  }

  /** An array that agrees with `s` everywhere but at `[i, j]` is the update
      of `s` at `[i, j]`. */
  lemma Written<T>(a: array2<T>, s: seq<seq<T>>, i: int, j: int)
    requires 0 <= i < a.Length0 && 0 <= j < a.Length1
    requires |s| == a.Length0 && forall k :: 0 <= k < |s| ==> |s[k]| == a.Length1
    requires forall k, l :: 0 <= k < a.Length0 && 0 <= l < a.Length1 && (k != i || l != j) ==>
      a[k, l] == s[k][l]
    ensures Contents(a) == Update(s, i, j, a[i, j])
  {
    var c, u := Contents(a), Update(s, i, j, a[i, j]);
    forall k | 0 <= k < |s|
      ensures c[k] == u[k]
    {
      assert |c[k]| == |u[k]|;
    }
  }

  /** An array that agrees with `s` everywhere is `s`. */
  lemma Unwritten<T>(a: array2<T>, s: seq<seq<T>>)
    requires |s| == a.Length0 && forall k :: 0 <= k < |s| ==> |s[k]| == a.Length1
    requires forall k, l :: 0 <= k < a.Length0 && 0 <= l < a.Length1 ==> a[k, l] == s[k][l]
    ensures Contents(a) == s
  {
    var c := Contents(a);
    forall k | 0 <= k < |s|
      ensures c[k] == s[k]
    {
      assert |c[k]| == |s[k]|;
    }
  }

  // ---------------------------------------------------------------------
  // Boxes

  /** The band of three rows, or the stack of three columns, that index
      `x` lies in. */
  function Band(x: int): int
    requires 0 <= x < 9
  {
    if x < 3 then 0 else if x < 6 then 1 else 2
  }

  /** `boxIndex`: the 3×3 boxes are numbered 0 to 8 row by row. */
  function BoxIndex(row: int, col: int): (b: int)
    requires 0 <= row < 9 && 0 <= col < 9
    ensures 0 <= b < 9
  {
    3 * Band(row) + Band(col)
  }

  /** `BoxIndex` is `Math.floor(row / 3) * 3 + Math.floor(col / 3)`. */
  lemma BoxIndexFloor(row: int, col: int)
    requires 0 <= row < 9 && 0 <= col < 9
    ensures BoxIndex(row, col) == (row / 3) * 3 + col / 3
  {
    assert Band(row) == row / 3 && Band(col) == col / 3;
  }

  /** Two cells share a box exactly when they share a band of rows and a
      stack of columns. */
  lemma SameBox(row: int, col: int, row': int, col': int)
    requires 0 <= row < 9 && 0 <= col < 9 && 0 <= row' < 9 && 0 <= col' < 9
    ensures BoxIndex(row, col) == BoxIndex(row', col') <==> row / 3 == row' / 3 && col / 3 == col' / 3
  {
    BoxIndexFloor(row, col);
    BoxIndexFloor(row', col');
  }

  // ---------------------------------------------------------------------
  // Grids, solutions and tables

  ghost predicate IsGrid(g: Grid) {
    |g| == 9 && forall i :: 0 <= i < 9 ==> |g[i]| == 9
  }

  ghost predicate IsTable(t: Table) {
    |t| == 9 && forall i :: 0 <= i < 9 ==> |t[i]| == 10
  }

  /** Every cell is empty or holds a digit. */
  ghost predicate Digits(g: Grid) {
    IsGrid(g) && forall i, j :: 0 <= i < 9 && 0 <= j < 9 ==> 0 <= g[i][j] <= 9
  }

  /** Every cell holds a digit. */
  ghost predicate Complete(g: Grid) {
    IsGrid(g) && forall i, j :: 0 <= i < 9 && 0 <= j < 9 ==> 1 <= g[i][j] <= 9
  }

  /** The empty cells. */
  ghost function ZeroCells(g: Grid): set<(int, int)>
    requires IsGrid(g)
  {
    set i, j | 0 <= i < 9 && 0 <= j < 9 && g[i][j] == 0 :: (i, j)
  }

  /** Two different cells in one row, one column or one box. */
  predicate Peers(i: int, j: int, i': int, j': int)
    requires 0 <= i < 9 && 0 <= j < 9 && 0 <= i' < 9 && 0 <= j' < 9
  {
    (i != i' || j != j') && (i == i' || j == j' || BoxIndex(i, j) == BoxIndex(i', j'))
  }

  /** Some peer of cell `(i, j)` holds the same value. */
  ghost predicate Clash(g: Grid, i: int, j: int)
    requires IsGrid(g) && 0 <= i < 9 && 0 <= j < 9
  {
    exists i', j' :: 0 <= i' < 9 && 0 <= j' < 9 && Peers(i, j, i', j') && g[i'][j'] == g[i][j]
  }

  /** No digit appears twice in a row, a column or a box. */
  ghost predicate Consistent(g: Grid) {
    IsGrid(g) && forall i, j :: 0 <= i < 9 && 0 <= j < 9 && g[i][j] != 0 ==> !Clash(g, i, j)
  }

  ghost predicate Solution(s: Grid) {
    Complete(s) && Consistent(s)
  }

  /** `s` keeps every filled cell of `g`. */
  ghost predicate Extends(s: Grid, g: Grid) {
    IsGrid(s) && IsGrid(g) && forall i, j :: 0 <= i < 9 && 0 <= j < 9 && g[i][j] != 0 ==> s[i][j] == g[i][j]
  }

  /** Some solution keeps every filled cell of `g`. */
  ghost predicate Solvable(g: Grid) {
    exists s :: Solution(s) && Extends(s, g)
  }

  /** Some solution keeps every filled cell of `g` and puts `n` at `(i, j)`. */
  ghost predicate SolvableWith(g: Grid, i: int, j: int, n: int)
    requires 0 <= i < 9 && 0 <= j < 9
  {
    exists s :: Solution(s) && Extends(s, g) && s[i][j] == n
  }

  ghost predicate InRow(g: Grid, i: int, m: int)
    requires IsGrid(g) && 0 <= i < 9
  {
    exists j :: 0 <= j < 9 && g[i][j] == m
  }

  ghost predicate InColumn(g: Grid, j: int, m: int)
    requires IsGrid(g) && 0 <= j < 9
  {
    exists i :: 0 <= i < 9 && g[i][j] == m
  }

  ghost predicate InBox(g: Grid, b: int, m: int)
    requires IsGrid(g)
  {
    exists i, j :: 0 <= i < 9 && 0 <= j < 9 && BoxIndex(i, j) == b && g[i][j] == m
  }

  /** Which digits each row of `g` holds; the digit 0 is never marked. */
  ghost function RowMarks(g: Grid): (t: Table)
    requires IsGrid(g)
    ensures IsTable(t)
  {
    seq(9, i requires 0 <= i < 9 => seq(10, m => m != 0 && InRow(g, i, m)))
  }

  ghost function ColumnMarks(g: Grid): (t: Table)
    requires IsGrid(g)
    ensures IsTable(t)
  {
    seq(9, j requires 0 <= j < 9 => seq(10, m => m != 0 && InColumn(g, j, m)))
  }

  ghost function BoxMarks(g: Grid): (t: Table)
    requires IsGrid(g)
    ensures IsTable(t)
  {
    seq(9, b => seq(10, m => m != 0 && InBox(g, b, m)))
  }

  /** The tables say exactly which digits each row, column and box of `g`
      holds. */
  ghost predicate Tracks(g: Grid, rows: Table, columns: Table, boxes: Table) {
    IsGrid(g) && rows == RowMarks(g) && columns == ColumnMarks(g) && boxes == BoxMarks(g)
  }

  /** The arrays the solver works on, of the sizes it indexes, and three
      different tables. */
  predicate Shaped(puzzle: array2<int>, rows: array2<bool>, columns: array2<bool>, boxes: array2<bool>) {
    && puzzle.Length0 == 9 && puzzle.Length1 == 9
    && rows.Length0 == 9 && rows.Length1 == 10
    && columns.Length0 == 9 && columns.Length1 == 10
    && boxes.Length0 == 9 && boxes.Length1 == 10
    && rows != columns && rows != boxes && columns != boxes
  }

  // ---------------------------------------------------------------------
  // Initialisation: the tables after the first `k` cells of a scan

  /** Row `i` holds `m` among the cells before position `k` of the row-major
      scan. */
  ghost predicate RowHasBefore(g: Grid, i: int, m: int, k: int)
    requires IsGrid(g) && 0 <= i < 9
  {
    exists j :: 0 <= j < 9 && 9 * i + j < k && g[i][j] == m
  }

  /** Box `b` holds `m` among the cells before position `k` of the row-major
      scan. */
  ghost predicate BoxHasBefore(g: Grid, b: int, m: int, k: int)
    requires IsGrid(g)
  {
    exists i, j :: 0 <= i < 9 && 0 <= j < 9 && 9 * i + j < k && BoxIndex(i, j) == b && g[i][j] == m
  }

  /** Column `j` holds `m` among the cells before position `k` of the
      column-major scan. */
  ghost predicate ColumnHasBefore(g: Grid, j: int, m: int, k: int)
    requires IsGrid(g) && 0 <= j < 9
  {
    exists i :: 0 <= i < 9 && 9 * j + i < k && g[i][j] == m
  }

  ghost function RowTable(g: Grid, k: int): (t: Table)
    requires IsGrid(g)
    ensures IsTable(t)
  {
    seq(9, i requires 0 <= i < 9 => seq(10, m => m != 0 && RowHasBefore(g, i, m, k)))
  }

  ghost function BoxTable(g: Grid, k: int): (t: Table)
    requires IsGrid(g)
    ensures IsTable(t)
  {
    seq(9, b => seq(10, m => m != 0 && BoxHasBefore(g, b, m, k)))
  }

  ghost function ColumnTable(g: Grid, k: int): (t: Table)
    requires IsGrid(g)
    ensures IsTable(t)
  {
    seq(9, j requires 0 <= j < 9 => seq(10, m => m != 0 && ColumnHasBefore(g, j, m, k)))
  }

  /** The empty cells before position `k` of the row-major scan. */
  ghost function ZerosBefore(g: Grid, k: int): set<(int, int)>
    requires IsGrid(g)
  {
    set i, j | 0 <= i < 9 && 0 <= j < 9 && 9 * i + j < k && g[i][j] == 0 :: (i, j)
  }

  /** Two tables that agree everywhere are equal. */
  lemma SameTables(t: Table, u: Table)
    requires IsTable(t) && IsTable(u)
    requires forall i, m :: 0 <= i < 9 && 0 <= m < 10 ==> t[i][m] == u[i][m]
    ensures t == u
  {
    forall i | 0 <= i < 9
      ensures t[i] == u[i]
    {
      assert |t[i]| == |u[i]|;
    }
  }

  /** Scanning cell `(i, j)` marks its digit in its row and its box. */
  lemma RowScanStep(g: Grid, i: int, j: int)
    requires Digits(g) && 0 <= i < 9 && 0 <= j < 9
    ensures RowTable(g, 9 * i + j + 1) ==
      if g[i][j] != 0 then Update(RowTable(g, 9 * i + j), i, g[i][j], true) else RowTable(g, 9 * i + j)
    ensures BoxTable(g, 9 * i + j + 1) ==
      if g[i][j] != 0 then Update(BoxTable(g, 9 * i + j), BoxIndex(i, j), g[i][j], true) else BoxTable(g, 9 * i + j)
  {
    var k := 9 * i + j;
    forall i', m | 0 <= i' < 9 && 0 <= m < 10
      ensures RowHasBefore(g, i', m, k + 1) <==> RowHasBefore(g, i', m, k) || (i' == i && g[i][j] == m)
      ensures BoxHasBefore(g, i', m, k + 1) <==> BoxHasBefore(g, i', m, k) || (i' == BoxIndex(i, j) && g[i][j] == m)
    {
      if RowHasBefore(g, i', m, k + 1) && !RowHasBefore(g, i', m, k) {
        var j' :| 0 <= j' < 9 && 9 * i' + j' < k + 1 && g[i'][j'] == m;
        CellPosition(i', j', i, j);
      }
      if BoxHasBefore(g, i', m, k + 1) && !BoxHasBefore(g, i', m, k) {
        var i'', j' :| 0 <= i'' < 9 && 0 <= j' < 9 && 9 * i'' + j' < k + 1 && BoxIndex(i'', j') == i' && g[i''][j'] == m;
        CellPosition(i'', j', i, j);
      }
    }
    if g[i][j] != 0 {
      SameTables(RowTable(g, k + 1), Update(RowTable(g, k), i, g[i][j], true));
      SameTables(BoxTable(g, k + 1), Update(BoxTable(g, k), BoxIndex(i, j), g[i][j], true));
    } else {
      SameTables(RowTable(g, k + 1), RowTable(g, k));
      SameTables(BoxTable(g, k + 1), BoxTable(g, k));
    }
  }

  /** Scanning cell `(i, j)` counts it when it is empty. */
  lemma ZeroScanStep(g: Grid, i: int, j: int)
    requires IsGrid(g) && 0 <= i < 9 && 0 <= j < 9
    ensures |ZerosBefore(g, 9 * i + j + 1)| == |ZerosBefore(g, 9 * i + j)| + if g[i][j] == 0 then 1 else 0
  {
    var k := 9 * i + j;
    forall c | c in ZerosBefore(g, k + 1)
      ensures c in ZerosBefore(g, k) || c == (i, j)
    {
      CellPosition(c.0, c.1, i, j);
    }
    if g[i][j] == 0 {
      assert ZerosBefore(g, k + 1) == ZerosBefore(g, k) + {(i, j)};
    } else {
      assert ZerosBefore(g, k + 1) == ZerosBefore(g, k);
    }
  }

  /** Scanning cell `(i, j)` in column-major order marks its digit in its
      column. */
  lemma ColumnScanStep(g: Grid, i: int, j: int)
    requires Digits(g) && 0 <= i < 9 && 0 <= j < 9
    ensures ColumnTable(g, 9 * j + i + 1) ==
      if g[i][j] != 0 then Update(ColumnTable(g, 9 * j + i), j, g[i][j], true) else ColumnTable(g, 9 * j + i)
  {
    var k := 9 * j + i;
    forall j', m | 0 <= j' < 9 && 0 <= m < 10
      ensures ColumnHasBefore(g, j', m, k + 1) <==> ColumnHasBefore(g, j', m, k) || (j' == j && g[i][j] == m)
    {
      if ColumnHasBefore(g, j', m, k + 1) && !ColumnHasBefore(g, j', m, k) {
        var i' :| 0 <= i' < 9 && 9 * j' + i' < k + 1 && g[i'][j'] == m;
        CellPosition(j', i', j, i);
      }
    }
    if g[i][j] != 0 {
      SameTables(ColumnTable(g, k + 1), Update(ColumnTable(g, k), j, g[i][j], true));
    } else {
      SameTables(ColumnTable(g, k + 1), ColumnTable(g, k));
    }
  }

  /** Position `9 * i + j` of a scan is cell `(i, j)` and no other. */
  lemma CellPosition(i: int, j: int, i': int, j': int)
    requires 0 <= j < 9 && 0 <= j' < 9
    ensures 9 * i + j == 9 * i' + j' <==> i == i' && j == j'
    ensures 9 * i + j < 9 * i' + j' + 1 ==> 9 * i + j < 9 * i' + j' || (i == i' && j == j')
  {
  }

  /** A finished scan has marked what the grid holds and counted its empty
      cells. */
  lemma ScanDone(g: Grid)
    requires IsGrid(g)
    ensures Tracks(g, RowTable(g, 81), ColumnTable(g, 81), BoxTable(g, 81))
    ensures ZerosBefore(g, 81) == ZeroCells(g)
  {
    forall i, m | 0 <= i < 9 && 0 <= m < 10
      ensures RowHasBefore(g, i, m, 81) <==> InRow(g, i, m)
      ensures ColumnHasBefore(g, i, m, 81) <==> InColumn(g, i, m)
      ensures BoxHasBefore(g, i, m, 81) <==> InBox(g, i, m)
    {
      if InRow(g, i, m) {
        var j :| 0 <= j < 9 && g[i][j] == m;
        assert 9 * i + j < 81;
      }
      if InColumn(g, i, m) {
        var i' :| 0 <= i' < 9 && g[i'][i] == m;
        assert 9 * i + i' < 81;
      }
      if InBox(g, i, m) {
        var i', j :| 0 <= i' < 9 && 0 <= j < 9 && BoxIndex(i', j) == i && g[i'][j] == m;
        assert 9 * i' + j < 81;
      }
    }
    SameTables(RowTable(g, 81), RowMarks(g));
    SameTables(ColumnTable(g, 81), ColumnMarks(g));
    SameTables(BoxTable(g, 81), BoxMarks(g));
  }

  // ---------------------------------------------------------------------
  // Placing a digit

  /** Placing a digit the tables allow at an empty cell: the grid keeps its
      digits, the tables with that digit marked track it, and one empty cell
      fewer is left. */
  lemma Placed(g: Grid, rows: Table, columns: Table, boxes: Table, i: int, j: int, n: int)
    requires Digits(g) && Tracks(g, rows, columns, boxes)
    requires 0 <= i < 9 && 0 <= j < 9 && g[i][j] == 0 && 1 <= n <= 9
    requires !rows[i][n] && !columns[j][n] && !boxes[BoxIndex(i, j)][n]
    ensures Digits(Update(g, i, j, n))
    ensures Tracks(Update(g, i, j, n), Update(rows, i, n, true), Update(columns, j, n, true),
                   Update(boxes, BoxIndex(i, j), n, true))
    ensures (i, j) in ZeroCells(g) && ZeroCells(Update(g, i, j, n)) == ZeroCells(g) - {(i, j)}
  {
    var g' := Update(g, i, j, n);
    PlacedRows(g, i, j, n);
    PlacedColumns(g, i, j, n);
    PlacedBoxes(g, i, j, n);
    SameTables(RowMarks(g'), Update(rows, i, n, true));
    SameTables(ColumnMarks(g'), Update(columns, j, n, true));
    SameTables(BoxMarks(g'), Update(boxes, BoxIndex(i, j), n, true));
    assert (i, j) in ZeroCells(g);
  }

  /** Placing `n` at an empty cell puts `n` in its row and changes no other
      digit of any row. */
  lemma PlacedRows(g: Grid, i: int, j: int, n: int)
    requires IsGrid(g) && 0 <= i < 9 && 0 <= j < 9 && g[i][j] == 0 && 1 <= n <= 9
    ensures InRow(Update(g, i, j, n), i, n)
    ensures forall i', m :: 0 <= i' < 9 && 1 <= m <= 9 && (i' != i || m != n) ==>
      (InRow(Update(g, i, j, n), i', m) <==> InRow(g, i', m))
  {
    var g' := Update(g, i, j, n);
    assert g'[i][j] == n;
    forall i', m | 0 <= i' < 9 && 1 <= m <= 9 && (i' != i || m != n)
      ensures InRow(g', i', m) <==> InRow(g, i', m)
    {
      if InRow(g', i', m) {
        var j' :| 0 <= j' < 9 && g'[i'][j'] == m;
        assert g[i'][j'] == m;
      }
      if InRow(g, i', m) {
        var j' :| 0 <= j' < 9 && g[i'][j'] == m;
        assert g'[i'][j'] == m;
      }
    }
  }

  /** Placing `n` at an empty cell puts `n` in its column and changes no
      other digit of any column. */
  lemma PlacedColumns(g: Grid, i: int, j: int, n: int)
    requires IsGrid(g) && 0 <= i < 9 && 0 <= j < 9 && g[i][j] == 0 && 1 <= n <= 9
    ensures InColumn(Update(g, i, j, n), j, n)
    ensures forall j', m :: 0 <= j' < 9 && 1 <= m <= 9 && (j' != j || m != n) ==>
      (InColumn(Update(g, i, j, n), j', m) <==> InColumn(g, j', m))
  {
    var g' := Update(g, i, j, n);
    assert g'[i][j] == n;
    forall j', m | 0 <= j' < 9 && 1 <= m <= 9 && (j' != j || m != n)
      ensures InColumn(g', j', m) <==> InColumn(g, j', m)
    {
      if InColumn(g', j', m) {
        var i' :| 0 <= i' < 9 && g'[i'][j'] == m;
        assert g[i'][j'] == m;
      }
      if InColumn(g, j', m) {
        var i' :| 0 <= i' < 9 && g[i'][j'] == m;
        assert g'[i'][j'] == m;
      }
    }
  }

  /** Placing `n` at an empty cell puts `n` in its box and changes no other
      digit of any box. */
  lemma PlacedBoxes(g: Grid, i: int, j: int, n: int)
    requires IsGrid(g) && 0 <= i < 9 && 0 <= j < 9 && g[i][j] == 0 && 1 <= n <= 9
    ensures InBox(Update(g, i, j, n), BoxIndex(i, j), n)
    ensures forall b, m :: 0 <= b < 9 && 1 <= m <= 9 && (b != BoxIndex(i, j) || m != n) ==>
      (InBox(Update(g, i, j, n), b, m) <==> InBox(g, b, m))
  {
    PlacedInBox(g, i, j, n);
    OtherBoxes(g, i, j, n);
  }

  lemma PlacedInBox(g: Grid, i: int, j: int, n: int)
    requires IsGrid(g) && 0 <= i < 9 && 0 <= j < 9 && 1 <= n <= 9
    ensures InBox(Update(g, i, j, n), BoxIndex(i, j), n)
  {
    assert Update(g, i, j, n)[i][j] == n;
  }

  lemma OtherBoxes(g: Grid, i: int, j: int, n: int)
    requires IsGrid(g) && 0 <= i < 9 && 0 <= j < 9 && g[i][j] == 0 && 1 <= n <= 9
    ensures forall b, m :: 0 <= b < 9 && 1 <= m <= 9 && (b != BoxIndex(i, j) || m != n) ==>
      (InBox(Update(g, i, j, n), b, m) <==> InBox(g, b, m))
  {
    forall b, m | 0 <= b < 9 && 1 <= m <= 9 && (b != BoxIndex(i, j) || m != n)
      ensures InBox(Update(g, i, j, n), b, m) <==> InBox(g, b, m)
    {
      OtherBox(g, i, j, n, b, m);
    }
  }

  lemma OtherBox(g: Grid, i: int, j: int, n: int, b: int, m: int)
    requires IsGrid(g) && 0 <= i < 9 && 0 <= j < 9 && g[i][j] == 0 && 1 <= n <= 9
    requires 0 <= b < 9 && 1 <= m <= 9 && (b != BoxIndex(i, j) || m != n)
    ensures InBox(Update(g, i, j, n), b, m) <==> InBox(g, b, m)
  {
    var g' := Update(g, i, j, n);
    if InBox(g', b, m) {
      var i', j' :| 0 <= i' < 9 && 0 <= j' < 9 && BoxIndex(i', j') == b && g'[i'][j'] == m;
      KeptCell(g, i, j, n, i', j', m);
      BoxHolds(g, b, m, i', j');
    }
    if InBox(g, b, m) {
      var i', j' :| 0 <= i' < 9 && 0 <= j' < 9 && BoxIndex(i', j') == b && g[i'][j'] == m;
      BoxHolds(g', b, m, i', j');
    }
  }

  /** A cell holding a digit other than 0 was not the one filled in, unless
      it holds the digit placed. */
  lemma KeptCell(g: Grid, i: int, j: int, n: int, i': int, j': int, m: int)
    requires IsGrid(g) && 0 <= i < 9 && 0 <= j < 9 && g[i][j] == 0
    requires 0 <= i' < 9 && 0 <= j' < 9 && Update(g, i, j, n)[i'][j'] == m
    requires (i', j') == (i, j) ==> m != n
    ensures g[i'][j'] == m
  {
  }

  lemma BoxHolds(g: Grid, b: int, m: int, i: int, j: int)
    requires IsGrid(g) && 0 <= i < 9 && 0 <= j < 9 && BoxIndex(i, j) == b && g[i][j] == m
    ensures InBox(g, b, m)
  {
  }

  /** Placing at an empty cell a digit its row, column and box lack keeps
      the grid consistent. */
  lemma PlacedConsistent(g: Grid, rows: Table, columns: Table, boxes: Table, i: int, j: int, n: int)
    requires Consistent(g) && Tracks(g, rows, columns, boxes)
    requires 0 <= i < 9 && 0 <= j < 9 && g[i][j] == 0 && 1 <= n <= 9
    requires !rows[i][n] && !columns[j][n] && !boxes[BoxIndex(i, j)][n]
    ensures Consistent(Update(g, i, j, n))
  {
    var g' := Update(g, i, j, n);
    forall i', j' | 0 <= i' < 9 && 0 <= j' < 9 && g'[i'][j'] != 0
      ensures !Clash(g', i', j')
    {
      PlacedNoClash(g, rows, columns, boxes, i, j, n, i', j');
    }
  }

  lemma PlacedNoClash(g: Grid, rows: Table, columns: Table, boxes: Table, i: int, j: int, n: int, i': int, j': int)
    requires Consistent(g) && Tracks(g, rows, columns, boxes)
    requires 0 <= i < 9 && 0 <= j < 9 && g[i][j] == 0 && 1 <= n <= 9
    requires !rows[i][n] && !columns[j][n] && !boxes[BoxIndex(i, j)][n]
    requires 0 <= i' < 9 && 0 <= j' < 9 && Update(g, i, j, n)[i'][j'] != 0
    ensures !Clash(Update(g, i, j, n), i', j')
  {
    var g' := Update(g, i, j, n);
    assert g'[i'][j'] == if i' == i && j' == j then n else g[i'][j'];
  }

  /** A digit marked in a table of an empty cell cannot go there in any
      solution. */
  lemma Blocked(g: Grid, rows: Table, columns: Table, boxes: Table, i: int, j: int, n: int)
    requires Tracks(g, rows, columns, boxes)
    requires 0 <= i < 9 && 0 <= j < 9 && g[i][j] == 0 && 1 <= n <= 9
    requires rows[i][n] || columns[j][n] || boxes[BoxIndex(i, j)][n]
    ensures !SolvableWith(g, i, j, n)
  {
    if SolvableWith(g, i, j, n) {
      var s :| Solution(s) && Extends(s, g) && s[i][j] == n;
      var i', j' := Holder(g, rows, columns, boxes, i, j, n);
    }
  }

  /** A peer of `(i, j)` that holds the digit a table marks. */
  lemma Holder(g: Grid, rows: Table, columns: Table, boxes: Table, i: int, j: int, n: int) returns (i': int, j': int)
    requires Tracks(g, rows, columns, boxes)
    requires 0 <= i < 9 && 0 <= j < 9 && g[i][j] == 0 && 1 <= n <= 9
    requires rows[i][n] || columns[j][n] || boxes[BoxIndex(i, j)][n]
    ensures 0 <= i' < 9 && 0 <= j' < 9 && Peers(i, j, i', j') && g[i'][j'] == n
  {
    if rows[i][n] {
      assert InRow(g, i, n);
      i' := i;
      j' :| 0 <= j' < 9 && g[i][j'] == n;
    } else if columns[j][n] {
      assert InColumn(g, j, n);
      j' := j;
      i' :| 0 <= i' < 9 && g[i'][j] == n;
    } else {
      assert InBox(g, BoxIndex(i, j), n);
      i', j' :| 0 <= i' < 9 && 0 <= j' < 9 && BoxIndex(i', j') == BoxIndex(i, j) && g[i'][j'] == n;
    }
  }

  /** A solution that keeps the grid with `n` placed at `(i, j)` keeps the
      grid; so when there is none, no solution puts `n` there. */
  lemma PlacedSolutions(g: Grid, i: int, j: int, n: int)
    requires IsGrid(g) && 0 <= i < 9 && 0 <= j < 9 && g[i][j] == 0
    ensures forall s :: Extends(s, Update(g, i, j, n)) ==> Extends(s, g)
    ensures !Solvable(Update(g, i, j, n)) ==> !SolvableWith(g, i, j, n)
  {
    if SolvableWith(g, i, j, n) {
      var s :| Solution(s) && Extends(s, g) && s[i][j] == n;
      assert Extends(s, Update(g, i, j, n));
    }
  }

  /** A search that succeeds after a placement succeeds for the grid before
      it. */
  lemma SucceededPlaced(g: Grid, i: int, j: int, n: int, after: Grid, rows: Table, columns: Table, boxes: Table)
    requires IsGrid(g) && 0 <= i < 9 && 0 <= j < 9 && g[i][j] == 0
    requires Consistent(g) ==> Consistent(Update(g, i, j, n))
    requires Succeeded(Update(g, i, j, n), after, rows, columns, boxes)
    ensures Succeeded(g, after, rows, columns, boxes)
  {
    PlacedSolutions(g, i, j, n);
  }

  /** When no digit at an empty cell leads to a solution, there is none. */
  lemma NoDigitFits(g: Grid, i: int, j: int)
    requires IsGrid(g) && 0 <= i < 9 && 0 <= j < 9
    requires forall m :: 1 <= m <= 9 ==> !SolvableWith(g, i, j, m)
    ensures !Solvable(g)
  {
    if Solvable(g) {
      var s :| Solution(s) && Extends(s, g);
      assert SolvableWith(g, i, j, s[i][j]);
    }
  }

  /** A grid without empty cells is complete. */
  lemma Filled(g: Grid)
    requires Digits(g) && ZeroCells(g) == {}
    ensures Complete(g)
  {
    forall i, j | 0 <= i < 9 && 0 <= j < 9
      ensures g[i][j] != 0
    {
      assert (i, j) !in ZeroCells(g);
    }
  }

  // ---------------------------------------------------------------------
  // The solver

  /** A successful search leaves a complete grid that keeps every filled
      cell of `before`, that is a solution when `before` is consistent, and
      that the tables track. */
  ghost predicate Succeeded(before: Grid, after: Grid, rows: Table, columns: Table, boxes: Table) {
    && Complete(after) && Extends(after, before)
    && (Consistent(before) ==> Consistent(after))
    && Tracks(after, rows, columns, boxes)
  }

  /** `sudoku(puzzle)`: fills the empty cells of `puzzle` in place. It
      succeeds exactly when a solution keeps the givens, provided the givens
      do not already repeat a digit; a puzzle without empty cells is returned
      as it is; on failure the puzzle is left as it was. */
  method Solve(puzzle: array2<int>) returns (solved: bool)
    requires puzzle.Length0 == 9 && puzzle.Length1 == 9 && Digits(Contents(puzzle))
    modifies puzzle
    ensures solved ==> Complete(Contents(puzzle)) && Extends(Contents(puzzle), old(Contents(puzzle)))
    ensures solved && Consistent(old(Contents(puzzle))) ==> Solution(Contents(puzzle))
    ensures !solved ==> Contents(puzzle) == old(Contents(puzzle)) && !Solvable(old(Contents(puzzle)))
    ensures Consistent(old(Contents(puzzle))) ==> (solved <==> Solvable(old(Contents(puzzle))))
    ensures ZeroCells(old(Contents(puzzle))) == {} ==> solved && Contents(puzzle) == old(Contents(puzzle))
  {
    var rows, columns, boxes, zeros := Initialize(puzzle);
    solved := Search(puzzle, rows, columns, boxes, zeros);
  }

  /** The `init` branch: tables that track the givens, and the number of
      empty cells. */
  method Initialize(puzzle: array2<int>) returns (rows: array2<bool>, columns: array2<bool>, boxes: array2<bool>, zeros: nat)
    requires puzzle.Length0 == 9 && puzzle.Length1 == 9 && Digits(Contents(puzzle))
    ensures fresh(rows) && fresh(columns) && fresh(boxes) && Shaped(puzzle, rows, columns, boxes)
    ensures Tracks(Contents(puzzle), Contents(rows), Contents(columns), Contents(boxes))
    ensures zeros == |ZeroCells(Contents(puzzle))|
  {
    ghost var g := Contents(puzzle);
    rows := new bool[9, 10]((_, _) => false);
    columns := new bool[9, 10]((_, _) => false);
    boxes := new bool[9, 10]((_, _) => false);
    Unwritten(rows, RowTable(g, 0));
    Unwritten(columns, ColumnTable(g, 0));
    Unwritten(boxes, BoxTable(g, 0));
    zeros := ScanRows(puzzle, rows, boxes);
    ScanColumns(puzzle, columns);
    ScanDone(g);
  }

  /** The first pair of loops: marks every given in its row and its box, in
      row-major order, and counts the empty cells. */
  method ScanRows(puzzle: array2<int>, rows: array2<bool>, boxes: array2<bool>) returns (zeros: nat)
    requires puzzle.Length0 == 9 && puzzle.Length1 == 9 && Digits(Contents(puzzle))
    requires rows.Length0 == 9 && rows.Length1 == 10 && boxes.Length0 == 9 && boxes.Length1 == 10 && rows != boxes
    requires Contents(rows) == RowTable(Contents(puzzle), 0) && Contents(boxes) == BoxTable(Contents(puzzle), 0)
    modifies rows, boxes
    ensures Contents(rows) == RowTable(Contents(puzzle), 81) && Contents(boxes) == BoxTable(Contents(puzzle), 81)
    ensures zeros == |ZerosBefore(Contents(puzzle), 81)|
  {
    ghost var g := Contents(puzzle);
    zeros := 0;
    assert ZerosBefore(g, 0) == {};
    for row := 0 to 9
      invariant Contents(rows) == RowTable(g, 9 * row)
      invariant Contents(boxes) == BoxTable(g, 9 * row)
      invariant zeros == |ZerosBefore(g, 9 * row)|
    {
      zeros := ScanRow(puzzle, rows, boxes, row, zeros);
    }
  }

  /** The inner loop of `ScanRows`, over the cells of row `row`. */
  method ScanRow(puzzle: array2<int>, rows: array2<bool>, boxes: array2<bool>, row: int, zeros: nat) returns (zeros': nat)
    requires puzzle.Length0 == 9 && puzzle.Length1 == 9 && Digits(Contents(puzzle))
    requires rows.Length0 == 9 && rows.Length1 == 10 && boxes.Length0 == 9 && boxes.Length1 == 10 && rows != boxes
    requires 0 <= row < 9
    requires Contents(rows) == RowTable(Contents(puzzle), 9 * row)
    requires Contents(boxes) == BoxTable(Contents(puzzle), 9 * row)
    requires zeros == |ZerosBefore(Contents(puzzle), 9 * row)|
    modifies rows, boxes
    ensures Contents(rows) == RowTable(Contents(puzzle), 9 * row + 9)
    ensures Contents(boxes) == BoxTable(Contents(puzzle), 9 * row + 9)
    ensures zeros' == |ZerosBefore(Contents(puzzle), 9 * row + 9)|
  {
    ghost var g := Contents(puzzle);
    zeros' := zeros;
    for col := 0 to 9
      invariant Contents(rows) == RowTable(g, 9 * row + col)
      invariant Contents(boxes) == BoxTable(g, 9 * row + col)
      invariant zeros' == |ZerosBefore(g, 9 * row + col)|
    {
      zeros' := ScanCell(puzzle, rows, boxes, row, col, zeros');
    }
  }

  /** The body of the inner loop of `ScanRows`: marks the digit of cell
      `(row, col)` in its row and its box, or counts the cell when it is
      empty. */
  method ScanCell(puzzle: array2<int>, rows: array2<bool>, boxes: array2<bool>, row: int, col: int, zeros: nat)
    returns (zeros': nat)
    requires puzzle.Length0 == 9 && puzzle.Length1 == 9 && Digits(Contents(puzzle))
    requires rows.Length0 == 9 && rows.Length1 == 10 && boxes.Length0 == 9 && boxes.Length1 == 10 && rows != boxes
    requires 0 <= row < 9 && 0 <= col < 9
    requires Contents(rows) == RowTable(Contents(puzzle), 9 * row + col)
    requires Contents(boxes) == BoxTable(Contents(puzzle), 9 * row + col)
    requires zeros == |ZerosBefore(Contents(puzzle), 9 * row + col)|
    modifies rows, boxes
    ensures Contents(rows) == RowTable(Contents(puzzle), 9 * row + col + 1)
    ensures Contents(boxes) == BoxTable(Contents(puzzle), 9 * row + col + 1)
    ensures zeros' == |ZerosBefore(Contents(puzzle), 9 * row + col + 1)|
  {
    ghost var g := Contents(puzzle);
    var boxIndex := BoxIndex(row, col);
    var currNum := puzzle[row, col];
    ghost var r0, b0 := Contents(rows), Contents(boxes);
    RowScanStep(g, row, col);
    ZeroScanStep(g, row, col);
    if currNum != 0 {
      rows[row, currNum] := true;
      boxes[boxIndex, currNum] := true;
      Written(rows, r0, row, currNum);
      Written(boxes, b0, boxIndex, currNum);
      zeros' := zeros;
    } else {
      zeros' := zeros + 1;
    }
  }

  /** The second pair of loops: marks every given in its column, in
      column-major order. */
  method ScanColumns(puzzle: array2<int>, columns: array2<bool>)
    requires puzzle.Length0 == 9 && puzzle.Length1 == 9 && Digits(Contents(puzzle))
    requires columns.Length0 == 9 && columns.Length1 == 10
    requires Contents(columns) == ColumnTable(Contents(puzzle), 0)
    modifies columns
    ensures Contents(columns) == ColumnTable(Contents(puzzle), 81)
  {
    ghost var g := Contents(puzzle);
    for col := 0 to 9
      invariant Contents(columns) == ColumnTable(g, 9 * col)
    {
      ScanColumn(puzzle, columns, col);
    }
  }

  /** The inner loop of `ScanColumns`, over the cells of column `col`. */
  method ScanColumn(puzzle: array2<int>, columns: array2<bool>, col: int)
    requires puzzle.Length0 == 9 && puzzle.Length1 == 9 && Digits(Contents(puzzle))
    requires columns.Length0 == 9 && columns.Length1 == 10 && 0 <= col < 9
    requires Contents(columns) == ColumnTable(Contents(puzzle), 9 * col)
    modifies columns
    ensures Contents(columns) == ColumnTable(Contents(puzzle), 9 * col + 9)
  {
    ghost var g := Contents(puzzle);
    for row := 0 to 9
      invariant Contents(columns) == ColumnTable(g, 9 * col + row)
    {
      var currNum := puzzle[row, col];
      ColumnScanStep(g, row, col);
      if currNum != 0 {
        ghost var c0 := Contents(columns);
        columns[col, currNum] := true;
        Written(columns, c0, col, currNum);
      }
    }
  }

  /** The search from `if (!zeros)` on: `zeros` counts the empty cells and
      the tables track the puzzle. On success the puzzle is filled; on
      failure the puzzle and the tables are as they were and no solution
      keeps the puzzle's filled cells. */
  method Search(puzzle: array2<int>, rows: array2<bool>, columns: array2<bool>, boxes: array2<bool>, zeros: nat)
    returns (solved: bool)
    requires Shaped(puzzle, rows, columns, boxes) && Digits(Contents(puzzle))
    requires Tracks(Contents(puzzle), Contents(rows), Contents(columns), Contents(boxes))
    requires zeros == |ZeroCells(Contents(puzzle))|
    modifies puzzle, rows, columns, boxes
    ensures solved ==> Succeeded(old(Contents(puzzle)), Contents(puzzle), Contents(rows), Contents(columns), Contents(boxes))
    ensures !solved ==> Contents(puzzle) == old(Contents(puzzle)) && !Solvable(old(Contents(puzzle)))
    ensures !solved ==> Contents(rows) == old(Contents(rows)) && Contents(columns) == old(Contents(columns))
                        && Contents(boxes) == old(Contents(boxes))
    ensures zeros == 0 ==> solved && Contents(puzzle) == old(Contents(puzzle))
    decreases zeros, 3
  {
    ghost var g, r0, c0, b0 := Contents(puzzle), Contents(rows), Contents(columns), Contents(boxes);
    if zeros == 0 {
      Filled(g);
      return true;
    }
    for row := 0 to 9
      invariant Contents(puzzle) == g && Contents(rows) == r0 && Contents(columns) == c0 && Contents(boxes) == b0
      invariant forall i, j :: 0 <= i < row && 0 <= j < 9 ==> g[i][j] != 0
    {
      for col := 0 to 9
        invariant Contents(puzzle) == g && Contents(rows) == r0 && Contents(columns) == c0 && Contents(boxes) == b0
        invariant forall i, j :: (0 <= i < row && 0 <= j < 9) || (i == row && 0 <= j < col) ==> g[i][j] != 0
      {
        if puzzle[row, col] == 0 {
          solved := TryDigits(puzzle, rows, columns, boxes, zeros, row, col);
          return;
        }
      }
    }
    assert false;
  }

  /** The `for` loop over the digits at the empty cell `(row, col)`, and
      `return false` after it. */
  method TryDigits(puzzle: array2<int>, rows: array2<bool>, columns: array2<bool>, boxes: array2<bool>, zeros: nat,
                   row: int, col: int)
    returns (solved: bool)
    requires Shaped(puzzle, rows, columns, boxes) && Digits(Contents(puzzle))
    requires Tracks(Contents(puzzle), Contents(rows), Contents(columns), Contents(boxes))
    requires zeros == |ZeroCells(Contents(puzzle))|
    requires 0 <= row < 9 && 0 <= col < 9 && puzzle[row, col] == 0
    modifies puzzle, rows, columns, boxes
    ensures solved ==> Succeeded(old(Contents(puzzle)), Contents(puzzle), Contents(rows), Contents(columns), Contents(boxes))
    ensures !solved ==> Contents(puzzle) == old(Contents(puzzle)) && !Solvable(old(Contents(puzzle)))
    ensures !solved ==> Contents(rows) == old(Contents(rows)) && Contents(columns) == old(Contents(columns))
                        && Contents(boxes) == old(Contents(boxes))
    decreases zeros, 2
  {
    ghost var g, r0, c0, b0 := Contents(puzzle), Contents(rows), Contents(columns), Contents(boxes);
    for n := 1 to 10
      invariant Contents(puzzle) == g && Contents(rows) == r0 && Contents(columns) == c0 && Contents(boxes) == b0
      invariant forall m :: 1 <= m < n ==> !SolvableWith(g, row, col, m)
    {
      solved := Attempt(puzzle, rows, columns, boxes, zeros, row, col, n);
      if solved {
        return;
      }
    }
    NoDigitFits(g, row, col);
    solved := false;
  }

  /** One turn of the digit loop: place `n` if the tables allow it. */
  method Attempt(puzzle: array2<int>, rows: array2<bool>, columns: array2<bool>, boxes: array2<bool>, zeros: nat,
                 row: int, col: int, n: int)
    returns (solved: bool)
    requires Shaped(puzzle, rows, columns, boxes) && Digits(Contents(puzzle))
    requires Tracks(Contents(puzzle), Contents(rows), Contents(columns), Contents(boxes))
    requires zeros == |ZeroCells(Contents(puzzle))|
    requires 0 <= row < 9 && 0 <= col < 9 && puzzle[row, col] == 0 && 1 <= n <= 9
    modifies puzzle, rows, columns, boxes
    ensures solved ==> Succeeded(old(Contents(puzzle)), Contents(puzzle), Contents(rows), Contents(columns), Contents(boxes))
    ensures !solved ==> !SolvableWith(old(Contents(puzzle)), row, col, n)
    ensures !solved ==> Contents(puzzle) == old(Contents(puzzle)) && Contents(rows) == old(Contents(rows))
                        && Contents(columns) == old(Contents(columns)) && Contents(boxes) == old(Contents(boxes))
    decreases zeros, 1
  {
    var boxIndex := BoxIndex(row, col);
    if rows[row, n] || columns[col, n] || boxes[boxIndex, n] {
      Blocked(Contents(puzzle), Contents(rows), Contents(columns), Contents(boxes), row, col, n);
      return false;
    }
    solved := PlaceAndSearch(puzzle, rows, columns, boxes, zeros, row, col, n);
  }

  /** Places `n` at the empty cell `(row, col)`, which the tables allow,
      searches on, and undoes the placement when that fails. */
  method PlaceAndSearch(puzzle: array2<int>, rows: array2<bool>, columns: array2<bool>, boxes: array2<bool>, zeros: nat,
                        row: int, col: int, n: int)
    returns (solved: bool)
    requires Shaped(puzzle, rows, columns, boxes) && Digits(Contents(puzzle))
    requires Tracks(Contents(puzzle), Contents(rows), Contents(columns), Contents(boxes))
    requires zeros == |ZeroCells(Contents(puzzle))|
    requires 0 <= row < 9 && 0 <= col < 9 && puzzle[row, col] == 0 && 1 <= n <= 9
    requires !rows[row, n] && !columns[col, n] && !boxes[BoxIndex(row, col), n]
    modifies puzzle, rows, columns, boxes
    ensures solved ==> Succeeded(old(Contents(puzzle)), Contents(puzzle), Contents(rows), Contents(columns), Contents(boxes))
    ensures !solved ==> !SolvableWith(old(Contents(puzzle)), row, col, n)
    ensures !solved ==> Contents(puzzle) == old(Contents(puzzle)) && Contents(rows) == old(Contents(rows))
                        && Contents(columns) == old(Contents(columns)) && Contents(boxes) == old(Contents(boxes))
    decreases zeros, 0
  {
    ghost var g, r0, c0, b0 := Contents(puzzle), Contents(rows), Contents(columns), Contents(boxes);
    var boxIndex := BoxIndex(row, col);
    SetCell(puzzle, rows, columns, boxes, row, col, n, n, true);
    Placed(g, r0, c0, b0, row, col, n);
    if Consistent(g) {
      PlacedConsistent(g, r0, c0, b0, row, col, n);
    }
    PlacedSolutions(g, row, col, n);
    solved := Search(puzzle, rows, columns, boxes, zeros - 1);
    if solved {
      SucceededPlaced(g, row, col, n, Contents(puzzle), Contents(rows), Contents(columns), Contents(boxes));
    } else {
      SetCell(puzzle, rows, columns, boxes, row, col, 0, n, false);
      UpdateUndo(g, row, col, n);
      UpdateUndo(r0, row, n, true);
      UpdateUndo(c0, col, n, true);
      UpdateUndo(b0, boxIndex, n, true);
    }
  }

  /** Sets cell `(row, col)` to `value` and the flags of digit `n` in the
      tables of its row, its column and its box to `mark`: a placement, and
      its undoing. */
  method SetCell(puzzle: array2<int>, rows: array2<bool>, columns: array2<bool>, boxes: array2<bool>,
                 row: int, col: int, value: int, n: int, mark: bool)
    requires Shaped(puzzle, rows, columns, boxes)
    requires 0 <= row < 9 && 0 <= col < 9 && 0 <= n < 10
    modifies puzzle, rows, columns, boxes
    ensures Contents(puzzle) == Update(old(Contents(puzzle)), row, col, value)
    ensures Contents(rows) == Update(old(Contents(rows)), row, n, mark)
    ensures Contents(columns) == Update(old(Contents(columns)), col, n, mark)
    ensures Contents(boxes) == Update(old(Contents(boxes)), BoxIndex(row, col), n, mark)
  {
    ghost var g, r0, c0, b0 := Contents(puzzle), Contents(rows), Contents(columns), Contents(boxes);
    var boxIndex := BoxIndex(row, col);
    puzzle[row, col] := value;
    rows[row, n] := mark;
    columns[col, n] := mark;
    boxes[boxIndex, n] := mark;
    Written(puzzle, g, row, col);
    Written(rows, r0, row, n);
    Written(columns, c0, col, n);
    Written(boxes, b0, boxIndex, n);
  }
}
