/**
 * The sheet table of `PandasExcelToDocument._extract_tables` and the two `dropna` calls that
 * trim it: first every column whose cells are all NaN, then every row whose remaining cells are
 * all NaN.
 */
module SheetTrim {
  import opened Wrappers
  import opened Indexing

  /** One cell of a sheet: `None` is a NaN (empty) cell, `Some(s)` a cell whose rendered text is `s`. */
  type Cell = Option<string>

  /** A grid of cells: a column count and the rows, top to bottom. */
  datatype Grid = Grid(width: nat, rows: seq<seq<Cell>>)

  /** Every row has one cell per column. */
  predicate Rectangular(g: Grid) {
    forall i :: 0 <= i < |g.rows| ==> |g.rows[i]| == g.width
  }

  /** A sheet as pandas holds it: rectangular, possibly with no rows or no columns. */
  type Table = g: Grid | Rectangular(g) witness Grid(0, [])

  /** Column `j` holds only NaN cells (vacuously so when the table has no rows). */
  predicate ColumnEmpty(t: Table, j: nat)
    requires j < t.width
  {
    forall i :: 0 <= i < |t.rows| ==> t.rows[i][j].None?
  }

  /** Row `i` holds only NaN cells (vacuously so when the table has no columns). */
  predicate RowEmpty(t: Table, i: nat)
    requires i < |t.rows|
  {
    forall j :: 0 <= j < t.width ==> t.rows[i][j].None?
  }

  /** The test `dropna(axis=1, how="all")` applies to a column: it is kept unless all NaN. */
  function ColumnKept(t: Table): nat -> bool {
    (j: nat) => j < t.width && !ColumnEmpty(t, j)
  }

  /** The test `dropna(axis=0, how="all")` applies to a row: it is kept unless all NaN. */
  function RowKept(t: Table): nat -> bool {
    (i: nat) => i < |t.rows| && !RowEmpty(t, i)
  }

  /** The columns that `dropna(axis=1, how="all")` keeps, left to right. */
  function KeptColumns(t: Table): seq<nat> {
    Indices(t.width, ColumnKept(t))
  }

  /** The rows that `dropna(axis=0, how="all")` keeps, top to bottom. */
  function KeptRows(t: Table): seq<nat> {
    Indices(|t.rows|, RowKept(t))
  }

  /** The sub-table made of the listed columns, in the listed order. */
  function SelectColumns(t: Table, cols: seq<nat>): (r: Table)
    requires forall k :: 0 <= k < |cols| ==> cols[k] < t.width
    ensures r.width == |cols| && |r.rows| == |t.rows|
    ensures forall i, k :: 0 <= i < |t.rows| && 0 <= k < |cols| ==> r.rows[i][k] == t.rows[i][cols[k]]
  {
    Grid(|cols|, seq(|t.rows|, i requires 0 <= i < |t.rows| =>
      seq(|cols|, k requires 0 <= k < |cols| => t.rows[i][cols[k]])))
  }

  /** The sub-table made of the listed rows, in the listed order. */
  function SelectRows(t: Table, rows: seq<nat>): (r: Table)
    requires forall k :: 0 <= k < |rows| ==> rows[k] < |t.rows|
    ensures r.width == t.width && |r.rows| == |rows|
    ensures forall k :: 0 <= k < |rows| ==> r.rows[k] == t.rows[rows[k]]
  {
    Grid(t.width, seq(|rows|, k requires 0 <= k < |rows| => t.rows[rows[k]]))
  }

  /** `df.dropna(axis=1, how="all")`. */
  function DropEmptyColumns(t: Table): Table {
    SelectColumns(t, KeptColumns(t))
  }

  /** `df.dropna(axis=0, how="all")`. */
  function DropEmptyRows(t: Table): Table {
    SelectRows(t, KeptRows(t))
  }

  /** Both drops, columns first. */
  function Trim(t: Table): Table {
    DropEmptyRows(DropEmptyColumns(t))
  }

  /** The original indices of the rows that survive trimming (dropping columns keeps row positions). */
  function SurvivingRows(t: Table): seq<nat> {
    KeptRows(DropEmptyColumns(t))
  }

  /** Two tables of the same shape with the same cells are the same table. */
  lemma SameCells(a: Table, b: Table)
    requires a.width == b.width && |a.rows| == |b.rows|
    requires forall i, k :: 0 <= i < |a.rows| && 0 <= k < a.width ==> a.rows[i][k] == b.rows[i][k]
    ensures a == b
  {
    forall i | 0 <= i < |a.rows| ensures a.rows[i] == b.rows[i] {
    }
  }

  /**
   * Dropping empty columns first does not change which rows are empty: a row is empty on the
   * surviving columns exactly when it was empty on all of them, since every dropped column
   * holds only NaN.
   */
  lemma RowEmptyAfterColumnDrop(t: Table, i: nat)
    requires i < |t.rows|
    ensures RowEmpty(DropEmptyColumns(t), i) <==> RowEmpty(t, i)
  {
    var d, cols := DropEmptyColumns(t), KeptColumns(t);
    if !RowEmpty(t, i) {
      var j :| 0 <= j < t.width && t.rows[i][j].Some?;
      assert !ColumnEmpty(t, j);
      IndicesMembership(t.width, ColumnKept(t), j);
      var k :| 0 <= k < |cols| && cols[k] == j;
      assert d.rows[i][k].Some?;
    }
  }

  /** Likewise, dropping empty rows first does not change which columns are empty. */
  lemma ColumnEmptyAfterRowDrop(t: Table, j: nat)
    requires j < t.width
    ensures ColumnEmpty(DropEmptyRows(t), j) <==> ColumnEmpty(t, j)
  {
    var e, rows := DropEmptyRows(t), KeptRows(t);
    if !ColumnEmpty(t, j) {
      var i :| 0 <= i < |t.rows| && t.rows[i][j].Some?;
      assert !RowEmpty(t, i);
      IndicesMembership(|t.rows|, RowKept(t), i);
      var k :| 0 <= k < |rows| && rows[k] == i;
      assert e.rows[k][j].Some?;
    }
  }

  /**
   * What trimming keeps: the columns that are not all NaN and the rows that are not all NaN,
   * each in its original order, every kept cell unchanged, the result rectangular.
   */
  lemma TrimKeeps(t: Table)
    ensures var r, rows, cols := Trim(t), SurvivingRows(t), KeptColumns(t);
      && r.width == |cols| && |r.rows| == |rows|
      && StrictlyIncreasing(rows) && StrictlyIncreasing(cols)
      && (forall k :: 0 <= k < |cols| ==> cols[k] < t.width)
      && (forall k :: 0 <= k < |rows| ==> rows[k] < |t.rows|)
      && (forall j :: 0 <= j < t.width ==> (j in cols <==> !ColumnEmpty(t, j)))
      && (forall i :: 0 <= i < |t.rows| ==> (i in rows <==> !RowEmpty(t, i)))
      && (forall m, k :: 0 <= m < |rows| && 0 <= k < |cols| ==> r.rows[m][k] == t.rows[rows[m]][cols[k]])
  {
    var d := DropEmptyColumns(t);
    forall j | 0 <= j < t.width ensures j in KeptColumns(t) <==> !ColumnEmpty(t, j) {
      IndicesMembership(t.width, ColumnKept(t), j);
    }
    forall i | 0 <= i < |t.rows| ensures i in KeptRows(d) <==> !RowEmpty(t, i) {
      IndicesMembership(|d.rows|, RowKept(d), i);
      RowEmptyAfterColumnDrop(t, i);
    }
  }

  /** No column of a trimmed table is all NaN. */
  lemma TrimLeavesNoEmptyColumn(t: Table)
    ensures forall k :: 0 <= k < Trim(t).width ==> !ColumnEmpty(Trim(t), k)
  {
    var d, r := DropEmptyColumns(t), Trim(t);
    var rows := KeptRows(d);
    forall k | 0 <= k < r.width ensures !ColumnEmpty(r, k) {
      var cols := KeptColumns(t);
      assert !ColumnEmpty(t, cols[k]);
      var i :| 0 <= i < |t.rows| && t.rows[i][cols[k]].Some?;
      assert d.rows[i][k].Some?;
      assert !RowEmpty(d, i);
      IndicesMembership(|d.rows|, RowKept(d), i);
      var m :| 0 <= m < |rows| && rows[m] == i;
      assert r.rows[m][k].Some?;
    }
  }

  /** No row of a trimmed table is all NaN. */
  lemma TrimLeavesNoEmptyRow(t: Table)
    ensures forall i :: 0 <= i < |Trim(t).rows| ==> !RowEmpty(Trim(t), i)
  {
    var d, r := DropEmptyColumns(t), Trim(t);
    forall i | 0 <= i < |r.rows| ensures !RowEmpty(r, i) {
      var rows := KeptRows(d);
      assert !RowEmpty(d, rows[i]);
    }
  }

  /** A table with no all-NaN column and no all-NaN row is left as it is. */
  lemma TrimLeavesDenseTable(t: Table)
    requires forall k :: 0 <= k < t.width ==> !ColumnEmpty(t, k)
    requires forall i :: 0 <= i < |t.rows| ==> !RowEmpty(t, i)
    ensures Trim(t) == t
  {
    IndicesAll(t.width, ColumnKept(t));
    var d := DropEmptyColumns(t);
    SameCells(d, t);
    IndicesAll(|t.rows|, RowKept(t));
    SameCells(DropEmptyRows(t), t);
  }

  /** Trimming is idempotent. */
  lemma TrimIdempotent(t: Table)
    ensures Trim(Trim(t)) == Trim(t)
  {
    TrimLeavesNoEmptyColumn(t);
    TrimLeavesNoEmptyRow(t);
    TrimLeavesDenseTable(Trim(t));
  }

  /**
   * The fixed order, columns then rows, gives the same table as rows then columns: an all-NaN
   * column cannot make a row non-empty, nor an all-NaN row a column.
   */
  lemma TrimOrderImmaterial(t: Table)
    ensures Trim(t) == DropEmptyColumns(DropEmptyRows(t))
  {
    var d, e := DropEmptyColumns(t), DropEmptyRows(t);
    forall i | 0 <= i < |t.rows| ensures RowKept(d)(i) == RowKept(t)(i) {
      RowEmptyAfterColumnDrop(t, i);
    }
    IndicesAgree(|t.rows|, RowKept(d), RowKept(t));
    forall j | 0 <= j < t.width ensures ColumnKept(e)(j) == ColumnKept(t)(j) {
      ColumnEmptyAfterRowDrop(t, j);
    }
    IndicesAgree(t.width, ColumnKept(e), ColumnKept(t));
    SameCells(Trim(t), DropEmptyColumns(e));
  }
}
