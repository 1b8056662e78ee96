/** The tabular data the pipeline passes between its stages: a data frame as
    an ordered list of column names and a sequence of rows, each row mapping
    every column name to a cell. A cell is either a value or missing (the
    frame library's NaN / None). */
module Frames {
  import opened Masks

  datatype Option<+T> = None | Some(value: T)

  datatype Result<+T, +E> = Success(value: T) | Failure(error: E)

  /** The exceptions the modelled code can raise. */
  datatype Error =
    | MissingColumn(column: string)   // a KeyError on an absent column
    | NoFillValue(column: string)     // fillna called with no fill value
    | NoGeometry                      // the frame has no active geometry column

  /** A planar point in longitude/latitude order. */
  datatype Point = Point(x: real, y: real)

  /** A feature geometry (point or polygon). Its shape is never inspected by
      the modelled code: only the geometry library's centroid reads it. */
  datatype Geometry = Geometry(id: nat)

  datatype Value =
    | Text(s: string)
    | Number(n: real)
    | Shape(g: Geometry)
    | Location(p: Point)

  type Cell = Option<Value>
  type Row = map<string, Cell>

  datatype Table = Table(columns: seq<string>, rows: seq<Row>)

  function ColumnSet(t: Table): set<string>
  {
    set c | c in t.columns
  }

  /** Column names are unique and every row has exactly the table's columns. */
  predicate WellFormed(t: Table)
  {
    && Distinct(t.columns)
    && forall i :: 0 <= i < |t.rows| ==> t.rows[i].Keys == ColumnSet(t)
  }

  /** `df.rename(columns=...)` on one row: every cell moves to the new name
      of its column. */
  function RenameKeys(r: Row, f: string -> string): (s: Row)
    requires forall c, d :: c in r && d in r && f(c) == f(d) ==> c == d
    ensures forall c :: c in r ==> f(c) in s && s[f(c)] == r[c]
    ensures forall n :: n in s ==> exists c :: c in r && n == f(c)
  {
    map c | c in r :: f(c) := r[c]
  }

  /** `df.rename(columns=...)` with a renaming that merges no two columns:
      column k becomes f(column k), in place, and every cell moves with its
      column. */
  function RenameTable(t: Table, f: string -> string): (s: Table)
    requires WellFormed(t)
    requires forall c, d :: c in t.columns && d in t.columns && f(c) == f(d) ==> c == d
    ensures WellFormed(s) && |s.rows| == |t.rows|
    ensures |s.columns| == |t.columns|
    ensures forall k :: 0 <= k < |t.columns| ==> s.columns[k] == f(t.columns[k])
    ensures forall i, c :: 0 <= i < |s.rows| && c in t.columns ==> f(c) in s.rows[i] && s.rows[i][f(c)] == t.rows[i][c]
  {
    var cols := seq(|t.columns|, k requires 0 <= k < |t.columns| => f(t.columns[k]));
    assert forall i :: 0 <= i < |t.rows| ==> t.rows[i].Keys == ColumnSet(t);
    var s := Table(cols, seq(|t.rows|, i requires 0 <= i < |t.rows| => RenameKeys(t.rows[i], f)));
    forall i, n | 0 <= i < |s.rows| ensures n in s.rows[i] <==> n in cols {
      if n in cols {
        var k :| 0 <= k < |cols| && cols[k] == n;
        assert t.columns[k] in t.rows[i];
      }
      if n in s.rows[i] {
        var c :| c in t.rows[i] && n == f(c);
        assert c in ColumnSet(t);
        var k :| 0 <= k < |t.columns| && t.columns[k] == c;
        assert cols[k] == n;
      }
    }
    assert forall i :: 0 <= i < |s.rows| ==> s.rows[i].Keys == ColumnSet(s);
    s
  }

  /** A column of a well-formed table is a key of every row. */
  lemma ColumnInEveryRow(t: Table, c: string)
    requires WellFormed(t) && c in t.columns
    ensures forall i :: 0 <= i < |t.rows| ==> c in t.rows[i]
  {
    assert c in ColumnSet(t);
  }

  /** Appending new, distinct columns to a well-formed table, with every row
      gaining exactly those columns, keeps it well-formed. */
  lemma AppendColumnsWellFormed(t: Table, extra: seq<string>, rows: seq<Row>)
    requires WellFormed(t) && Distinct(extra)
    requires forall n :: n in extra ==> n !in t.columns
    requires |rows| == |t.rows|
    requires forall i :: 0 <= i < |rows| ==> rows[i].Keys == t.rows[i].Keys + (set n | n in extra)
    ensures WellFormed(Table(t.columns + extra, rows))
  {
    var u := Table(t.columns + extra, rows);
    forall i, j | 0 <= i < j < |u.columns| ensures u.columns[i] != u.columns[j] {
      if j >= |t.columns| && i < |t.columns| {
        assert u.columns[j] in extra;
      }
    }
    assert ColumnSet(u) == ColumnSet(t) + (set n | n in extra);
  }

  /** `t[c]`: the column as a series. */
  function Column(t: Table, c: string): (s: seq<Cell>)
    requires WellFormed(t) && c in t.columns
    ensures |s| == |t.rows|
    ensures forall i :: 0 <= i < |s| ==> s[i] == t.rows[i][c]
  {
    seq(|t.rows|, i requires 0 <= i < |t.rows| => t.rows[i][c])
  }

  /** `t.get(c)`: the column, or nothing when the table has no such column. */
  function Get(t: Table, c: string): (s: Option<seq<Cell>>)
    requires WellFormed(t)
    ensures s.Some? <==> c in t.columns
    ensures s.Some? ==> s.value == Column(t, c)
  {
    if c in t.columns then Some(Column(t, c)) else None
  }

  /** The value of a cell with missing filled in from `fallback`. */
  function Coalesce(primary: Cell, fallback: Cell): Cell
  {
    if primary.Some? then primary else fallback
  }

  /** `s.fillna(other)` for an aligned series `other`. */
  function FillNa(s: seq<Cell>, other: seq<Cell>): (r: seq<Cell>)
    requires |s| == |other|
    ensures |r| == |s|
    ensures forall i :: 0 <= i < |r| ==> r[i] == Coalesce(s[i], other[i])
  {
    seq(|s|, i requires 0 <= i < |s| => Coalesce(s[i], other[i]))
  }
}
