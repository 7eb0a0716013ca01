/** Tabular datasets as the pipeline sees them: an ordered list of column
    names and an ordered sequence of rows, each row a map from column name
    to a cell value.  A pandas DataFrame is modelled by a well-formed Frame. */
module Frames {
  import opened Wrappers

  /** One cell.  `Null` stands for every missing value pandas knows
      (None, NaN, NaT); `Day` is a calendar date as a day number. */
  datatype Value = Null | Str(s: string) | Int(i: int) | Bool(b: bool) | Day(d: int)

  type Row = map<string, Value>

  datatype Frame = Frame(columns: seq<string>, rows: seq<Row>)

  /** The outcome of an operation that indexes a column by name: pandas
      raises a KeyError when the column does not exist. */
  datatype Result<T> = Ok(value: T) | MissingColumn(column: string)

  predicate Distinct<T(==)>(s: seq<T>) {
    forall i, j :: 0 <= i < j < |s| ==> s[i] != s[j]
  }

  function ColumnSet(columns: seq<string>): set<string> {
    set c | c in columns
  }

  /** Every row has exactly the frame's columns, and no column is listed twice. */
  predicate WellFormed(f: Frame) {
    && Distinct(f.columns)
    && forall i :: 0 <= i < |f.rows| ==> f.rows[i].Keys == ColumnSet(f.columns)
  }

  predicate IsNull(v: Value) {
    v.Null?
  }

  /** The cell of column `c`, or `Null` for a row without that column. */
  function Get(r: Row, c: string): Value {
    if c in r then r[c] else Null
  }

  /** The column list after `df[c] = ...`: an existing column keeps its
      place, a new one is appended at the end. */
  function WithColumnName(columns: seq<string>, c: string): (r: seq<string>)
    ensures ColumnSet(r) == ColumnSet(columns) + {c}
    ensures Distinct(columns) ==> Distinct(r)
    ensures c in columns ==> r == columns
  {
    if c in columns then columns
    else
      assert forall x :: x in columns + [c] <==> x in columns || x == c;
      columns + [c]
  }

  /** `df[c] = values`, where the value of each row is computed from the row. */
  function SetColumn(f: Frame, c: string, g: Row -> Value): (r: Frame)
    ensures r.columns == WithColumnName(f.columns, c)
    ensures |r.rows| == |f.rows|
    ensures forall i :: 0 <= i < |f.rows| ==> r.rows[i] == f.rows[i][c := g(f.rows[i])]
    ensures WellFormed(f) ==> WellFormed(r)
  {
    Frame(WithColumnName(f.columns, c),
          seq(|f.rows|, i requires 0 <= i < |f.rows| => f.rows[i][c := g(f.rows[i])]))
  }

  /** `df[c] = df[c].transform(g)`: the cell of column `c` is rewritten
      element-wise. */
  function MapColumn(f: Frame, c: string, g: Value -> Value): (r: Frame)
    ensures r.columns == WithColumnName(f.columns, c)
    ensures |r.rows| == |f.rows|
    ensures forall i :: 0 <= i < |f.rows| ==> r.rows[i] == f.rows[i][c := g(Get(f.rows[i], c))]
    ensures WellFormed(f) ==> WellFormed(r)
  {
    SetColumn(f, c, (row: Row) => g(Get(row, c)))
  }

  function RemoveName(columns: seq<string>, c: string): (r: seq<string>)
    ensures ColumnSet(r) == ColumnSet(columns) - {c}
    ensures Distinct(columns) ==> Distinct(r)
    ensures |r| <= |columns|
    ensures forall x :: x in r ==> x in columns
    ensures c !in columns ==> r == columns
  {
    if columns == [] then []
    else if columns[0] == c then
      assert ColumnSet(columns) == {columns[0]} + ColumnSet(columns[1..]);
      RemoveName(columns[1..], c)
    else
      var rest := RemoveName(columns[1..], c);
      assert ColumnSet(columns) == {columns[0]} + ColumnSet(columns[1..]);
      assert ColumnSet([columns[0]] + rest) == {columns[0]} + ColumnSet(rest);
      assert Distinct(columns) ==> columns[0] !in rest;
      [columns[0]] + rest
  }

  /** `df.drop(c, axis=1)`. */
  function DropColumn(f: Frame, c: string): (r: Frame)
    ensures r.columns == RemoveName(f.columns, c)
    ensures |r.rows| == |f.rows|
    ensures forall i :: 0 <= i < |f.rows| ==> r.rows[i] == f.rows[i] - {c}
    ensures WellFormed(f) ==> WellFormed(r)
  {
    Frame(RemoveName(f.columns, c),
          seq(|f.rows|, i requires 0 <= i < |f.rows| => f.rows[i] - {c}))
  }

  /** The number of rows satisfying `p`. */
  function Count(rows: seq<Row>, p: Row -> bool): (n: nat)
    ensures n <= |rows|
    ensures n == 0 <==> forall i :: 0 <= i < |rows| ==> !p(rows[i])
  {
    if rows == [] then 0
    else
      var rest := Count(rows[..|rows| - 1], p);
      assert forall i :: 0 <= i < |rows| - 1 ==> rows[..|rows| - 1][i] == rows[i];
      rest + if p(rows[|rows| - 1]) then 1 else 0
  }

  /** The rows satisfying `p`, in their original order (boolean indexing). */
  function Where(rows: seq<Row>, p: Row -> bool): (r: seq<Row>)
    ensures |r| == Count(rows, p)
    ensures forall x :: x in r <==> x in rows && p(x)
  {
    if rows == [] then []
    else
      var init := rows[..|rows| - 1];
      var last := rows[|rows| - 1];
      assert rows == init + [last];
      Where(init, p) + if p(last) then [last] else []
  }

  /** The first of `required` missing from `cols`: the column pandas reports
      when several are indexed one after the other. */
  function FirstMissing(cols: seq<string>, required: seq<string>): (r: Option<string>)
    ensures r.None? <==> forall c :: c in required ==> c in cols
    ensures r.Some? ==> r.value in required && r.value !in cols
  {
    if required == [] then None
    else if required[0] !in cols then Some(required[0])
    else FirstMissing(cols, required[1..])
  }
}
