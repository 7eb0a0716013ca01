/** The advisory data-quality checks (src/utils/data_quality.py): a checker
    object accumulates a list of issues for one frame, and a summary is read
    off the checker afterwards.  Issues are kept as values; the text of the
    messages (and the null percentage printed in them) is not modelled. */
module Quality {
  import opened Frames

  datatype Issue =
    | NullValues(column: string, count: nat)
    | DuplicateRows(count: nat)
    | RowCountBelow(rowCount: nat, expectedMin: int)

  /** The dictionary that `get_summary` returns. */
  datatype Summary = Summary(
    table: string,
    rowCount: nat,
    columnCount: nat,
    nullCount: nat,
    duplicateCount: nat,
    issues: seq<Issue>)

  /** `df[c].isnull().sum()`. */
  function NullCount(rows: seq<Row>, c: string): (n: nat)
    ensures n <= |rows|
  {
    Count(rows, (row: Row) => IsNull(Get(row, c)))
  }

  /** A column's null count is zero exactly when no row misses that cell. */
  lemma NullCountZero(rows: seq<Row>, c: string)
    ensures NullCount(rows, c) == 0 <==> forall i :: 0 <= i < |rows| ==> !IsNull(Get(rows[i], c))
  {
  }

  /** The columns, in frame order, that hold at least one missing value. */
  function NullColumns(rows: seq<Row>, cols: seq<string>): (r: seq<string>)
    ensures |r| <= |cols|
  {
    if cols == [] then []
    else NullColumns(rows, cols[..|cols| - 1]) + if NullCount(rows, cols[|cols| - 1]) > 0 then [cols[|cols| - 1]] else []
  }

  /** Exactly the columns with a positive null count are reported, each once
      when the column names are distinct. */
  lemma {:induction false} NullColumnsSpec(rows: seq<Row>, cols: seq<string>)
    ensures forall c :: c in NullColumns(rows, cols) <==> c in cols && NullCount(rows, c) > 0
    ensures Distinct(cols) ==> Distinct(NullColumns(rows, cols))
  {
    if cols != [] {
      var init := cols[..|cols| - 1];
      var c := cols[|cols| - 1];
      NullColumnsSpec(rows, init);
      assert cols == init + [c];
      assert forall x :: x in cols <==> x in init || x == c;
      assert Distinct(cols) ==> c !in init;
    }
  }

  /** The issues `check_null_values` appends, one per column with nulls. */
  function NullIssues(rows: seq<Row>, cols: seq<string>): seq<Issue> {
    if cols == [] then []
    else
      var c := cols[|cols| - 1];
      NullIssues(rows, cols[..|cols| - 1]) + if NullCount(rows, c) > 0 then [NullValues(c, NullCount(rows, c))] else []
  }

  /** The i-th null issue names the i-th column with nulls and its count. */
  lemma {:induction false} NullIssuesSpec(rows: seq<Row>, cols: seq<string>)
    ensures |NullIssues(rows, cols)| == |NullColumns(rows, cols)|
    ensures forall i :: 0 <= i < |NullIssues(rows, cols)| ==>
              NullIssues(rows, cols)[i] == NullValues(NullColumns(rows, cols)[i], NullCount(rows, NullColumns(rows, cols)[i]))
  {
    if cols != [] {
      NullIssuesSpec(rows, cols[..|cols| - 1]);
    }
  }

  /** One more column examined by `check_null_values`. */
  lemma NullStep(rows: seq<Row>, cols: seq<string>, k: nat)
    requires k < |cols|
    ensures NullColumns(rows, cols[..k + 1]) ==
            NullColumns(rows, cols[..k]) + if NullCount(rows, cols[k]) > 0 then [cols[k]] else []
    ensures NullIssues(rows, cols[..k + 1]) ==
            NullIssues(rows, cols[..k]) +
            if NullCount(rows, cols[k]) > 0 then [NullValues(cols[k], NullCount(rows, cols[k]))] else []
  {
    assert cols[..k + 1][..k] == cols[..k];
  }

  /** `df.isnull().sum().sum()`: the missing values over all columns. */
  function TotalNulls(rows: seq<Row>, cols: seq<string>): nat {
    if cols == [] then 0
    else TotalNulls(rows, cols[..|cols| - 1]) + NullCount(rows, cols[|cols| - 1])
  }

  /** `df.duplicated().sum()`: rows equal to an earlier row (whole-row
      comparison, with two missing values counted as equal). */
  function DuplicateCount(rows: seq<Row>): nat {
    if rows == [] then 0
    else
      var init := rows[..|rows| - 1];
      DuplicateCount(init) + if rows[|rows| - 1] in init then 1 else 0
  }

  function DistinctRows(rows: seq<Row>): set<Row> {
    set r | r in rows
  }

  /** Every row is either the first of its kind or a duplicate. */
  lemma {:induction false} DuplicatesAndDistinct(rows: seq<Row>)
    ensures DuplicateCount(rows) + |DistinctRows(rows)| == |rows|
  {
    if rows != [] {
      var init := rows[..|rows| - 1];
      var last := rows[|rows| - 1];
      DuplicatesAndDistinct(init);
      assert rows == init + [last];
      assert forall x :: x in rows <==> x in init || x == last;
      assert DistinctRows(rows) == DistinctRows(init) + {last};
      assert rows[..|rows| - 1] == init;
      if last in init {
        assert last in DistinctRows(init);
        assert DistinctRows(rows) == DistinctRows(init);
        assert DuplicateCount(rows) == DuplicateCount(init) + 1;
      } else {
        assert last !in DistinctRows(init);
        assert |DistinctRows(rows)| == |DistinctRows(init)| + 1;
        assert DuplicateCount(rows) == DuplicateCount(init);
      }
    }
  }

  /** The first row is never a duplicate. */
  lemma DuplicateBound(rows: seq<Row>)
    ensures DuplicateCount(rows) <= if |rows| == 0 then 0 else |rows| - 1
  {
    DuplicatesAndDistinct(rows);
    if rows != [] {
      assert rows[0] in DistinctRows(rows);
    }
  }

  /** The summary reports no missing value exactly when no null issue is raised. */
  lemma {:induction false} NoNullsNoIssues(rows: seq<Row>, cols: seq<string>)
    ensures TotalNulls(rows, cols) == 0 <==> NullColumns(rows, cols) == []
  {
    if cols != [] {
      var init := cols[..|cols| - 1];
      NoNullsNoIssues(rows, init);
    }
  }

  function RowCountIssues(rows: seq<Row>, expectedMin: int): seq<Issue> {
    if |rows| < expectedMin then [RowCountBelow(|rows|, expectedMin)] else []
  }

  function DuplicateIssues(rows: seq<Row>): seq<Issue> {
    if DuplicateCount(rows) > 0 then [DuplicateRows(DuplicateCount(rows))] else []
  }

  /** The issues `run_all_checks` records for a frame, in the order the
      checks run: row count, nulls, duplicates. */
  function AllIssues(f: Frame): seq<Issue> {
    RowCountIssues(f.rows, 1) + NullIssues(f.rows, f.columns) + DuplicateIssues(f.rows)
  }

  /** How many issues a fresh checker holds after `run_all_checks`. */
  lemma IssueCount(f: Frame)
    ensures |AllIssues(f)| ==
            (if |f.rows| < 1 then 1 else 0) + |NullColumns(f.rows, f.columns)|
            + (if DuplicateCount(f.rows) > 0 then 1 else 0)
  {
    NullIssuesSpec(f.rows, f.columns);
  }

  /** The checks pass exactly when the frame has a row, no missing value
      and no duplicate row. */
  lemma PassesExactly(f: Frame)
    ensures AllIssues(f) == [] <==>
            |f.rows| >= 1 && TotalNulls(f.rows, f.columns) == 0 && DuplicateCount(f.rows) == 0
  {
    NoNullsNoIssues(f.rows, f.columns);
    IssueCount(f);
  }

  /** The summary `validate_dataframe` returns for a frame. */
  function ValidationSummary(f: Frame, table: string): Summary {
    Summary(table, |f.rows|, |f.columns|, TotalNulls(f.rows, f.columns), DuplicateCount(f.rows), AllIssues(f))
  }

  class DataQualityChecker {
    const df: Frame
    const tableName: string
    var issues: seq<Issue>

    constructor (dataframe: Frame, table: string)
      ensures df == dataframe && tableName == table && issues == []
    {
      df := dataframe;
      tableName := table;
      issues := [];
    }

    /** Appends one issue per column that has missing values, in column
        order, and returns the names of those columns (the source returns the
        per-column counts, which `NullCount` gives). */
    method CheckNullValues() returns (nullColumns: seq<string>)
      modifies this
      ensures nullColumns == NullColumns(df.rows, df.columns)
      ensures issues == old(issues) + NullIssues(df.rows, df.columns)
    {
      var rows, cols := df.rows, df.columns;
      ghost var before := issues;
      nullColumns := [];
      for k := 0 to |cols|
        invariant nullColumns == NullColumns(rows, cols[..k])
        invariant issues == before + NullIssues(rows, cols[..k])
      {
        NullStep(rows, cols, k);
        var count := NullCount(rows, cols[k]);
        if count > 0 {
          nullColumns := nullColumns + [cols[k]];
          issues := issues + [NullValues(cols[k], count)];
        }
      }
      assert cols[..|cols|] == cols;
    }

    method CheckDuplicates() returns (duplicateCount: nat)
      modifies this
      ensures duplicateCount == DuplicateCount(df.rows)
      ensures issues == old(issues) + DuplicateIssues(df.rows)
    {
      duplicateCount := DuplicateCount(df.rows);
      if duplicateCount > 0 {
        issues := issues + [DuplicateRows(duplicateCount)];
      }
    }

    method CheckRowCount(expectedMin: int) returns (ok: bool)
      modifies this
      ensures ok <==> |df.rows| >= expectedMin
      ensures issues == old(issues) + RowCountIssues(df.rows, expectedMin)
    {
      var rowCount := |df.rows|;
      if rowCount < expectedMin {
        issues := issues + [RowCountBelow(rowCount, expectedMin)];
        return false;
      }
      return true;
    }

    /** The row-count, null and duplicate checks in that order; passes
        exactly when no issue has been recorded so far. */
    method RunAllChecks() returns (passed: bool)
      modifies this
      ensures issues == old(issues) + AllIssues(df)
      ensures passed <==> issues == []
    {
      ghost var before := issues;
      var _ := CheckRowCount(1);
      ghost var afterRows := issues;
      var _ := CheckNullValues();
      ghost var afterNulls := issues;
      var _ := CheckDuplicates();
      assert issues == afterNulls + DuplicateIssues(df.rows);
      assert afterNulls == afterRows + NullIssues(df.rows, df.columns);
      assert afterRows == before + RowCountIssues(df.rows, 1);
      passed := issues == [];
    }

    function GetSummary(): (s: Summary)
      reads this
      ensures s.table == tableName && s.issues == issues
      ensures s.rowCount == |df.rows| && s.columnCount == |df.columns|
      ensures s.nullCount == TotalNulls(df.rows, df.columns)
      ensures s.duplicateCount == DuplicateCount(df.rows)
    {
      Summary(tableName, |df.rows|, |df.columns|, TotalNulls(df.rows, df.columns), DuplicateCount(df.rows), issues)
    }
  }

  /** `validate_dataframe`: a fresh checker runs every check; the verdict is
      dropped and the summary returned.  It never fails. */
  method ValidateDataFrame(f: Frame, table: string) returns (s: Summary)
    ensures s == ValidationSummary(f, table)
  {
    var checker := new DataQualityChecker(f, table);
    var _ := checker.RunAllChecks();
    s := checker.GetSummary();
  }
}
