/** The gold layer (src/load/load_to_gold.py): four aggregated tables built
    from the silver frame, and the rule deciding which of them are saved.
    Only the integer counts, the grouping, the banding, the ordering and the
    skip rules are modelled; the floating-point statistics are not. */
module Gold {
  import opened Wrappers
  import opened Frames
  import opened Ordering
  import opened Grouping

  const DepartmentColumn := "DepartmentName"
  const EmployeeKeyColumn := "EmployeeKey"
  const GenderColumn := "Gender"
  const TenureColumn := "YearsOfService"
  const HireDateColumn := "HireDate"

  /** The columns of the department summary's `agg` dictionary, in order. */
  const SummaryInputs := ["EmployeeKey", "BaseRate", "YearsOfService", "Age", "VacationHours", "SickLeaveHours"]

  /** What building a table raises: the KeyError of a missing column, or
      the ValueError of storing an empty `apply` result as one column. */
  datatype Failure = KeyError(column: string) | ValueError

  /** A table builder either returns its table or raises. */
  datatype Build<T> = Built(value: T) | Raised(failure: Failure)

  /** `count` on `EmployeeKey` counts the rows whose key is present. */
  predicate Counted(r: Row) {
    !IsNull(Get(r, EmployeeKeyColumn))
  }

  /** A group-key part; `groupby` drops rows where it is missing. */
  function KeyOf(v: Value): Option<Value> {
    if IsNull(v) then None else Some(v)
  }

  function PairOf<A, B>(a: Option<A>, b: Option<B>): Option<(A, B)> {
    if a.Some? && b.Some? then Some((a.value, b.value)) else None
  }

  // ---------------------------------------------------------------------
  // Department summary (lines 57-96): the counts only

  function DepartmentObs(rows: seq<Row>): seq<Obs<Value>> {
    seq(|rows|, i requires 0 <= i < |rows| => Obs(KeyOf(Get(rows[i], DepartmentColumn)), Counted(rows[i])))
  }

  /** `create_department_summary`: one row per department with
      `total_employees`; a missing department or aggregated column is a
      KeyError. */
  function DepartmentSummary(f: Frame): Result<seq<Group<Value>>> {
    if DepartmentColumn !in f.columns then MissingColumn(DepartmentColumn)
    else
      match FirstMissing(f.columns, SummaryInputs)
      case Some(c) => MissingColumn(c)
      case None =>
        ValueLessIsStrictTotal();
        var obs := DepartmentObs(f.rows);
        Ok(Tally(Groups(obs, ValueLess), obs))
  }

  /** The rows of department `d` that have an employee key, counted directly. */
  function DepartmentCount(rows: seq<Row>, d: Value): nat {
    if rows == [] then 0
    else
      var r := rows[|rows| - 1];
      DepartmentCount(rows[..|rows| - 1], d) + if Get(r, DepartmentColumn) == d && Counted(r) then 1 else 0
  }

  lemma {:induction false} DepartmentObsCount(rows: seq<Row>, d: Value)
    requires !IsNull(d)
    ensures CountIn(DepartmentObs(rows), d) == DepartmentCount(rows, d)
  {
    if rows != [] {
      var init := rows[..|rows| - 1];
      assert DepartmentObs(rows)[..|init|] == DepartmentObs(init);
      DepartmentObsCount(init, d);
    }
  }

  lemma DepartmentSummaryFails(f: Frame)
    ensures DepartmentSummary(f).Ok? <==>
            DepartmentColumn in f.columns && forall c :: c in SummaryInputs ==> c in f.columns
    ensures DepartmentSummary(f).MissingColumn? ==> DepartmentSummary(f).column !in f.columns
  {
  }

  /** The summary lists each department some row has, once, in ascending
      order; `total_employees` counts that department's rows with a key, and
      the totals add up to the rows having both. */
  lemma DepartmentSummaryRows(f: Frame)
    requires DepartmentSummary(f).Ok?
    ensures var t := DepartmentSummary(f).value;
            && (forall i, j :: 0 <= i < j < |t| ==> ValueLess(t[i].key, t[j].key))
            && (forall d :: (exists j :: 0 <= j < |t| && t[j].key == d) <==>
                            (exists i :: 0 <= i < |f.rows| && KeyOf(Get(f.rows[i], DepartmentColumn)) == Some(d)))
            && (forall j :: 0 <= j < |t| ==> t[j].count == DepartmentCount(f.rows, t[j].key))
            && SumCounts(t) == CountPresent(DepartmentObs(f.rows))
  {
    ValueLessIsStrictTotal();
    var obs := DepartmentObs(f.rows);
    var t := DepartmentSummary(f).value;
    TallyOrdered(obs, ValueLess);
    TallyCovers(obs, ValueLess);
    TallyTotal(obs, ValueLess);
    assert forall i :: 0 <= i < |obs| ==> obs[i].key == KeyOf(Get(f.rows[i], DepartmentColumn));
    forall j | 0 <= j < |t| ensures t[j].count == DepartmentCount(f.rows, t[j].key) {
      assert exists i :: 0 <= i < |obs| && obs[i].key == Some(t[j].key);
      DepartmentObsCount(f.rows, t[j].key);
    }
  }

  // ---------------------------------------------------------------------
  // Gender diversity (lines 98-129)

  datatype DiversityRow = DiversityRow(department: Value, gender: Value, employeeCount: nat, percentage: Option<real>)

  function DiversityObs(rows: seq<Row>): seq<Obs<(Value, Value)>> {
    seq(|rows|, i requires 0 <= i < |rows| =>
      Obs(PairOf(KeyOf(Get(rows[i], DepartmentColumn)), KeyOf(Get(rows[i], GenderColumn))), Counted(rows[i])))
  }

  /** `employee_count / total_by_dept * 100` before rounding; pandas gives
      NaN for 0 / 0, which happens only when no row of the department has a
      key. */
  function Percent(count: nat, total: nat): Option<real> {
    if total == 0 then None else Some(count as real / total as real * 100.0)
  }

  /** The rows of `part` with their percentages of the totals taken over `whole`. */
  function WithPercentages(part: seq<Group<(Value, Value)>>, whole: seq<Group<(Value, Value)>>): (r: seq<DiversityRow>)
    ensures |r| == |part|
    ensures forall j :: 0 <= j < |part| ==>
              r[j] == DiversityRow(part[j].key.0, part[j].key.1, part[j].count,
                                   Percent(part[j].count, OuterTotal(whole, part[j].key.0)))
  {
    if part == [] then []
    else
      [DiversityRow(part[0].key.0, part[0].key.1, part[0].count, Percent(part[0].count, OuterTotal(whole, part[0].key.0)))]
      + WithPercentages(part[1..], whole)
  }

  function DiversityCounts(obs: seq<Obs<(Value, Value)>>): seq<Group<(Value, Value)>> {
    ValueLessIsStrictTotal();
    LexIsStrictTotal(ValueLess, ValueLess);
    Tally(Groups(obs, Lex(ValueLess, ValueLess)), obs)
  }

  /** No row has both a department and a gender, so `groupby` leaves no group. */
  predicate NoDiversityPair(rows: seq<Row>) {
    forall i :: 0 <= i < |rows| ==> IsNull(Get(rows[i], DepartmentColumn)) || IsNull(Get(rows[i], GenderColumn))
  }

  /** `create_gender_diversity_report`: skipped without a `Gender` column;
      otherwise a KeyError without a department or key column.  On an empty
      tally `apply(axis=1)` returns a frame rather than a column, and storing
      it as `percentage` raises a ValueError. */
  function GenderDiversity(f: Frame): Build<Option<seq<DiversityRow>>> {
    if GenderColumn !in f.columns then Built(None)
    else if DepartmentColumn !in f.columns then Raised(KeyError(DepartmentColumn))
    else if EmployeeKeyColumn !in f.columns then Raised(KeyError(EmployeeKeyColumn))
    else
      var t := DiversityCounts(DiversityObs(f.rows));
      if t == [] then Raised(ValueError)
      else Built(Some(WithPercentages(t, t)))
  }

  /** A row with both a department and a gender puts a group in the tally. */
  lemma DiversityPairListed(rows: seq<Row>, i: nat)
    requires i < |rows| && !IsNull(Get(rows[i], DepartmentColumn)) && !IsNull(Get(rows[i], GenderColumn))
    ensures DiversityCounts(DiversityObs(rows)) != []
  {
    ValueLessIsStrictTotal();
    LexIsStrictTotal(ValueLess, ValueLess);
    var obs := DiversityObs(rows);
    TallyCovers(obs, Lex(ValueLess, ValueLess));
    assert obs[i].key == Some((Get(rows[i], DepartmentColumn), Get(rows[i], GenderColumn)));
  }

  /** Each group of the tally comes from a row with both a department and a gender. */
  lemma DiversityListedPair(rows: seq<Row>) returns (i: nat)
    requires DiversityCounts(DiversityObs(rows)) != []
    ensures i < |rows| && !IsNull(Get(rows[i], DepartmentColumn)) && !IsNull(Get(rows[i], GenderColumn))
  {
    ValueLessIsStrictTotal();
    LexIsStrictTotal(ValueLess, ValueLess);
    var obs := DiversityObs(rows);
    var t := DiversityCounts(obs);
    TallyCovers(obs, Lex(ValueLess, ValueLess));
    assert exists j :: 0 <= j < |t| && t[j].key == t[0].key;
    i :| 0 <= i < |obs| && obs[i].key == Some(t[0].key);
  }

  /** The tally is empty exactly when no row has both a department and a gender. */
  lemma DiversityEmpty(rows: seq<Row>)
    ensures DiversityCounts(DiversityObs(rows)) == [] <==> NoDiversityPair(rows)
  {
    if !NoDiversityPair(rows) {
      var i :| 0 <= i < |rows| && !IsNull(Get(rows[i], DepartmentColumn)) && !IsNull(Get(rows[i], GenderColumn));
      DiversityPairListed(rows, i);
    }
    if DiversityCounts(DiversityObs(rows)) != [] {
      var i := DiversityListedPair(rows);
    }
  }

  /** The report is skipped exactly without `Gender`; a missing department or
      key column is a KeyError; with all three present it raises a ValueError
      exactly when no row has both a department and a gender, and otherwise
      lists at least one row. */
  lemma GenderDiversitySkips(f: Frame)
    ensures GenderDiversity(f) == Built(None) <==> GenderColumn !in f.columns
    ensures GenderDiversity(f).Raised? && GenderDiversity(f).failure.KeyError? <==>
            GenderColumn in f.columns && (DepartmentColumn !in f.columns || EmployeeKeyColumn !in f.columns)
    ensures GenderDiversity(f).Raised? && GenderDiversity(f).failure.KeyError? ==>
              GenderDiversity(f).failure.column !in f.columns
    ensures GenderDiversity(f) == Raised(ValueError) <==>
            && GenderColumn in f.columns && DepartmentColumn in f.columns && EmployeeKeyColumn in f.columns
            && NoDiversityPair(f.rows)
    ensures GenderDiversity(f).Built? && GenderDiversity(f).value.Some? ==> |GenderDiversity(f).value.value| > 0
  {
    DiversityEmpty(f.rows);
  }

  /** `total_by_dept[d]` counts exactly the rows of department `d` that have
      a gender and a key: a row missing either contributes nowhere. */
  lemma DepartmentTotals(obs: seq<Obs<(Value, Value)>>, d: Value)
    ensures OuterTotal(DiversityCounts(obs), d) == CountOuter(obs, d)
  {
    ValueLessIsStrictTotal();
    LexIsStrictTotal(ValueLess, ValueLess);
    OuterTotalConserves(obs, Lex(ValueLess, ValueLess), d);
  }

  lemma RatioBounds(c: nat, total: nat)
    requires 0 < total && c <= total
    ensures 0.0 <= c as real / total as real * 100.0 <= 100.0
    ensures c as real / total as real * 100.0 > 0.0 <==> c > 0
  {
    var q := c as real / total as real;
    assert q * total as real == c as real;
  }

  /** Each percentage is missing only for a department without counted rows,
      and otherwise lies in [0, 100], positive exactly for a non-zero count. */
  lemma PercentBounds(t: seq<Group<(Value, Value)>>, j: nat)
    requires j < |t|
    ensures var r := WithPercentages(t, t)[j];
            && (r.percentage.None? <==> OuterTotal(t, r.department) == 0)
            && (r.percentage.None? ==> r.employeeCount == 0)
            && (r.percentage.Some? ==> 0.0 <= r.percentage.value <= 100.0
                                       && (r.percentage.value > 0.0 <==> r.employeeCount > 0))
  {
    var r := WithPercentages(t, t)[j];
    var total := OuterTotal(t, t[j].key.0);
    assert r == DiversityRow(t[j].key.0, t[j].key.1, t[j].count, Percent(t[j].count, total));
    WithinOuterTotal(t, j);
    if total > 0 {
      RatioBounds(t[j].count, total);
    }
  }

  /** The sum of the percentages listed for department `d`. */
  function PercentSum(rows: seq<DiversityRow>, d: Value): real {
    if rows == [] then 0.0
    else (if rows[0].department == d && rows[0].percentage.Some? then rows[0].percentage.value else 0.0)
         + PercentSum(rows[1..], d)
  }

  lemma AddRatios(a: real, b: real, total: real)
    requires total > 0.0
    ensures a / total * 100.0 + b / total * 100.0 == (a + b) / total * 100.0
  {
  }

  lemma {:induction false} PercentSumPart(part: seq<Group<(Value, Value)>>, whole: seq<Group<(Value, Value)>>, d: Value)
    ensures PercentSum(WithPercentages(part, whole), d) ==
            if OuterTotal(whole, d) == 0 then 0.0
            else OuterTotal(part, d) as real / OuterTotal(whole, d) as real * 100.0
  {
    if part != [] {
      var rows := WithPercentages(part, whole);
      var total := OuterTotal(whole, d);
      PercentSumPart(part[1..], whole, d);
      assert rows[1..] == WithPercentages(part[1..], whole);
      assert rows[0] == DiversityRow(part[0].key.0, part[0].key.1, part[0].count,
                                     Percent(part[0].count, OuterTotal(whole, part[0].key.0)));
      var rest := OuterTotal(part[1..], d);
      if part[0].key.0 == d {
        assert OuterTotal(part, d) == part[0].count + rest;
        if total > 0 {
          AddRatios(part[0].count as real, rest as real, total as real);
        }
      } else {
        assert OuterTotal(part, d) == rest;
      }
    }
  }

  /** Within a department with counted rows the percentages add up to 100
      (before `round(2)`). */
  lemma PercentagesSumTo100(t: seq<Group<(Value, Value)>>, d: Value)
    requires OuterTotal(t, d) > 0
    ensures PercentSum(WithPercentages(t, t), d) == 100.0
  {
    PercentSumPart(t, t, d);
    WholeRatio(OuterTotal(t, d) as real);
  }

  lemma WholeRatio(total: real)
    requires total > 0.0
    ensures total / total * 100.0 == 100.0
  {
  }

  // ---------------------------------------------------------------------
  // Tenure analysis (lines 131-163)

  const BandEdges := [-1, 1, 3, 5, 10, 100]
  const BandLabels := ["0-1 years", "1-3 years", "3-5 years", "5-10 years", "10+ years"]

  /** `pd.cut(YearsOfService, bins=BandEdges)`: the index of the band;
      missing values, values not above -1 and values above 100 get none. */
  function BandOf(v: Value): (b: Option<int>)
    ensures b.Some? ==> 0 <= b.value < |BandLabels|
  {
    match v
    case Int(y) =>
      if y <= -1 then None
      else if y <= 1 then Some(0)
      else if y <= 3 then Some(1)
      else if y <= 5 then Some(2)
      else if y <= 10 then Some(3)
      else if y <= 100 then Some(4)
      else None
    case _ => None
  }

  /** The bands are intervals closed on the right, `(BandEdges[k], BandEdges[k + 1]]`. */
  lemma BandIsRightClosed(y: int, k: int)
    requires 0 <= k < |BandLabels|
    ensures BandOf(Int(y)) == Some(k) <==> BandEdges[k] < y <= BandEdges[k + 1]
    ensures BandOf(Int(y)).None? <==> y <= BandEdges[0] || y > BandEdges[|BandEdges| - 1]
  {
  }

  lemma BandExamples()
    ensures BandOf(Int(0)) == Some(0) && BandOf(Int(1)) == Some(0)
    ensures BandLabels[BandOf(Int(10)).value] == "5-10 years"
    ensures BandOf(Int(-1)).None? && BandOf(Int(101)).None? && BandOf(Null).None?
  {
  }

  function TenureObs(rows: seq<Row>): seq<Obs<(Value, int)>> {
    seq(|rows|, i requires 0 <= i < |rows| =>
      Obs(PairOf(KeyOf(Get(rows[i], DepartmentColumn)), BandOf(Get(rows[i], TenureColumn))), Counted(rows[i])))
  }

  function TenureCounts(obs: seq<Obs<(Value, int)>>): seq<Group<(Value, int)>> {
    ValueLessIsStrictTotal();
    IntLessIsStrictTotal();
    LexIsStrictTotal(ValueLess, IntLess);
    Tally(Groups(obs, Lex(ValueLess, IntLess)), obs)
  }

  /** `create_tenure_analysis`: skipped without `YearsOfService`; otherwise a
      KeyError without a department or key column.  Each row is a
      (department, band index) pair with its count; bands sort in the order
      of their labels' categories. */
  function TenureAnalysis(f: Frame): Result<Option<seq<Group<(Value, int)>>>> {
    if TenureColumn !in f.columns then Ok(None)
    else if DepartmentColumn !in f.columns then MissingColumn(DepartmentColumn)
    else if EmployeeKeyColumn !in f.columns then MissingColumn(EmployeeKeyColumn)
    else Ok(Some(TenureCounts(TenureObs(f.rows))))
  }

  lemma TenureAnalysisSkips(f: Frame)
    ensures TenureAnalysis(f) == Ok(None) <==> TenureColumn !in f.columns
    ensures TenureAnalysis(f).MissingColumn? <==>
            TenureColumn in f.columns && (DepartmentColumn !in f.columns || EmployeeKeyColumn !in f.columns)
    ensures TenureAnalysis(f).MissingColumn? ==> TenureAnalysis(f).column !in f.columns
  {
  }

  /** The rows of department `d` in band `b` that have a key, counted directly. */
  function TenureCount(rows: seq<Row>, d: Value, b: int): nat {
    if rows == [] then 0
    else
      var r := rows[|rows| - 1];
      TenureCount(rows[..|rows| - 1], d, b)
      + if Get(r, DepartmentColumn) == d && BandOf(Get(r, TenureColumn)) == Some(b) && Counted(r) then 1 else 0
  }

  lemma {:induction false} TenureObsCount(rows: seq<Row>, d: Value, b: int)
    requires !IsNull(d)
    ensures CountIn(TenureObs(rows), (d, b)) == TenureCount(rows, d, b)
  {
    if rows != [] {
      var init := rows[..|rows| - 1];
      assert TenureObs(rows)[..|init|] == TenureObs(init);
      TenureObsCount(init, d, b);
    }
  }

  /** Each tenure row names a band and a department some row has, and its
      count is the number of that department's rows in that band with a key. */
  lemma TenureRowsListed(rows: seq<Row>)
    ensures var t := TenureCounts(TenureObs(rows));
            forall j :: 0 <= j < |t| ==>
              && 0 <= t[j].key.1 < |BandLabels|
              && (exists i :: 0 <= i < |rows| && Get(rows[i], DepartmentColumn) == t[j].key.0
                                              && BandOf(Get(rows[i], TenureColumn)) == Some(t[j].key.1))
              && t[j].count == TenureCount(rows, t[j].key.0, t[j].key.1)
  {
    ValueLessIsStrictTotal();
    IntLessIsStrictTotal();
    LexIsStrictTotal(ValueLess, IntLess);
    var obs := TenureObs(rows);
    var t := TenureCounts(obs);
    TallyCovers(obs, Lex(ValueLess, IntLess));
    forall j | 0 <= j < |t|
      ensures && 0 <= t[j].key.1 < |BandLabels|
              && (exists i :: 0 <= i < |rows| && Get(rows[i], DepartmentColumn) == t[j].key.0
                                              && BandOf(Get(rows[i], TenureColumn)) == Some(t[j].key.1))
              && t[j].count == TenureCount(rows, t[j].key.0, t[j].key.1)
    {
      var i :| 0 <= i < |obs| && obs[i].key == Some(t[j].key);
      assert BandOf(Get(rows[i], TenureColumn)) == Some(t[j].key.1);
      TenureObsCount(rows, t[j].key.0, t[j].key.1);
    }
  }

  /** Every row with a department and a band has its pair listed. */
  lemma TenureRowsCover(rows: seq<Row>)
    ensures var t := TenureCounts(TenureObs(rows));
            forall i :: 0 <= i < |rows| && !IsNull(Get(rows[i], DepartmentColumn))
                                        && BandOf(Get(rows[i], TenureColumn)).Some? ==>
              exists j :: 0 <= j < |t| && t[j].key == (Get(rows[i], DepartmentColumn),
                                                       BandOf(Get(rows[i], TenureColumn)).value)
  {
    ValueLessIsStrictTotal();
    IntLessIsStrictTotal();
    LexIsStrictTotal(ValueLess, IntLess);
    var obs := TenureObs(rows);
    var t := TenureCounts(obs);
    TallyCovers(obs, Lex(ValueLess, IntLess));
    forall i | 0 <= i < |rows| && !IsNull(Get(rows[i], DepartmentColumn)) && BandOf(Get(rows[i], TenureColumn)).Some?
      ensures exists j :: 0 <= j < |t| && t[j].key == (Get(rows[i], DepartmentColumn),
                                                       BandOf(Get(rows[i], TenureColumn)).value)
    {
      assert obs[i].key == Some((Get(rows[i], DepartmentColumn), BandOf(Get(rows[i], TenureColumn)).value));
    }
  }

  /** The tenure rows are in ascending (department, band) order; each names
      a band and a department some row has, and its count is the number of
      that department's rows in that band with a key; every row with a
      department and a band has its pair listed; the counts add up to the
      rows having all three. */
  lemma TenureRows(rows: seq<Row>)
    ensures var t := TenureCounts(TenureObs(rows));
            forall i, j :: 0 <= i < j < |t| ==> Lex(ValueLess, IntLess)(t[i].key, t[j].key)
    ensures var t := TenureCounts(TenureObs(rows));
            forall i :: 0 <= i < |rows| && !IsNull(Get(rows[i], DepartmentColumn))
                                        && BandOf(Get(rows[i], TenureColumn)).Some? ==>
              exists j :: 0 <= j < |t| && t[j].key == (Get(rows[i], DepartmentColumn),
                                                       BandOf(Get(rows[i], TenureColumn)).value)
    ensures SumCounts(TenureCounts(TenureObs(rows))) == CountPresent(TenureObs(rows))
    ensures var t := TenureCounts(TenureObs(rows));
            forall j :: 0 <= j < |t| ==>
              && 0 <= t[j].key.1 < |BandLabels|
              && (exists i :: 0 <= i < |rows| && Get(rows[i], DepartmentColumn) == t[j].key.0
                                              && BandOf(Get(rows[i], TenureColumn)) == Some(t[j].key.1))
              && t[j].count == TenureCount(rows, t[j].key.0, t[j].key.1)
  {
    ValueLessIsStrictTotal();
    IntLessIsStrictTotal();
    LexIsStrictTotal(ValueLess, IntLess);
    TallyOrdered(TenureObs(rows), Lex(ValueLess, IntLess));
    TallyTotal(TenureObs(rows), Lex(ValueLess, IntLess));
    TenureRowsCover(rows);
    TenureRowsListed(rows);
  }

  // ---------------------------------------------------------------------
  // Hiring trends (lines 165-193)

  /** `HireDate.dt.year`, with the calendar as a parameter. */
  function HireYear(v: Value, yearOf: int -> int): Option<int> {
    match v
    case Day(d) => Some(yearOf(d))
    case _ => None
  }

  function HiringObs(rows: seq<Row>, yearOf: int -> int): seq<Obs<(int, Value)>> {
    seq(|rows|, i requires 0 <= i < |rows| =>
      Obs(PairOf(HireYear(Get(rows[i], HireDateColumn), yearOf), KeyOf(Get(rows[i], DepartmentColumn))), Counted(rows[i])))
  }

  /** `a` sorts strictly before `b` under `sort_values(['hire_year',
      'new_hires'], ascending=[False, False])`. */
  predicate Precedes(a: Group<(int, Value)>, b: Group<(int, Value)>) {
    a.key.0 > b.key.0 || (a.key.0 == b.key.0 && a.count > b.count)
  }

  predicate TrendOrdered(s: seq<Group<(int, Value)>>) {
    forall i, j :: 0 <= i < j < |s| ==> !Precedes(s[j], s[i])
  }

  /** Inserts `x` before the first row it does not follow; rows that tie
      keep their order. */
  function InsertTrend(x: Group<(int, Value)>, s: seq<Group<(int, Value)>>): seq<Group<(int, Value)>> {
    if s == [] || !Precedes(s[0], x) then [x] + s else [s[0]] + InsertTrend(x, s[1..])
  }

  function SortTrends(s: seq<Group<(int, Value)>>): seq<Group<(int, Value)>> {
    if s == [] then [] else InsertTrend(s[0], SortTrends(s[1..]))
  }

  lemma {:induction false} InsertTrendKeeps(x: Group<(int, Value)>, s: seq<Group<(int, Value)>>)
    ensures multiset(InsertTrend(x, s)) == multiset(s) + multiset{x}
    ensures SumCounts(InsertTrend(x, s)) == x.count + SumCounts(s)
  {
    if s != [] && Precedes(s[0], x) {
      InsertTrendKeeps(x, s[1..]);
      assert s == [s[0]] + s[1..];
      var out := InsertTrend(x, s);
      assert out[1..] == InsertTrend(x, s[1..]);
    } else {
      var out := [x] + s;
      assert out[1..] == s;
    }
  }

  lemma TrendOrderedTail(s: seq<Group<(int, Value)>>)
    requires s != [] && TrendOrdered(s)
    ensures TrendOrdered(s[1..]) && forall k :: 0 <= k < |s| ==> !Precedes(s[k], s[0])
  {
    var tail := s[1..];
    forall i, j | 0 <= i < j < |tail| ensures !Precedes(tail[j], tail[i]) {
      assert tail[i] == s[i + 1] && tail[j] == s[j + 1];
    }
    forall k | 0 < k < |s| ensures !Precedes(s[k], s[0]) {
      assert !Precedes(s[k], s[0]);
    }
  }

  /** Inserting into the rows after a head that precedes `x` keeps every row
      from preceding that head. */
  lemma InsertBehindHead(x: Group<(int, Value)>, s: seq<Group<(int, Value)>>)
    requires s != [] && Precedes(s[0], x) && TrendOrdered(s)
    ensures forall k :: 0 <= k < |InsertTrend(x, s[1..])| ==> !Precedes(InsertTrend(x, s[1..])[k], s[0])
  {
    var tail := s[1..];
    TrendOrderedTail(s);
    InsertTrendKeeps(x, tail);
    var rest := InsertTrend(x, tail);
    forall k | 0 <= k < |rest| ensures !Precedes(rest[k], s[0]) {
      assert rest[k] in multiset(rest);
      if rest[k] != x {
        assert rest[k] in multiset(tail);
        var m :| 0 <= m < |tail| && tail[m] == rest[k];
        assert s[m + 1] == rest[k];
      }
    }
  }

  lemma {:induction false} InsertTrendOrdered(x: Group<(int, Value)>, s: seq<Group<(int, Value)>>)
    requires TrendOrdered(s)
    ensures TrendOrdered(InsertTrend(x, s))
  {
    if s != [] && Precedes(s[0], x) {
      TrendOrderedTail(s);
      InsertTrendOrdered(x, s[1..]);
      InsertBehindHead(x, s);
      var rest := InsertTrend(x, s[1..]);
      assert TrendOrdered(rest);
      var out := [s[0]] + rest;
      assert InsertTrend(x, s) == out;
      forall i, j | 0 <= i < j < |out| ensures !Precedes(out[j], out[i]) {
        assert out[j] == rest[j - 1];
        if i > 0 {
          assert out[i] == rest[i - 1];
          assert !Precedes(rest[j - 1], rest[i - 1]);
        } else {
          assert out[i] == s[0];
          assert !Precedes(rest[j - 1], s[0]);
        }
      }
    } else if s != [] {
      TrendOrderedTail(s);
    }
  }

  /** `sort_values` by year, then by hires, both descending: the result is
      ordered and holds the same rows. */
  lemma {:induction false} SortTrendsSpec(s: seq<Group<(int, Value)>>)
    ensures TrendOrdered(SortTrends(s))
    ensures multiset(SortTrends(s)) == multiset(s)
    ensures SumCounts(SortTrends(s)) == SumCounts(s)
  {
    if s != [] {
      SortTrendsSpec(s[1..]);
      InsertTrendOrdered(s[0], SortTrends(s[1..]));
      InsertTrendKeeps(s[0], SortTrends(s[1..]));
      assert s == [s[0]] + s[1..];
    }
  }

  function HiringCounts(obs: seq<Obs<(int, Value)>>): seq<Group<(int, Value)>> {
    ValueLessIsStrictTotal();
    IntLessIsStrictTotal();
    LexIsStrictTotal(IntLess, ValueLess);
    Tally(Groups(obs, Lex(IntLess, ValueLess)), obs)
  }

  /** `create_hiring_trends`: skipped without `HireDate`; otherwise a
      KeyError without a department or key column. */
  function HiringTrends(f: Frame, yearOf: int -> int): Result<Option<seq<Group<(int, Value)>>>> {
    if HireDateColumn !in f.columns then Ok(None)
    else if DepartmentColumn !in f.columns then MissingColumn(DepartmentColumn)
    else if EmployeeKeyColumn !in f.columns then MissingColumn(EmployeeKeyColumn)
    else Ok(Some(SortTrends(HiringCounts(HiringObs(f.rows, yearOf)))))
  }

  lemma HiringTrendsSkips(f: Frame, yearOf: int -> int)
    ensures HiringTrends(f, yearOf) == Ok(None) <==> HireDateColumn !in f.columns
    ensures HiringTrends(f, yearOf).MissingColumn? <==>
            HireDateColumn in f.columns && (DepartmentColumn !in f.columns || EmployeeKeyColumn !in f.columns)
    ensures HiringTrends(f, yearOf).MissingColumn? ==> HiringTrends(f, yearOf).column !in f.columns
  {
  }

  /** The trends are ordered by year and then hires, both descending, are a
      reordering of the (year, department) groups, and their `new_hires` add
      up to the rows that have a hire year, a department and a key. */
  lemma HiringTrendsRows(f: Frame, yearOf: int -> int)
    requires HiringTrends(f, yearOf).Ok? && HiringTrends(f, yearOf).value.Some?
    ensures var s := HiringTrends(f, yearOf).value.value;
            && TrendOrdered(s)
            && multiset(s) == multiset(HiringCounts(HiringObs(f.rows, yearOf)))
            && SumCounts(s) == CountPresent(HiringObs(f.rows, yearOf))
  {
    ValueLessIsStrictTotal();
    IntLessIsStrictTotal();
    LexIsStrictTotal(IntLess, ValueLess);
    var obs := HiringObs(f.rows, yearOf);
    SortTrendsSpec(HiringCounts(obs));
    TallyTotal(obs, Lex(IntLess, ValueLess));
  }

  // ---------------------------------------------------------------------
  // Which tables are saved (lines 195-226) and the load run (lines 228-268)

  datatype Analytics = Analytics(
    departmentSummary: seq<Group<Value>>,
    genderDiversity: Option<seq<DiversityRow>>,
    tenureAnalysis: Option<seq<Group<(Value, int)>>>,
    hiringTrends: Option<seq<Group<(int, Value)>>>)

  function RowCount<T>(t: Option<seq<T>>): Option<int> {
    if t.None? then None else Some(|t.value|)
  }

  /** The `analytics` dictionary as `save_to_gold` iterates it: each name
      with the row count of its table, or None for a skipped table. */
  function Entries(a: Analytics): seq<(string, Option<int>)> {
    [("department_summary", Some(|a.departmentSummary|)),
     ("gender_diversity", RowCount(a.genderDiversity)),
     ("tenure_analysis", RowCount(a.tenureAnalysis)),
     ("hiring_trends", RowCount(a.hiringTrends))]
  }

  function GoldPath(goldDir: string, name: string, stamp: string): string {
    goldDir + "/" + name + "_" + stamp + ".csv"
  }

  /** A table is recorded when it exists, has rows and both of its files
      were written (`writes` stands for the file system). */
  predicate Saves(entry: (string, Option<int>), writes: string -> bool) {
    entry.1.Some? && entry.1.value > 0 && writes(entry.0)
  }

  function SavedFiles(entries: seq<(string, Option<int>)>, writes: string -> bool,
                      goldDir: string, stamp: string): seq<(string, string)>
  {
    if entries == [] then []
    else
      var e := entries[|entries| - 1];
      SavedFiles(entries[..|entries| - 1], writes, goldDir, stamp)
      + if Saves(e, writes) then [(e.0, GoldPath(goldDir, e.0, stamp))] else []
  }

  /** `save_to_gold`: a failed write is logged and the loop goes on. */
  method SaveToGold(entries: seq<(string, Option<int>)>, writes: string -> bool,
                    goldDir: string, stamp: string) returns (saved: seq<(string, string)>)
    ensures saved == SavedFiles(entries, writes, goldDir, stamp)
  {
    saved := [];
    for k := 0 to |entries|
      invariant saved == SavedFiles(entries[..k], writes, goldDir, stamp)
    {
      assert entries[..k + 1][..k] == entries[..k];
      var (name, table) := entries[k];
      if table.Some? && table.value > 0 {
        if writes(name) {
          saved := saved + [(name, GoldPath(goldDir, name, stamp))];
        }
      }
    }
    assert entries[..|entries|] == entries;
  }

  /** A table is recorded exactly when it exists, is non-empty and its write
      succeeds, whatever happens to the others; nothing else is recorded. */
  lemma {:induction false} SavedFilesSpec(entries: seq<(string, Option<int>)>, writes: string -> bool,
                                          goldDir: string, stamp: string)
    ensures forall p :: p in SavedFiles(entries, writes, goldDir, stamp) <==>
              exists i :: 0 <= i < |entries| && Saves(entries[i], writes)
                          && p == (entries[i].0, GoldPath(goldDir, entries[i].0, stamp))
    ensures |SavedFiles(entries, writes, goldDir, stamp)| <= |entries|
  {
    if entries != [] {
      var init := entries[..|entries| - 1];
      SavedFilesSpec(init, writes, goldDir, stamp);
      assert forall i :: 0 <= i < |init| ==> init[i] == entries[i];
      forall p ensures p in SavedFiles(entries, writes, goldDir, stamp) <==>
                       exists i :: 0 <= i < |entries| && Saves(entries[i], writes)
                                   && p == (entries[i].0, GoldPath(goldDir, entries[i].0, stamp))
      {
        if exists i :: 0 <= i < |entries| && Saves(entries[i], writes)
                       && p == (entries[i].0, GoldPath(goldDir, entries[i].0, stamp))
        {
          var i :| 0 <= i < |entries| && Saves(entries[i], writes)
                   && p == (entries[i].0, GoldPath(goldDir, entries[i].0, stamp));
          if i < |init| {
            assert init[i] == entries[i];
          }
        }
      }
    }
  }

  /** The four tables in the order `run` builds them; the first exception
      ends the run. */
  function BuildAnalytics(f: Frame, yearOf: int -> int): Build<Analytics> {
    match DepartmentSummary(f)
    case MissingColumn(c) => Raised(KeyError(c))
    case Ok(summary) =>
      match GenderDiversity(f)
      case Raised(e) => Raised(e)
      case Built(diversity) =>
        match TenureAnalysis(f)
        case MissingColumn(c) => Raised(KeyError(c))
        case Ok(tenure) =>
          match HiringTrends(f, yearOf)
          case MissingColumn(c) => Raised(KeyError(c))
          case Ok(hiring) => Built(Analytics(summary, diversity, tenure, hiring))
  }

  /** The build raises the department summary's KeyError, or else the
      diversity report's ValueError when `Gender` is present but no row pairs
      a department with a gender; otherwise it succeeds and each other table
      is absent exactly when its own column is missing. */
  lemma BuildAnalyticsSpec(f: Frame, yearOf: int -> int)
    ensures BuildAnalytics(f, yearOf).Built? <==>
            DepartmentSummary(f).Ok? && !(GenderColumn in f.columns && NoDiversityPair(f.rows))
    ensures DepartmentSummary(f).MissingColumn? ==>
              BuildAnalytics(f, yearOf) == Raised(KeyError(DepartmentSummary(f).column))
    ensures BuildAnalytics(f, yearOf) == Raised(ValueError) <==>
            DepartmentSummary(f).Ok? && GenderColumn in f.columns && NoDiversityPair(f.rows)
    ensures BuildAnalytics(f, yearOf).Built? ==>
              var a := BuildAnalytics(f, yearOf).value;
              && (a.genderDiversity.None? <==> GenderColumn !in f.columns)
              && (a.tenureAnalysis.None? <==> TenureColumn !in f.columns)
              && (a.hiringTrends.None? <==> HireDateColumn !in f.columns)
  {
    DepartmentSummaryFails(f);
    GenderDiversitySkips(f);
    assert EmployeeKeyColumn in SummaryInputs;
  }

  /** `run`: the silver frame, the calendar, the file system and the time
      stamp are parameters; it re-raises what building the tables raises,
      and otherwise returns the recorded files and the tables. */
  method LoadRun(f: Frame, yearOf: int -> int, writes: string -> bool, goldDir: string, stamp: string)
    returns (r: Build<(seq<(string, string)>, Analytics)>)
    ensures r.Built? <==> BuildAnalytics(f, yearOf).Built?
    ensures r.Raised? ==> r.failure == BuildAnalytics(f, yearOf).failure
    ensures r.Built? ==> && r.value.1 == BuildAnalytics(f, yearOf).value
                         && r.value.0 == SavedFiles(Entries(r.value.1), writes, goldDir, stamp)
  {
    var analytics := BuildAnalytics(f, yearOf);
    if analytics.Raised? {
      return Raised(analytics.failure);
    }
    var saved := SaveToGold(Entries(analytics.value), writes, goldDir, stamp);
    r := Built((saved, analytics.value));
  }
}
