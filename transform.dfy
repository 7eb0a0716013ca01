/** The silver-layer transformation of employee records
    (src/transform/transform_employees.py): the cleaning rules of
    `clean_data`, deduplication by `EmployeeKey`, the optional active-only
    filter, and the order in which `run` applies them.

    `CleanData` rewrites the frame column by column, as the source does;
    `CleanRow` says what the result is row by row, and the lemmas at the
    end of the cleaning section state each rule in terms of the raw row. */
module Transform {
  import opened Wrappers
  import opened Frames
  import opened Text
  import Quality

  /** The parts of pandas this model takes as given: `pd.to_datetime(...,
      errors='coerce')` on one non-null cell (a day number, or None when it
      does not parse), `pd.to_numeric` on one string, and how `str()` renders
      a date. */
  datatype Readers = Readers(
    parseDate: Value -> Option<int>,
    parseNumber: string -> Option<int>,
    formatDay: int -> string)

  const MetadataColumn := "extraction_timestamp"
  const TextColumns := ["FirstName", "LastName", "MiddleName", "Title", "DepartmentName", "EmergencyContactName"]
  const DateColumns := ["HireDate", "BirthDate", "StartDate", "EndDate"]
  const BooleanColumns := ["SalariedFlag", "CurrentFlag", "SalesPersonFlag"]
  const NumericColumns := ["BaseRate", "VacationHours", "SickLeaveHours"]
  const CriticalFields := ["EmailAddress", "Phone", "DepartmentName"]
  const ScoreColumn := "data_quality_score"

  /** The columns `clean_data` indexes unconditionally, in the order it
      does so; a frame without one of them raises a KeyError. */
  const RequiredColumns := ["MiddleName", "Title", "FirstName", "LastName"]

  // ---------------------------------------------------------------------
  // Cell rules

  function FillNa(v: Value, fill: string): Value {
    if v.Null? then Str(fill) else v
  }

  /** `astype(str)` on one cell: a missing value becomes the text "nan". */
  function Stringify(v: Value, formatDay: int -> string): string {
    match v
    case Null => "nan"
    case Str(s) => s
    case Int(i) => IntToString(i)
    case Bool(b) => if b then "True" else "False"
    case Day(d) => formatDay(d)
  }

  function AsString(v: Value): string {
    if v.Str? then v.s else ""
  }

  /** The full name built from trimmed parts; a middle name contributes
      only when it is not empty. */
  function FullName(first: string, middle: string, last: string): string {
    Strip(first + " " + (if middle != "" then middle + " " else "") + last)
  }

  function ToDate(v: Value, parseDate: Value -> Option<int>): (r: Value)
    ensures r.Null? || r.Day?
    ensures v.Null? ==> r.Null?
    ensures v.Day? ==> r == v
  {
    match v
    case Null => Null
    case Day(_) => v
    case _ => if parseDate(v).Some? then Day(parseDate(v).value) else Null
  }

  /** `(today - date).dt.days // 365`: whole years, rounded towards minus
      infinity; a missing date gives a missing result. */
  function YearsSince(v: Value, today: int): (r: Value)
    ensures v.Day? <==> r.Int?
    ensures v.Day? ==> r.i * 365 <= today - v.d < (r.i + 1) * 365
    ensures !v.Day? ==> r.Null?
  {
    if v.Day? then Int((today - v.d) / 365) else Null
  }

  /** Python truthiness, which `astype(bool)` applies to each cell.  A
      missing cell of a frame read from CSV is the float NaN, which is true;
      a date is always true. */
  function Truthy(v: Value): bool {
    match v
    case Null => true
    case Str(s) => s != ""
    case Int(i) => i != 0
    case Bool(b) => b
    case Day(_) => true
  }

  /** `pd.to_numeric(..., errors='coerce').fillna(0)` on one cell. */
  function ToNumber(v: Value, parseNumber: string -> Option<int>): (r: Value)
    ensures !r.Null?
    ensures v.Int? ==> r == v
  {
    match v
    case Null => Int(0)
    case Int(_) => v
    case Str(s) => if parseNumber(s).Some? then Int(parseNumber(s).value) else Int(0)
    case Bool(_) => v
    case Day(_) => Int(0)
  }

  function MapGender(v: Value): (r: Value)
    ensures r == Str("Male") <==> v == Str("M")
    ensures r == Str("Female") <==> v == Str("F")
    ensures r.Null? <==> v != Str("M") && v != Str("F")
  {
    if v == Str("M") then Str("Male") else if v == Str("F") then Str("Female") else Null
  }

  function MapMaritalStatus(v: Value): (r: Value)
    ensures r == Str("Married") <==> v == Str("M")
    ensures r == Str("Single") <==> v == Str("S")
    ensures r.Null? <==> v != Str("M") && v != Str("S")
  {
    if v == Str("M") then Str("Married") else if v == Str("S") then Str("Single") else Null
  }

  /** The element-wise rules that `clean_data` applies to a list of columns. */
  datatype CellRule = TrimText | ParseDate | CoerceFlag | CoerceNumber

  function ApplyRule(rule: CellRule, v: Value, rd: Readers): Value {
    match rule
    case TrimText => Str(Strip(Stringify(v, rd.formatDay)))
    case ParseDate => ToDate(v, rd.parseDate)
    case CoerceFlag => Bool(Truthy(v))
    case CoerceNumber => ToNumber(v, rd.parseNumber)
  }

  // ---------------------------------------------------------------------
  // The cleaning rules, one row at a time

  /** The row after `rule` has been applied to each of `cols` it has. */
  function MapCells(r: Row, cols: seq<string>, rule: CellRule, rd: Readers): (m: Row)
    ensures m.Keys == r.Keys
  {
    map c | c in r :: if c in cols then ApplyRule(rule, r[c], rd) else r[c]
  }

  function FillNameNulls(r: Row): Row {
    r["MiddleName" := FillNa(Get(r, "MiddleName"), "")]["Title" := FillNa(Get(r, "Title"), "Not Specified")]
  }

  function AddFullName(r: Row): Row {
    r["FullName" := Str(FullName(AsString(Get(r, "FirstName")), AsString(Get(r, "MiddleName")),
                                 AsString(Get(r, "LastName"))))]
  }

  function AddYears(r: Row, ageToday: int, serviceToday: int): Row {
    var withAge := if "BirthDate" in r then r["Age" := YearsSince(Get(r, "BirthDate"), ageToday)] else r;
    if "HireDate" in withAge then withAge["YearsOfService" := YearsSince(Get(withAge, "HireDate"), serviceToday)]
    else withAge
  }

  function MapCodes(r: Row): Row {
    var g := if "Gender" in r then r["Gender" := MapGender(r["Gender"])] else r;
    if "MaritalStatus" in g then g["MaritalStatus" := MapMaritalStatus(g["MaritalStatus"])] else g
  }

  predicate IsNullAt(r: Row, c: string) {
    c in r && r[c].Null?
  }

  /** How many of `fields` the row has and holds a missing value in. */
  function NullFieldCount(r: Row, fields: seq<string>): (n: nat)
    ensures n <= |fields|
  {
    if fields == [] then 0
    else NullFieldCount(r, fields[..|fields| - 1]) + if IsNullAt(r, fields[|fields| - 1]) then 1 else 0
  }

  function AddScore(r: Row): Row {
    r[ScoreColumn := Int(100 - 10 * NullFieldCount(r, CriticalFields))]
  }

  /** The first part of `clean_data` (lines 66-86): metadata dropped, name
      fields filled and trimmed, full name added. */
  function NameStage(r: Row, rd: Readers): Row {
    AddFullName(MapCells(FillNameNulls(r - {MetadataColumn}), TextColumns, TrimText, rd))
  }

  /** The second part (lines 89-113): dates parsed, years derived, flags and
      numbers coerced. */
  function ValueStage(r: Row, rd: Readers, ageToday: int, serviceToday: int): Row {
    var dated := MapCells(r, DateColumns, ParseDate, rd);
    var aged := AddYears(dated, ageToday, serviceToday);
    MapCells(MapCells(aged, BooleanColumns, CoerceFlag, rd), NumericColumns, CoerceNumber, rd)
  }

  /** The cleaned row, rule after rule in the order of `clean_data`. */
  function CleanRow(r: Row, rd: Readers, ageToday: int, serviceToday: int): Row {
    AddScore(Unscored(r, rd, ageToday, serviceToday))
  }

  /** The cleaned row before its quality score is added. */
  function Unscored(r: Row, rd: Readers, ageToday: int, serviceToday: int): Row {
    MapCodes(Valued(r, rd, ageToday, serviceToday))
  }

  function Valued(r: Row, rd: Readers, ageToday: int, serviceToday: int): Row {
    ValueStage(NameStage(r, rd), rd, ageToday, serviceToday)
  }

  function NameColumns(cols: seq<string>): seq<string> {
    WithColumnName(RemoveName(cols, MetadataColumn), "FullName")
  }

  function YearColumns(cols: seq<string>): seq<string> {
    var aged := if "BirthDate" in cols then WithColumnName(cols, "Age") else cols;
    if "HireDate" in aged then WithColumnName(aged, "YearsOfService") else aged
  }

  /** The column list after `clean_data`: the metadata column is gone and the
      derived columns are appended (or kept in place if already there). */
  function CleanColumns(cols: seq<string>): seq<string> {
    WithColumnName(YearColumns(NameColumns(cols)), ScoreColumn)
  }

  /** What `clean_data` returns for a frame: a KeyError for a missing name
      column, otherwise the frame of cleaned rows. */
  function CleanFrame(df: Frame, rd: Readers, ageToday: int, serviceToday: int): Result<Frame> {
    match FirstMissing(RemoveName(df.columns, MetadataColumn), RequiredColumns)
    case Some(c) => MissingColumn(c)
    case None =>
      Ok(Frame(CleanColumns(df.columns),
               seq(|df.rows|, i requires 0 <= i < |df.rows| => CleanRow(df.rows[i], rd, ageToday, serviceToday))))
  }

  // ---------------------------------------------------------------------
  // The cleaning rules, column by column

  lemma {:induction false} MapCellsStep(r: Row, cols: seq<string>, k: nat, rule: CellRule, rd: Readers)
    requires Distinct(cols) && k < |cols|
    ensures var before := MapCells(r, cols[..k], rule, rd);
            var c := cols[k];
            MapCells(r, cols[..k + 1], rule, rd) ==
              if c in r then before[c := ApplyRule(rule, Get(before, c), rd)] else before
  {
    var before := MapCells(r, cols[..k], rule, rd);
    var after := MapCells(r, cols[..k + 1], rule, rd);
    var c := cols[k];
    assert forall x :: x in cols[..k + 1] <==> x in cols[..k] || x == c;
    assert c !in cols[..k];
    if c in r {
      assert Get(before, c) == r[c];
      assert after == before[c := ApplyRule(rule, r[c], rd)];
    } else {
      assert after == before;
    }
  }

  /** `for col in cols: if col in df.columns: df[col] = rule(df[col])`. */
  method MapColumns(f: Frame, cols: seq<string>, rule: CellRule, rd: Readers) returns (r: Frame)
    requires WellFormed(f) && Distinct(cols)
    ensures WellFormed(r) && r.columns == f.columns && |r.rows| == |f.rows|
    ensures forall i :: 0 <= i < |f.rows| ==> r.rows[i] == MapCells(f.rows[i], cols, rule, rd)
  {
    r := f;
    for k := 0 to |cols|
      invariant WellFormed(r) && r.columns == f.columns && |r.rows| == |f.rows|
      invariant forall i :: 0 <= i < |f.rows| ==> r.rows[i] == MapCells(f.rows[i], cols[..k], rule, rd)
    {
      var c := cols[k];
      if c in r.columns {
        r := MapColumn(r, c, (v: Value) => ApplyRule(rule, v, rd));
      }
      forall i | 0 <= i < |f.rows|
        ensures r.rows[i] == MapCells(f.rows[i], cols[..k + 1], rule, rd)
      {
        MapCellsStep(f.rows[i], cols, k, rule, rd);
      }
    }
    assert cols[..|cols|] == cols;
  }

  function Decrement(v: Value): Value {
    if v.Int? then Int(v.i - 10) else v
  }

  /** `df.loc[df[field].isnull(), 'data_quality_score'] -= 10`, for one row. */
  function Penalize(row: Row, field: string): Value {
    if IsNull(Get(row, field)) then Decrement(Get(row, ScoreColumn)) else Get(row, ScoreColumn)
  }

  function PartialScore(b: Row, k: nat): Row
    requires k <= |CriticalFields|
  {
    b[ScoreColumn := Int(100 - 10 * NullFieldCount(b, CriticalFields[..k]))]
  }

  lemma ScoreStep(b: Row, k: nat)
    requires k < |CriticalFields|
    ensures var field := CriticalFields[k];
            if field in b then PartialScore(b, k)[ScoreColumn := Penalize(PartialScore(b, k), field)] == PartialScore(b, k + 1)
            else PartialScore(b, k) == PartialScore(b, k + 1)
  {
    assert CriticalFields[..k + 1][..k] == CriticalFields[..k];
    assert CriticalFields[k] != ScoreColumn;
  }

  /** Lines 125-131: the score starts at 100 and loses 10 for each critical
      field that the frame has and that is missing in the row. */
  method ScoreRows(f: Frame) returns (r: Frame)
    requires WellFormed(f)
    ensures WellFormed(r) && r.columns == WithColumnName(f.columns, ScoreColumn) && |r.rows| == |f.rows|
    ensures forall i :: 0 <= i < |f.rows| ==> r.rows[i] == AddScore(f.rows[i])
  {
    r := SetColumn(f, ScoreColumn, (row: Row) => Int(100));
    assert CriticalFields[..0] == [];
    for k := 0 to |CriticalFields|
      invariant WellFormed(r) && r.columns == WithColumnName(f.columns, ScoreColumn) && |r.rows| == |f.rows|
      invariant forall i :: 0 <= i < |f.rows| ==> r.rows[i] == PartialScore(f.rows[i], k)
    {
      var field := CriticalFields[k];
      assert field != ScoreColumn;
      ghost var before := r;
      if field in r.columns {
        r := SetColumn(r, ScoreColumn, (row: Row) => Penalize(row, field));
      }
      forall i | 0 <= i < |f.rows| ensures r.rows[i] == PartialScore(f.rows[i], k + 1) {
        ScoreStep(f.rows[i], k);
        assert field in before.rows[i] <==> field in f.rows[i];
      }
    }
    assert CriticalFields[..|CriticalFields|] == CriticalFields;
  }

  lemma DropAbsent(r: Row, c: string)
    requires c !in r
    ensures r - {c} == r
  {
  }

  /** Lines 66-71: the metadata column is dropped and the name fields filled. */
  method FillNames(df: Frame) returns (r: Result<Frame>)
    requires WellFormed(df)
    ensures var cols := RemoveName(df.columns, MetadataColumn);
            if "MiddleName" !in cols then r == MissingColumn("MiddleName")
            else if "Title" !in cols then r == MissingColumn("Title")
            else r.Ok? && WellFormed(r.value) && r.value.columns == cols && |r.value.rows| == |df.rows|
                 && forall i :: 0 <= i < |df.rows| ==> r.value.rows[i] == FillNameNulls(df.rows[i] - {MetadataColumn})
  {
    var clean := df;
    if MetadataColumn in clean.columns {
      clean := DropColumn(clean, MetadataColumn);
    } else {
      forall i | 0 <= i < |df.rows| ensures df.rows[i] - {MetadataColumn} == df.rows[i] {
        DropAbsent(df.rows[i], MetadataColumn);
      }
    }
    ghost var dropped := clean;
    assert clean.columns == RemoveName(df.columns, MetadataColumn);
    assert forall i :: 0 <= i < |df.rows| ==> clean.rows[i] == df.rows[i] - {MetadataColumn};
    if "MiddleName" !in clean.columns { return MissingColumn("MiddleName"); }
    clean := MapColumn(clean, "MiddleName", (v: Value) => FillNa(v, ""));
    if "Title" !in clean.columns { return MissingColumn("Title"); }
    clean := MapColumn(clean, "Title", (v: Value) => FillNa(v, "Not Specified"));
    r := Ok(clean);
  }

  /** Lines 74-86: text columns trimmed, full name added. */
  method NameRows(f: Frame, rd: Readers) returns (r: Result<Frame>)
    requires WellFormed(f)
    ensures if "FirstName" !in f.columns then r == MissingColumn("FirstName")
            else if "LastName" !in f.columns then r == MissingColumn("LastName")
            else r.Ok? && WellFormed(r.value) && r.value.columns == WithColumnName(f.columns, "FullName")
                 && |r.value.rows| == |f.rows|
                 && forall i :: 0 <= i < |f.rows| ==>
                      r.value.rows[i] == AddFullName(MapCells(f.rows[i], TextColumns, TrimText, rd))
  {
    var clean := MapColumns(f, TextColumns, TrimText, rd);
    if "FirstName" !in clean.columns { return MissingColumn("FirstName"); }
    if "LastName" !in clean.columns { return MissingColumn("LastName"); }
    clean := SetColumn(clean, "FullName", (row: Row) =>
      Str(FullName(AsString(Get(row, "FirstName")), AsString(Get(row, "MiddleName")), AsString(Get(row, "LastName")))));
    r := Ok(clean);
  }

  lemma RequiredOrder(cols: seq<string>)
    ensures FirstMissing(cols, RequiredColumns) ==
      if "MiddleName" !in cols then Some("MiddleName")
      else if "Title" !in cols then Some("Title")
      else if "FirstName" !in cols then Some("FirstName")
      else if "LastName" !in cols then Some("LastName")
      else None
  {
    var last: seq<string> := ["LastName"];
    assert last[1..] == [];
    assert FirstMissing(cols, last) == if "LastName" !in cols then Some("LastName") else None;
    var names: seq<string> := ["FirstName"] + last;
    assert names[1..] == last;
    var title: seq<string> := ["Title"] + names;
    assert title[1..] == names;
    assert RequiredColumns == ["MiddleName"] + title;
    assert RequiredColumns[1..] == title;
    assert FirstMissing(cols, names) == if "FirstName" !in cols then Some("FirstName") else FirstMissing(cols, last);
    assert FirstMissing(cols, title) == if "Title" !in cols then Some("Title") else FirstMissing(cols, names);
    assert FirstMissing(cols, RequiredColumns) ==
      if "MiddleName" !in cols then Some("MiddleName") else FirstMissing(cols, title);
  }

  /** Lines 66-86. */
  method CleanNames(df: Frame, rd: Readers) returns (r: Result<Frame>)
    requires WellFormed(df)
    ensures var missing := FirstMissing(RemoveName(df.columns, MetadataColumn), RequiredColumns);
            if missing.Some? then r == MissingColumn(missing.value)
            else r.Ok? && WellFormed(r.value) && r.value.columns == NameColumns(df.columns)
                 && |r.value.rows| == |df.rows|
                 && forall i :: 0 <= i < |df.rows| ==> r.value.rows[i] == NameStage(df.rows[i], rd)
  {
    RequiredOrder(RemoveName(df.columns, MetadataColumn));
    var filled := FillNames(df);
    if filled.MissingColumn? { return filled; }
    r := NameRows(filled.value, rd);
  }

  /** Lines 89-113. */
  method CleanValues(f: Frame, rd: Readers, ageToday: int, serviceToday: int) returns (r: Frame)
    requires WellFormed(f)
    ensures WellFormed(r) && r.columns == YearColumns(f.columns) && |r.rows| == |f.rows|
    ensures forall i :: 0 <= i < |f.rows| ==> r.rows[i] == ValueStage(f.rows[i], rd, ageToday, serviceToday)
  {
    var dated := MapColumns(f, DateColumns, ParseDate, rd);
    var aged := AddYearColumns(dated, ageToday, serviceToday);
    var flagged := MapColumns(aged, BooleanColumns, CoerceFlag, rd);
    r := MapColumns(flagged, NumericColumns, CoerceNumber, rd);
  }

  /** Lines 95-101. */
  method AddYearColumns(f: Frame, ageToday: int, serviceToday: int) returns (r: Frame)
    requires WellFormed(f)
    ensures WellFormed(r) && r.columns == YearColumns(f.columns) && |r.rows| == |f.rows|
    ensures forall i :: 0 <= i < |f.rows| ==> r.rows[i] == AddYears(f.rows[i], ageToday, serviceToday)
  {
    r := f;
    if "BirthDate" in r.columns {
      r := SetColumn(r, "Age", (row: Row) => YearsSince(Get(row, "BirthDate"), ageToday));
    }
    if "HireDate" in r.columns {
      r := SetColumn(r, "YearsOfService", (row: Row) => YearsSince(Get(row, "HireDate"), serviceToday));
    }
  }

  /** Lines 116-122. */
  method CodeCategories(f: Frame) returns (r: Frame)
    requires WellFormed(f)
    ensures WellFormed(r) && r.columns == f.columns && |r.rows| == |f.rows|
    ensures forall i :: 0 <= i < |f.rows| ==> r.rows[i] == MapCodes(f.rows[i])
  {
    r := f;
    if "Gender" in r.columns {
      r := MapColumn(r, "Gender", MapGender);
    }
    if "MaritalStatus" in r.columns {
      r := MapColumn(r, "MaritalStatus", MapMaritalStatus);
    }
  }

  /** `clean_data`: the frame is rewritten step by step, as in the source;
      the result is the frame of `CleanRow`s. */
  method CleanData(df: Frame, rd: Readers, ageToday: int, serviceToday: int) returns (r: Result<Frame>)
    requires WellFormed(df)
    ensures r == CleanFrame(df, rd, ageToday, serviceToday)
    ensures r.Ok? ==> WellFormed(r.value)
  {
    var named := CleanNames(df, rd);
    if named.MissingColumn? {
      return named;
    }
    var valued := CleanValues(named.value, rd, ageToday, serviceToday);
    var coded := CodeCategories(valued);
    var scored := ScoreRows(coded);
    ghost var spec := seq(|df.rows|, i requires 0 <= i < |df.rows| => CleanRow(df.rows[i], rd, ageToday, serviceToday));
    assert |scored.rows| == |spec|;
    forall i | 0 <= i < |df.rows| ensures scored.rows[i] == spec[i] {
    }
    assert scored.rows == spec;
    r := Ok(scored);
  }

  // ---------------------------------------------------------------------
  // What cleaning does to each column, in terms of the raw row

  /** The text-column rule: `astype(str)` and then `str.strip()`. */
  function TrimmedText(v: Value, rd: Readers): string {
    Strip(Stringify(v, rd.formatDay))
  }

  /** A column that no cleaning rule reads or writes. */
  predicate Untouched(c: string) {
    && c != MetadataColumn && c != "FullName" && c != "MiddleName" && c != "Title"
    && c != "Age" && c != "YearsOfService" && c != "Gender" && c != "MaritalStatus" && c != ScoreColumn
    && c !in TextColumns && c !in DateColumns && c !in BooleanColumns && c !in NumericColumns
  }

  // Facts about the column names the rules refer to, proved once each.

  lemma KeyName()
    ensures Untouched(KeyColumn)
  {
  }

  lemma ContactNames()
    ensures Untouched("EmailAddress") && Untouched("Phone")
  {
  }

  lemma DepartmentNames()
    ensures var c := "DepartmentName";
            && c in TextColumns && c != MetadataColumn && c != "FullName" && c != "MiddleName" && c != "Title"
            && c != "Age" && c != "YearsOfService" && c != "Gender" && c != "MaritalStatus" && c != ScoreColumn
            && c !in DateColumns && c !in BooleanColumns && c !in NumericColumns
  {
  }

  lemma DerivedNames()
    ensures forall c :: c in ["FullName", "Age", "YearsOfService"] ==>
              && c != "Gender" && c != "MaritalStatus" && c != ScoreColumn
              && c !in DateColumns && c !in BooleanColumns && c !in NumericColumns
    ensures "FullName" != "Age" && "FullName" != "YearsOfService"
  {
  }

  lemma CodeNames()
    ensures forall c :: c in ["Gender", "MaritalStatus"] ==>
              && c != MetadataColumn && c != "FullName" && c != "MiddleName" && c != "Title" && c !in TextColumns
              && c != "Age" && c != "YearsOfService" && c != ScoreColumn
              && c !in DateColumns && c !in BooleanColumns && c !in NumericColumns
  {
  }

  lemma DateNames()
    ensures forall c :: c in ["BirthDate", "HireDate"] ==>
              && c in DateColumns && c != MetadataColumn && c != "FullName" && c != "MiddleName" && c != "Title"
              && c !in TextColumns
  {
  }

  lemma FlagNames(c: string)
    requires c in BooleanColumns
    ensures && c != MetadataColumn && c != "FullName" && c != "MiddleName" && c != "Title" && c !in TextColumns
            && c != "Age" && c != "YearsOfService" && c !in DateColumns
            && c != "Gender" && c != "MaritalStatus" && c != ScoreColumn
  {
  }

  lemma NumberNames(c: string)
    requires c in NumericColumns
    ensures && c != MetadataColumn && c != "FullName" && c != "MiddleName" && c != "Title" && c !in TextColumns
            && c != "Age" && c != "YearsOfService" && c !in DateColumns && c !in BooleanColumns
            && c != "Gender" && c != "MaritalStatus" && c != ScoreColumn
  {
  }

  // One rule stage at a time, over an arbitrary row.

  lemma NameStageAt(r: Row, rd: Readers, c: string)
    requires c != MetadataColumn && c != "FullName" && c != "MiddleName" && c != "Title"
    ensures var n := NameStage(r, rd);
            && (c in n <==> c in r)
            && (c in r ==> n[c] == if c in TextColumns then Str(TrimmedText(r[c], rd)) else r[c])
  {
    var d := r - {MetadataColumn};
    var f := FillNameNulls(d);
    var t := MapCells(f, TextColumns, TrimText, rd);
    assert c in t <==> c in r;
    if c in r {
      assert d[c] == r[c];
      assert f[c] == r[c];
      assert t[c] == if c in TextColumns then Str(TrimmedText(r[c], rd)) else r[c];
      assert AddFullName(t)[c] == t[c];
    }
  }

  lemma NameStageFullName(r: Row, rd: Readers)
    requires "FirstName" in r && "MiddleName" in r && "LastName" in r
    ensures var n := NameStage(r, rd);
            && "FullName" in n
            && n["FullName"] == Str(FullName(TrimmedText(r["FirstName"], rd), TrimmedText(FillNa(r["MiddleName"], ""), rd),
                                             TrimmedText(r["LastName"], rd)))
  {
    var d := r - {MetadataColumn};
    assert d["FirstName"] == r["FirstName"] && d["LastName"] == r["LastName"];
    var f := FillNameNulls(d);
    assert f["FirstName"] == r["FirstName"] && f["LastName"] == r["LastName"];
    assert f["MiddleName"] == FillNa(r["MiddleName"], "");
    var t := MapCells(f, TextColumns, TrimText, rd);
    assert t["FirstName"] == Str(TrimmedText(r["FirstName"], rd));
    assert t["MiddleName"] == Str(TrimmedText(FillNa(r["MiddleName"], ""), rd));
    assert t["LastName"] == Str(TrimmedText(r["LastName"], rd));
  }

  lemma ValueStageKeeps(r: Row, rd: Readers, ageToday: int, serviceToday: int, c: string)
    requires c != "Age" && c != "YearsOfService"
    requires c !in DateColumns && c !in BooleanColumns && c !in NumericColumns
    ensures var v := ValueStage(r, rd, ageToday, serviceToday);
            (c in v <==> c in r) && (c in r ==> v[c] == r[c])
  {
    var dated := MapCells(r, DateColumns, ParseDate, rd);
    var aged := AddYears(dated, ageToday, serviceToday);
    assert c in aged <==> c in r;
    if c in r {
      assert dated[c] == r[c];
      assert aged[c] == r[c];
      var flagged := MapCells(aged, BooleanColumns, CoerceFlag, rd);
      assert flagged[c] == r[c];
    }
  }

  lemma ValueStageYears(r: Row, rd: Readers, ageToday: int, serviceToday: int)
    ensures var v := ValueStage(r, rd, ageToday, serviceToday);
            "BirthDate" in r ==> "Age" in v && v["Age"] == YearsSince(ToDate(r["BirthDate"], rd.parseDate), ageToday)
    ensures var v := ValueStage(r, rd, ageToday, serviceToday);
            "HireDate" in r ==>
              "YearsOfService" in v && v["YearsOfService"] == YearsSince(ToDate(r["HireDate"], rd.parseDate), serviceToday)
  {
    var dated := MapCells(r, DateColumns, ParseDate, rd);
    assert "BirthDate" in r ==> dated["BirthDate"] == ToDate(r["BirthDate"], rd.parseDate);
    assert "HireDate" in r ==> dated["HireDate"] == ToDate(r["HireDate"], rd.parseDate);
    var aged := AddYears(dated, ageToday, serviceToday);
    var flagged := MapCells(aged, BooleanColumns, CoerceFlag, rd);
    assert "BirthDate" in r ==> flagged["Age"] == aged["Age"];
    assert "HireDate" in r ==> flagged["YearsOfService"] == aged["YearsOfService"];
  }

  lemma ValueStageFlag(r: Row, rd: Readers, ageToday: int, serviceToday: int, c: string)
    requires c in BooleanColumns && c in r && c !in DateColumns && c != "Age" && c != "YearsOfService"
    ensures var v := ValueStage(r, rd, ageToday, serviceToday); c in v && v[c] == Bool(Truthy(r[c]))
  {
    var dated := MapCells(r, DateColumns, ParseDate, rd);
    assert dated[c] == r[c];
    var aged := AddYears(dated, ageToday, serviceToday);
    assert aged[c] == r[c];
  }

  lemma ValueStageNumber(r: Row, rd: Readers, ageToday: int, serviceToday: int, c: string)
    requires c in NumericColumns && c in r && c !in DateColumns && c !in BooleanColumns
    requires c != "Age" && c != "YearsOfService"
    ensures var v := ValueStage(r, rd, ageToday, serviceToday); c in v && v[c] == ToNumber(r[c], rd.parseNumber)
  {
    var dated := MapCells(r, DateColumns, ParseDate, rd);
    assert dated[c] == r[c];
    var aged := AddYears(dated, ageToday, serviceToday);
    assert aged[c] == r[c];
    var flagged := MapCells(aged, BooleanColumns, CoerceFlag, rd);
    assert flagged[c] == r[c];
  }

  lemma MapCodesKeeps(r: Row, c: string)
    requires c != "Gender" && c != "MaritalStatus"
    ensures (c in MapCodes(r) <==> c in r) && (c in r ==> MapCodes(r)[c] == r[c])
  {
  }

  lemma MapCodesCodes(r: Row)
    ensures "Gender" in r ==> "Gender" in MapCodes(r) && MapCodes(r)["Gender"] == MapGender(r["Gender"])
    ensures "MaritalStatus" in r ==>
              "MaritalStatus" in MapCodes(r) && MapCodes(r)["MaritalStatus"] == MapMaritalStatus(r["MaritalStatus"])
  {
  }

  lemma AddScoreKeeps(r: Row, c: string)
    requires c != ScoreColumn
    ensures (c in AddScore(r) <==> c in r) && (c in r ==> AddScore(r)[c] == r[c])
  {
  }

  lemma ScoreFrom(u: Row, r: Row)
    requires IsNullAt(u, "EmailAddress") == IsNullAt(r, "EmailAddress")
    requires IsNullAt(u, "Phone") == IsNullAt(r, "Phone")
    requires !IsNullAt(u, "DepartmentName")
    ensures ScoreColumn in AddScore(u)
    ensures AddScore(u)[ScoreColumn] == Int(100 - 10 * NullFieldCount(r, ["EmailAddress", "Phone"]))
    ensures AddScore(u)[ScoreColumn] in {Int(80), Int(90), Int(100)}
  {
    NullFieldCountOfCritical(u);
    NullFieldCountOfCritical(r);
  }

  lemma NullFieldCountOfCritical(r: Row)
    ensures NullFieldCount(r, CriticalFields) ==
      (if IsNullAt(r, "EmailAddress") then 1 else 0) + (if IsNullAt(r, "Phone") then 1 else 0)
      + (if IsNullAt(r, "DepartmentName") then 1 else 0)
    ensures NullFieldCount(r, ["EmailAddress", "Phone"]) ==
      (if IsNullAt(r, "EmailAddress") then 1 else 0) + (if IsNullAt(r, "Phone") then 1 else 0)
  {
    var one: seq<string> := ["EmailAddress"];
    var two: seq<string> := ["EmailAddress", "Phone"];
    assert one[..0] == [];
    assert NullFieldCount(r, one) == if IsNullAt(r, "EmailAddress") then 1 else 0;
    assert two[..1] == one;
    assert NullFieldCount(r, two) == NullFieldCount(r, one) + if IsNullAt(r, "Phone") then 1 else 0;
    assert CriticalFields[..2] == two;
  }

  // The whole of cleaning, column by column.

  /** Code columns and the score aside, a column of the cleaned row is the
      column after the value rules. */
  lemma PassThrough(r: Row, rd: Readers, ageToday: int, serviceToday: int, c: string)
    requires c in Valued(r, rd, ageToday, serviceToday) && c != "Gender" && c != "MaritalStatus" && c != ScoreColumn
    ensures var out := CleanRow(r, rd, ageToday, serviceToday);
            c in out && out[c] == Valued(r, rd, ageToday, serviceToday)[c]
  {
    MapCodesKeeps(Valued(r, rd, ageToday, serviceToday), c);
    AddScoreKeeps(Unscored(r, rd, ageToday, serviceToday), c);
  }

  lemma ValuedKeeps(r: Row, rd: Readers, ageToday: int, serviceToday: int, c: string)
    requires Untouched(c)
    ensures var v := Valued(r, rd, ageToday, serviceToday);
            (c in v <==> c in r) && (c in r ==> v[c] == r[c])
  {
    NameStageAt(r, rd, c);
    ValueStageKeeps(NameStage(r, rd), rd, ageToday, serviceToday, c);
  }

  lemma UnscoredKeeps(r: Row, rd: Readers, ageToday: int, serviceToday: int, c: string)
    requires Untouched(c)
    ensures var u := Unscored(r, rd, ageToday, serviceToday);
            (c in u <==> c in r) && (c in r ==> u[c] == r[c])
  {
    ValuedKeeps(r, rd, ageToday, serviceToday, c);
    MapCodesKeeps(Valued(r, rd, ageToday, serviceToday), c);
  }

  /** Cleaning leaves every other column as it was (the employee key among them). */
  lemma CleanRowKeepsOthers(r: Row, rd: Readers, ageToday: int, serviceToday: int, c: string)
    requires Untouched(c)
    ensures var out := CleanRow(r, rd, ageToday, serviceToday);
            (c in out <==> c in r) && (c in r ==> out[c] == r[c])
  {
    UnscoredKeeps(r, rd, ageToday, serviceToday, c);
    AddScoreKeeps(Unscored(r, rd, ageToday, serviceToday), c);
  }

  lemma UnscoredDepartment(r: Row, rd: Readers, ageToday: int, serviceToday: int)
    ensures var u := Unscored(r, rd, ageToday, serviceToday);
            && ("DepartmentName" in u <==> "DepartmentName" in r)
            && ("DepartmentName" in r ==> u["DepartmentName"] == Str(TrimmedText(r["DepartmentName"], rd)))
  {
    DepartmentNames();
    NameStageAt(r, rd, "DepartmentName");
    ValueStageKeeps(NameStage(r, rd), rd, ageToday, serviceToday, "DepartmentName");
    MapCodesKeeps(Valued(r, rd, ageToday, serviceToday), "DepartmentName");
  }

  /** A missing department name becomes the text "nan" (it is stringified
      before it is trimmed), so it is never missing after cleaning. */
  lemma CleanRowDepartment(r: Row, rd: Readers, ageToday: int, serviceToday: int)
    requires "DepartmentName" in r
    ensures var out := CleanRow(r, rd, ageToday, serviceToday);
            "DepartmentName" in out && out["DepartmentName"] == Str(TrimmedText(r["DepartmentName"], rd))
    ensures r["DepartmentName"].Null? ==> CleanRow(r, rd, ageToday, serviceToday)["DepartmentName"] == Str("nan")
  {
    DepartmentNames();
    UnscoredDepartment(r, rd, ageToday, serviceToday);
    AddScoreKeeps(Unscored(r, rd, ageToday, serviceToday), "DepartmentName");
    StripFixesStripped("nan");
  }

  /** Lines 125-131: the score is 100 less 10 for each of the e-mail address
      and the phone that is missing; a department name is never missing by
      then.  So it is one of 80, 90 and 100. */
  lemma CleanRowScore(r: Row, rd: Readers, ageToday: int, serviceToday: int)
    ensures var out := CleanRow(r, rd, ageToday, serviceToday);
            ScoreColumn in out && out[ScoreColumn] == Int(100 - 10 * NullFieldCount(r, ["EmailAddress", "Phone"]))
    ensures CleanRow(r, rd, ageToday, serviceToday)[ScoreColumn] in {Int(80), Int(90), Int(100)}
  {
    ContactNames();
    UnscoredKeeps(r, rd, ageToday, serviceToday, "EmailAddress");
    UnscoredKeeps(r, rd, ageToday, serviceToday, "Phone");
    UnscoredDepartment(r, rd, ageToday, serviceToday);
    ScoreFrom(Unscored(r, rd, ageToday, serviceToday), r);
  }

  /** Lines 82-86: the full name joins the trimmed first, middle and last
      names with single spaces, leaving the middle name out when it is
      missing or blank. */
  lemma CleanRowFullName(r: Row, rd: Readers, ageToday: int, serviceToday: int)
    requires "FirstName" in r && "MiddleName" in r && "LastName" in r
    ensures var out := CleanRow(r, rd, ageToday, serviceToday);
            && "FullName" in out
            && out["FullName"] == Str(FullName(TrimmedText(r["FirstName"], rd),
                                               TrimmedText(FillNa(r["MiddleName"], ""), rd),
                                               TrimmedText(r["LastName"], rd)))
    ensures r["MiddleName"].Null? ==>
            CleanRow(r, rd, ageToday, serviceToday)["FullName"] ==
              Str(Strip(TrimmedText(r["FirstName"], rd) + " " + TrimmedText(r["LastName"], rd)))
  {
    DerivedNames();
    NameStageFullName(r, rd);
    ValueStageKeeps(NameStage(r, rd), rd, ageToday, serviceToday, "FullName");
    PassThrough(r, rd, ageToday, serviceToday, "FullName");
    if r["MiddleName"].Null? {
      FullNameWithoutMiddle(TrimmedText(r["FirstName"], rd), TrimmedText(r["LastName"], rd), rd);
    }
  }

  lemma FullNameWithoutMiddle(first: string, last: string, rd: Readers)
    ensures FullName(first, TrimmedText(FillNa(Null, ""), rd), last) == Strip(first + " " + last)
  {
    StripFixesStripped("");
    assert TrimmedText(FillNa(Null, ""), rd) == "";
    assert first + " " + "" + last == first + " " + last;
  }

  /** With non-empty trimmed first and last names the full name is exactly
      the parts joined by single spaces: no space doubles up, none leads or
      trails. */
  lemma FullNameJoins(first: string, middle: string, last: string)
    requires IsStripped(first) && IsStripped(middle) && IsStripped(last)
    requires first != "" && last != ""
    ensures FullName(first, middle, last) ==
            first + " " + (if middle != "" then middle + " " else "") + last
  {
    var joined := first + " " + (if middle != "" then middle + " " else "") + last;
    assert joined[0] == first[0];
    assert joined[|joined| - 1] == last[|last| - 1];
    StripFixesStripped(joined);
  }

  /** Lines 95-101: age and years of service are whole years elapsed since
      the parsed birth and hire dates, each measured against its own reading
      of the clock. */
  lemma CleanRowYears(r: Row, rd: Readers, ageToday: int, serviceToday: int)
    ensures var out := CleanRow(r, rd, ageToday, serviceToday);
            "BirthDate" in r ==>
              "Age" in out && out["Age"] == YearsSince(ToDate(r["BirthDate"], rd.parseDate), ageToday)
    ensures var out := CleanRow(r, rd, ageToday, serviceToday);
            "HireDate" in r ==>
              "YearsOfService" in out &&
              out["YearsOfService"] == YearsSince(ToDate(r["HireDate"], rd.parseDate), serviceToday)
  {
    DateNames();
    DerivedNames();
    NameStageAt(r, rd, "BirthDate");
    NameStageAt(r, rd, "HireDate");
    ValueStageYears(NameStage(r, rd), rd, ageToday, serviceToday);
    if "BirthDate" in r {
      PassThrough(r, rd, ageToday, serviceToday, "Age");
    }
    if "HireDate" in r {
      PassThrough(r, rd, ageToday, serviceToday, "YearsOfService");
    }
  }

  /** Lines 104-107: every flag becomes its Python truth value, so a missing
      flag and the text "False" both become true. */
  lemma CleanRowFlags(r: Row, rd: Readers, ageToday: int, serviceToday: int, c: string)
    requires c in BooleanColumns && c in r
    ensures var out := CleanRow(r, rd, ageToday, serviceToday); c in out && out[c] == Bool(Truthy(r[c]))
  {
    FlagNames(c);
    NameStageAt(r, rd, c);
    ValueStageFlag(NameStage(r, rd), rd, ageToday, serviceToday, c);
    PassThrough(r, rd, ageToday, serviceToday, c);
  }

  lemma TruthyQuirks()
    ensures Truthy(Null) && Truthy(Str("False")) && Truthy(Str("0"))
    ensures !Truthy(Str("")) && !Truthy(Int(0)) && Truthy(Int(-1))
  {
  }

  /** Lines 110-113: every numeric column holds a number afterwards; what
      does not parse becomes 0. */
  lemma CleanRowNumbers(r: Row, rd: Readers, ageToday: int, serviceToday: int, c: string)
    requires c in NumericColumns && c in r
    ensures var out := CleanRow(r, rd, ageToday, serviceToday);
            c in out && out[c] == ToNumber(r[c], rd.parseNumber) && !out[c].Null?
  {
    NumberNames(c);
    NameStageAt(r, rd, c);
    ValueStageNumber(NameStage(r, rd), rd, ageToday, serviceToday, c);
    PassThrough(r, rd, ageToday, serviceToday, c);
  }

  /** Lines 116-122: the one-letter codes are spelled out; any other code
      becomes missing. */
  lemma CleanRowCodes(r: Row, rd: Readers, ageToday: int, serviceToday: int)
    ensures var out := CleanRow(r, rd, ageToday, serviceToday);
            "Gender" in r ==> "Gender" in out && out["Gender"] == MapGender(r["Gender"])
    ensures var out := CleanRow(r, rd, ageToday, serviceToday);
            "MaritalStatus" in r ==> "MaritalStatus" in out && out["MaritalStatus"] == MapMaritalStatus(r["MaritalStatus"])
  {
    CodeNames();
    NameStageAt(r, rd, "Gender");
    NameStageAt(r, rd, "MaritalStatus");
    ValueStageKeeps(NameStage(r, rd), rd, ageToday, serviceToday, "Gender");
    ValueStageKeeps(NameStage(r, rd), rd, ageToday, serviceToday, "MaritalStatus");
    MapCodesCodes(Valued(r, rd, ageToday, serviceToday));
    AddScoreKeeps(Unscored(r, rd, ageToday, serviceToday), "Gender");
    AddScoreKeeps(Unscored(r, rd, ageToday, serviceToday), "MaritalStatus");
  }

  // ---------------------------------------------------------------------
  // Deduplication (lines 147-159) and the active-only filter (lines 171-177)

  const KeyColumn := "EmployeeKey"

  /** The employee key of a row; pandas treats two missing keys as equal. */
  function Key(r: Row): Value {
    Get(r, KeyColumn)
  }

  function KeysOf(rows: seq<Row>): set<Value> {
    set r | r in rows :: Key(r)
  }

  predicate UniqueKeys(rows: seq<Row>) {
    forall i, j :: 0 <= i < j < |rows| ==> Key(rows[i]) != Key(rows[j])
  }

  lemma KeysOfCons(rows: seq<Row>)
    requires rows != []
    ensures KeysOf(rows) == {Key(rows[0])} + KeysOf(rows[1..])
  {
    assert forall x :: x in rows <==> x == rows[0] || x in rows[1..];
  }

  /** The position of the last row with key `k`, or -1 if there is none. */
  function LastIndex(rows: seq<Row>, k: Value): (i: int)
    ensures -1 <= i < |rows|
    ensures i == -1 <==> k !in KeysOf(rows)
    ensures i >= 0 ==> Key(rows[i]) == k && forall j :: i < j < |rows| ==> Key(rows[j]) != k
  {
    if rows == [] then -1
    else
      KeysOfCons(rows);
      if k in KeysOf(rows[1..]) then
        var t := LastIndex(rows[1..], k);
        assert forall j :: 1 + t < j < |rows| ==> rows[j] == rows[1..][j - 1];
        1 + t
      else if Key(rows[0]) == k then
        assert forall j :: 0 < j < |rows| ==> rows[j] in rows[1..];
        0
      else -1
  }

  /** `drop_duplicates(subset=['EmployeeKey'], keep='last')`: a row survives
      when no later row has its key; survivors keep their order. */
  function KeepLast(rows: seq<Row>): (out: seq<Row>)
    ensures KeysOf(out) == KeysOf(rows)
    ensures UniqueKeys(out)
    ensures |out| <= |rows|
    ensures forall x :: x in out ==> x in rows
  {
    if rows == [] then []
    else
      var rest := KeepLast(rows[1..]);
      KeysOfCons(rows);
      if Key(rows[0]) in KeysOf(rows[1..]) then rest
      else
        var out := [rows[0]] + rest;
        KeysOfCons(out);
        assert out[1..] == rest;
        assert forall j :: 0 <= j < |rest| ==> rest[j] in rest;
        out
  }

  /** Where the last row with a key sits, in terms of the rows after the first. */
  lemma LastIndexCons(rows: seq<Row>, k: Value)
    requires rows != []
    ensures k in KeysOf(rows[1..]) ==> LastIndex(rows, k) == 1 + LastIndex(rows[1..], k)
    ensures k !in KeysOf(rows[1..]) && k == Key(rows[0]) ==> LastIndex(rows, k) == 0
  {
  }

  lemma RestKeys(rest: seq<Row>, t: nat)
    requires t < |rest|
    ensures Key(rest[t]) in KeysOf(rest)
  {
    assert rest[t] in rest;
  }

  /** Every row of `out` is the last row of `rows` with its key. */
  predicate AreLastRows(rows: seq<Row>, out: seq<Row>)
    requires KeysOf(out) <= KeysOf(rows)
  {
    forall t :: 0 <= t < |out| ==> out[t] == rows[LastIndex(rows, Key(out[t]))]
  }

  /** The rows of `out` come in the order of their last positions in `rows`. */
  predicate InLastOrder(rows: seq<Row>, out: seq<Row>) {
    forall t, u :: 0 <= t < u < |out| ==> LastIndex(rows, Key(out[t])) < LastIndex(rows, Key(out[u]))
  }

  /** Each surviving row is the last row with its key. */
  lemma {:induction false} KeepLastPicksLast(rows: seq<Row>)
    ensures AreLastRows(rows, KeepLast(rows))
  {
    if rows != [] {
      KeepLastPicksLast(rows[1..]);
      KeysOfCons(rows);
      var out := KeepLast(rows);
      var rest := KeepLast(rows[1..]);
      var skip := Key(rows[0]) in KeysOf(rows[1..]);
      forall t | 0 <= t < |out| ensures out[t] == rows[LastIndex(rows, Key(out[t]))] {
        if skip || t > 0 {
          var u := if skip then t else t - 1;
          assert out[t] == rest[u];
          RestKeys(rest, u);
          var k := Key(rest[u]);
          assert k in KeysOf(rows[1..]);
          LastIndexCons(rows, k);
          var j := LastIndex(rows[1..], k);
          assert 0 <= j;
          assert rest[u] == rows[1..][j];
          assert LastIndex(rows, k) == 1 + j;
          assert rows[1 + j] == rows[1..][j];
        } else {
          LastIndexCons(rows, Key(rows[0]));
        }
      }
    }
  }

  /** When the first row is dropped, the survivors are those of the rest. */
  lemma SurvivorSkipped(rows: seq<Row>, t: nat)
    requires rows != [] && Key(rows[0]) in KeysOf(rows[1..]) && t < |KeepLast(rows)|
    ensures t < |KeepLast(rows[1..])| && KeepLast(rows)[t] == KeepLast(rows[1..])[t]
  {
    KeepLastCons(rows);
  }

  /** When the first row survives, the others are shifted by one. */
  lemma SurvivorKept(rows: seq<Row>, t: nat)
    requires rows != [] && Key(rows[0]) !in KeysOf(rows[1..]) && 0 < t < |KeepLast(rows)|
    ensures t - 1 < |KeepLast(rows[1..])| && KeepLast(rows)[t] == KeepLast(rows[1..])[t - 1]
  {
    KeepLastCons(rows);
    var rest := KeepLast(rows[1..]);
    assert ([rows[0]] + rest)[t] == rest[t - 1];
  }

  lemma KeepLastCons(rows: seq<Row>)
    requires rows != []
    ensures KeepLast(rows) ==
            if Key(rows[0]) in KeysOf(rows[1..]) then KeepLast(rows[1..]) else [rows[0]] + KeepLast(rows[1..])
  {
  }

  /** The last position of a survivor of the rows after the first. */
  lemma RestLastIndex(rows: seq<Row>, u: nat)
    requires rows != [] && u < |KeepLast(rows[1..])|
    ensures var k := Key(KeepLast(rows[1..])[u]);
            LastIndex(rows[1..], k) >= 0 && LastIndex(rows, k) == 1 + LastIndex(rows[1..], k)
  {
    var rest := KeepLast(rows[1..]);
    RestKeys(rest, u);
    LastIndexCons(rows, Key(rest[u]));
  }

  /** The first row survives exactly when no later row has its key, and then
      it comes first. */
  lemma SurvivorHead(rows: seq<Row>)
    requires rows != [] && Key(rows[0]) !in KeysOf(rows[1..])
    ensures KeepLast(rows)[0] == rows[0] && LastIndex(rows, Key(rows[0])) == 0
  {
    LastIndexCons(rows, Key(rows[0]));
  }

  /** Survivors appear in the order of their last occurrences. */
  lemma {:induction false} KeepLastOrder(rows: seq<Row>)
    ensures InLastOrder(rows, KeepLast(rows))
  {
    if rows != [] {
      KeepLastOrder(rows[1..]);
      var out := KeepLast(rows);
      var rest := KeepLast(rows[1..]);
      var skip := Key(rows[0]) in KeysOf(rows[1..]);
      forall t, u | 0 <= t < u < |out|
        ensures LastIndex(rows, Key(out[t])) < LastIndex(rows, Key(out[u]))
      {
        if skip {
          SurvivorSkipped(rows, t);
          SurvivorSkipped(rows, u);
          RestLastIndex(rows, t);
          RestLastIndex(rows, u);
        } else {
          SurvivorKept(rows, u);
          RestLastIndex(rows, u - 1);
          if t == 0 {
            SurvivorHead(rows);
          } else {
            SurvivorKept(rows, t);
            RestLastIndex(rows, t - 1);
          }
        }
      }
    }
  }

  /** Rows whose keys are already unique are left alone. */
  lemma {:induction false} KeepLastOfUnique(rows: seq<Row>)
    requires UniqueKeys(rows)
    ensures KeepLast(rows) == rows
  {
    if rows != [] {
      assert UniqueKeys(rows[1..]);
      KeepLastOfUnique(rows[1..]);
      KeysOfCons(rows);
      forall x | x in rows[1..] ensures Key(x) != Key(rows[0]) {
        var j :| 0 <= j < |rows[1..]| && rows[1..][j] == x;
        assert rows[j + 1] == x;
      }
      assert rows == [rows[0]] + rows[1..];
    }
  }

  lemma KeepLastIdempotent(rows: seq<Row>)
    ensures KeepLast(KeepLast(rows)) == KeepLast(rows)
  {
    KeepLastOfUnique(KeepLast(rows));
  }

  /** `remove_duplicates`: a KeyError without an `EmployeeKey` column,
      otherwise the frame of surviving rows. */
  function RemoveDuplicates(f: Frame): (r: Result<Frame>)
    ensures r.Ok? <==> KeyColumn in f.columns
    ensures r.MissingColumn? ==> r.column == KeyColumn
    ensures r.Ok? ==> r.value.columns == f.columns && r.value.rows == KeepLast(f.rows)
    ensures r.Ok? && WellFormed(f) ==> WellFormed(r.value)
  {
    if KeyColumn !in f.columns then MissingColumn(KeyColumn)
    else
      var rows := KeepLast(f.rows);
      assert forall i :: 0 <= i < |rows| ==> rows[i] in f.rows;
      Ok(Frame(f.columns, rows))
  }

  /** `df['CurrentFlag'] == True`, which pandas also holds for the integer 1. */
  predicate IsActive(r: Row) {
    Get(r, "CurrentFlag") == Bool(true) || Get(r, "CurrentFlag") == Int(1)
  }

  /** `filter_active_employees`: only active rows are kept, in order; a frame
      without the flag column is returned as it is. */
  function FilterActive(f: Frame): (r: Frame)
    ensures r.columns == f.columns
    ensures "CurrentFlag" !in f.columns ==> r == f
    ensures "CurrentFlag" in f.columns ==> r.rows == Where(f.rows, IsActive)
    ensures WellFormed(f) ==> WellFormed(r)
  {
    if "CurrentFlag" in f.columns then
      var rows := Where(f.rows, IsActive);
      assert forall i :: 0 <= i < |rows| ==> rows[i] in f.rows;
      Frame(f.columns, rows)
    else f
  }

  /** After cleaning, a row is active exactly when its raw flag is truthy. */
  lemma CleanRowActive(r: Row, rd: Readers, ageToday: int, serviceToday: int)
    requires "CurrentFlag" in r
    ensures IsActive(CleanRow(r, rd, ageToday, serviceToday)) <==> Truthy(r["CurrentFlag"])
  {
    CleanRowFlags(r, rd, ageToday, serviceToday, "CurrentFlag");
  }

  /** Deduplicating and then filtering keeps an employee exactly when the
      last of its rows is active: an earlier active row does not rescue it. */
  lemma ActiveAfterDedup(rows: seq<Row>, k: Value)
    ensures k in KeysOf(Where(KeepLast(rows), IsActive)) <==>
            k in KeysOf(rows) && IsActive(rows[LastIndex(rows, k)])
  {
    var out := KeepLast(rows);
    KeepLastPicksLast(rows);
    if k in KeysOf(Where(out, IsActive)) {
      var x :| x in Where(out, IsActive) && Key(x) == k;
      var t :| 0 <= t < |out| && out[t] == x;
    }
    if k in KeysOf(rows) && IsActive(rows[LastIndex(rows, k)]) {
      assert k in KeysOf(out);
      var x :| x in out && Key(x) == k;
      var t :| 0 <= t < |out| && out[t] == x;
      assert x in Where(out, IsActive);
    }
  }

  // ---------------------------------------------------------------------
  // The order `run` applies the steps in (lines 214-264)

  const SavedAtColumn := "transformation_timestamp"

  /** `df['transformation_timestamp'] = datetime.now()` in `save_to_silver`;
      the frame is changed in place, so `run` returns it with the column. */
  function Stamp(f: Frame, savedAt: Value): (r: Frame)
    ensures r.columns == WithColumnName(f.columns, SavedAtColumn)
    ensures |r.rows| == |f.rows|
    ensures forall i :: 0 <= i < |f.rows| ==> r.rows[i] == f.rows[i][SavedAtColumn := savedAt]
    ensures WellFormed(f) ==> WellFormed(r)
  {
    SetColumn(f, SavedAtColumn, (row: Row) => savedAt)
  }

  /** What `run` does after cleaning: deduplication, then (when asked) the
      active filter, then the timestamp column. */
  function AfterCleaning(cleaned: Frame, filterActive: bool, savedAt: Value): Result<Frame> {
    match RemoveDuplicates(cleaned)
    case MissingColumn(c) => MissingColumn(c)
    case Ok(dedup) => Ok(Stamp(if filterActive then FilterActive(dedup) else dedup, savedAt))
  }

  /** The frame `run` returns. */
  function Transformed(df: Frame, rd: Readers, ageToday: int, serviceToday: int,
                       filterActive: bool, savedAt: Value): Result<Frame>
  {
    match CleanFrame(df, rd, ageToday, serviceToday)
    case MissingColumn(c) => MissingColumn(c)
    case Ok(cleaned) => AfterCleaning(cleaned, filterActive, savedAt)
  }

  /** `run`: the bronze frame, both clock readings and the save time are
      parameters; the quality summary is computed and discarded. */
  method Run(df: Frame, rd: Readers, ageToday: int, serviceToday: int,
             filterActive: bool, savedAt: Value) returns (r: Result<Frame>)
    requires WellFormed(df)
    ensures r == Transformed(df, rd, ageToday, serviceToday, filterActive, savedAt)
    ensures r.Ok? ==> WellFormed(r.value)
  {
    var cleaned := CleanData(df, rd, ageToday, serviceToday);
    if cleaned.MissingColumn? {
      return MissingColumn(cleaned.column);
    }
    var dedup := RemoveDuplicates(cleaned.value);
    if dedup.MissingColumn? {
      return MissingColumn(dedup.column);
    }
    var final := if filterActive then FilterActive(dedup.value) else dedup.value;
    var _ := Quality.ValidateDataFrame(final, "employees");
    r := Ok(Stamp(final, savedAt));
  }

  /** A column that cleaning neither drops nor adds is present after
      cleaning exactly when it was present before. */
  lemma CleanColumnsKeep(cols: seq<string>, c: string)
    requires c != MetadataColumn && c != "FullName" && c != "Age" && c != "YearsOfService" && c != ScoreColumn
    ensures c in CleanColumns(cols) <==> c in cols
  {
    var removed := RemoveName(cols, MetadataColumn);
    var named := NameColumns(cols);
    var aged := if "BirthDate" in named then WithColumnName(named, "Age") else named;
    assert c in cols <==> c in ColumnSet(cols);
    assert c in removed <==> c in ColumnSet(removed);
    assert c in named <==> c in ColumnSet(named);
    assert c in aged <==> c in ColumnSet(aged);
    assert c in YearColumns(named) <==> c in ColumnSet(YearColumns(named));
    assert c in CleanColumns(cols) <==> c in ColumnSet(CleanColumns(cols));
  }

  /** Filtering rows with distinct keys leaves rows with distinct keys. */
  lemma {:induction false} WhereKeepsUniqueKeys(rows: seq<Row>, p: Row -> bool)
    requires UniqueKeys(rows)
    ensures UniqueKeys(Where(rows, p))
  {
    if rows != [] {
      var init := rows[..|rows| - 1];
      var last := rows[|rows| - 1];
      assert UniqueKeys(init) by {
        assert forall i :: 0 <= i < |init| ==> init[i] == rows[i];
      }
      WhereKeepsUniqueKeys(init, p);
      var kept := Where(init, p);
      forall t | 0 <= t < |kept| ensures Key(kept[t]) != Key(last) {
        assert kept[t] in kept;
        var m :| 0 <= m < |init| && init[m] == kept[t];
        assert init[m] == rows[m];
      }
    }
  }

  /** Rows rewritten one for one without touching their keys keep the key
      set, and distinct keys stay distinct. */
  lemma SameKeys(before: seq<Row>, after: seq<Row>)
    requires |after| == |before|
    requires forall i :: 0 <= i < |before| ==> Key(after[i]) == Key(before[i])
    ensures KeysOf(after) == KeysOf(before)
    ensures UniqueKeys(before) ==> UniqueKeys(after)
  {
    forall k ensures k in KeysOf(after) <==> k in KeysOf(before) {
      if k in KeysOf(after) {
        var x :| x in after && Key(x) == k;
        var i :| 0 <= i < |after| && after[i] == x;
        assert before[i] in before;
      }
      if k in KeysOf(before) {
        var x :| x in before && Key(x) == k;
        var i :| 0 <= i < |before| && before[i] == x;
        assert after[i] in after;
      }
    }
  }

  /** Cleaning leaves every employee key as it was. */
  lemma CleanedKeys(df: Frame, rd: Readers, ageToday: int, serviceToday: int)
    requires CleanFrame(df, rd, ageToday, serviceToday).Ok?
    ensures KeysOf(CleanFrame(df, rd, ageToday, serviceToday).value.rows) == KeysOf(df.rows)
  {
    var rows := CleanFrame(df, rd, ageToday, serviceToday).value.rows;
    assert |rows| == |df.rows|;
    KeyName();
    forall i | 0 <= i < |df.rows| ensures Key(rows[i]) == Key(df.rows[i]) {
      CleanRowKeepsOthers(df.rows[i], rd, ageToday, serviceToday, KeyColumn);
    }
    SameKeys(df.rows, rows);
  }

  lemma StampedKeys(f: Frame, savedAt: Value)
    ensures KeysOf(Stamp(f, savedAt).rows) == KeysOf(f.rows)
    ensures UniqueKeys(f.rows) ==> UniqueKeys(Stamp(f, savedAt).rows)
  {
    var rows := Stamp(f, savedAt).rows;
    forall i | 0 <= i < |rows| ensures Key(rows[i]) == Key(f.rows[i]) {
      assert rows[i] == f.rows[i][SavedAtColumn := savedAt];
    }
    SameKeys(f.rows, rows);
  }

  /** The rows left by deduplication and the optional filter. */
  lemma SurvivorsSpec(cleaned: Frame, filterActive: bool)
    requires KeyColumn in cleaned.columns
    ensures var dedup := RemoveDuplicates(cleaned).value;
            var final := if filterActive then FilterActive(dedup) else dedup;
            && UniqueKeys(final.rows) && |final.rows| <= |cleaned.rows|
            && (!(filterActive && "CurrentFlag" in cleaned.columns) ==> KeysOf(final.rows) == KeysOf(cleaned.rows))
            && (filterActive && "CurrentFlag" in cleaned.columns ==>
                  forall i :: 0 <= i < |final.rows| ==> IsActive(final.rows[i]))
  {
    var dedup := RemoveDuplicates(cleaned).value;
    if filterActive && "CurrentFlag" in dedup.columns {
      var final := FilterActive(dedup);
      WhereKeepsUniqueKeys(dedup.rows, IsActive);
      forall i | 0 <= i < |final.rows| ensures IsActive(final.rows[i]) {
        assert final.rows[i] in final.rows;
      }
    }
  }

  /** The time stamp adds the save-time column and changes nothing else a
      later step looks at. */
  lemma StampSpec(f: Frame, savedAt: Value)
    ensures var out := Stamp(f, savedAt);
            && SavedAtColumn in out.columns && |out.rows| == |f.rows|
            && (forall i :: 0 <= i < |out.rows| ==> out.rows[i][SavedAtColumn] == savedAt)
            && (forall i :: 0 <= i < |out.rows| ==> (IsActive(out.rows[i]) <==> IsActive(f.rows[i])))
            && KeysOf(out.rows) == KeysOf(f.rows)
            && (UniqueKeys(f.rows) ==> UniqueKeys(out.rows))
  {
    StampedKeys(f, savedAt);
    var out := Stamp(f, savedAt);
    assert SavedAtColumn in ColumnSet(out.columns);
    forall i | 0 <= i < |out.rows| ensures IsActive(out.rows[i]) <==> IsActive(f.rows[i]) {
      assert out.rows[i] == f.rows[i][SavedAtColumn := savedAt];
    }
  }

  /** The steps after cleaning fail exactly without a key column; otherwise
      each key appears once, every row carries the save time, and the key
      set is kept unless the active filter applies, which keeps only active
      rows. */
  lemma AfterCleaningSpec(cleaned: Frame, filterActive: bool, savedAt: Value)
    ensures var r := AfterCleaning(cleaned, filterActive, savedAt);
            && (r.Ok? <==> KeyColumn in cleaned.columns)
            && (r.Ok? ==> && UniqueKeys(r.value.rows)
                          && |r.value.rows| <= |cleaned.rows|
                          && SavedAtColumn in r.value.columns
                          && (forall i :: 0 <= i < |r.value.rows| ==> r.value.rows[i][SavedAtColumn] == savedAt)
                          && (!(filterActive && "CurrentFlag" in cleaned.columns) ==>
                                KeysOf(r.value.rows) == KeysOf(cleaned.rows))
                          && (filterActive && "CurrentFlag" in cleaned.columns ==>
                                forall i :: 0 <= i < |r.value.rows| ==> IsActive(r.value.rows[i])))
  {
    if KeyColumn in cleaned.columns {
      var dedup := RemoveDuplicates(cleaned).value;
      var final := if filterActive then FilterActive(dedup) else dedup;
      SurvivorsSpec(cleaned, filterActive);
      StampSpec(final, savedAt);
    }
  }

  /** `clean_data` fails exactly on a missing name column, keeps one row per
      input row and the key and flag columns present as they were. */
  lemma CleanFrameShape(df: Frame, rd: Readers, ageToday: int, serviceToday: int)
    ensures var r := CleanFrame(df, rd, ageToday, serviceToday);
            && (r.Ok? <==> FirstMissing(RemoveName(df.columns, MetadataColumn), RequiredColumns).None?)
            && (r.Ok? ==> && |r.value.rows| == |df.rows|
                          && (KeyColumn in r.value.columns <==> KeyColumn in df.columns)
                          && ("CurrentFlag" in r.value.columns <==> "CurrentFlag" in df.columns))
  {
    CleanColumnsKeep(df.columns, KeyColumn);
    CleanColumnsKeep(df.columns, "CurrentFlag");
  }

  /** What `run` promises about its result: it fails exactly when a name
      column or the key column is missing; otherwise every employee appears
      once, with the save time.  Without the filter (or without a
      `CurrentFlag` column to filter on) no employee is lost; with it every
      row left is active. */
  lemma TransformedSpec(df: Frame, rd: Readers, ageToday: int, serviceToday: int,
                        filterActive: bool, savedAt: Value)
    ensures var r := Transformed(df, rd, ageToday, serviceToday, filterActive, savedAt);
            && (r.Ok? <==> FirstMissing(RemoveName(df.columns, MetadataColumn), RequiredColumns).None?
                           && KeyColumn in df.columns)
            && (r.Ok? ==> && UniqueKeys(r.value.rows)
                          && |r.value.rows| <= |df.rows|
                          && SavedAtColumn in r.value.columns
                          && (forall i :: 0 <= i < |r.value.rows| ==> r.value.rows[i][SavedAtColumn] == savedAt)
                          && (!(filterActive && "CurrentFlag" in df.columns) ==> KeysOf(r.value.rows) == KeysOf(df.rows))
                          && (filterActive && "CurrentFlag" in df.columns ==>
                                forall i :: 0 <= i < |r.value.rows| ==> IsActive(r.value.rows[i])))
  {
    CleanFrameShape(df, rd, ageToday, serviceToday);
    var cleaned := CleanFrame(df, rd, ageToday, serviceToday);
    if cleaned.Ok? {
      CleanedKeys(df, rd, ageToday, serviceToday);
      AfterCleaningSpec(cleaned.value, filterActive, savedAt);
    }
  }
}
