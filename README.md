# Employee data pipeline — a verified model of its decision logic

This project models, in Dafny, the parts of the employee data pipeline that
make decisions: the cleaning rules that turn the bronze extract into the
silver frame (`EmployeeTransformer`), the four gold-layer tables and the rule
that picks which of them are saved (`EmployeeAnalyticsLoader`), the advisory
quality checker (`DataQualityChecker`, `validate_dataframe`), the
Extract → Transform → Load orchestrator with its exit code (`DataPipeline`,
`main`) and the ODBC connection string (`DatabaseConfig`).

A pandas DataFrame is a `Frames.Frame`: an ordered list of column names and a
sequence of rows, each row a map from column name to a `Value`
(`Null | Str | Int | Bool | Day`). `Null` stands for every missing value pandas
knows (None, NaN, NaT). Because each row is a map, a column that is absent and
a cell that is missing are told apart exactly.

Modules, one per source file or shared concept:

- `Wrappers`, `Frames`: `Option`, the frame/row/value model, `df[c] = ...`,
  `df.drop`, boolean indexing, and the `KeyError` a missing column raises.
- `Text`: Python's `str.strip()` (with Python's white-space set) and `str(int)`.
- `Ordering`, `Grouping`: the sorted group keys of `groupby` and the
  `count` aggregation, with the row-conservation lemmas.
- `Transform` (src/transform/transform_employees.py): `CleanData` rewrites the
  frame column by column, as `clean_data` does; it is proved equal to the
  row-wise specification `CleanRow`. Lemmas state each cleaning rule in terms
  of the raw row. Deduplication (`KeepLast`), the active filter
  (`FilterActive`) and the order of `run` follow.
- `Quality` (src/utils/data_quality.py): `DataQualityChecker` is a class whose
  methods append to its `issues` sequence.
- `Gold` (src/load/load_to_gold.py): the four tables, `SaveToGold` and the
  load `run`.
- `Pipeline` (main_pipeline.py): `DataPipeline` is a class with `status`,
  `errors` and the two times. Each step's outcome is an input.
- `DbConfig` (config/db_config.py): settings from the environment and the
  connection string, with a parser that reads the settings back.

Behaviours of the code that the model keeps on purpose:

- The text columns are stringified before they are trimmed. A missing
  `DepartmentName` therefore becomes the text `"nan"`, so it never lowers
  `data_quality_score`. In practice the score is one of 80, 90 and 100
  (`Transform.CleanRowScore`).
- `astype(bool)` uses Python truthiness. A missing flag becomes `True`, and so
  does the text `"False"` (`Transform.TruthyQuirks`).
- Tenure bands come from `pd.cut` with its default `right=True`. The bands are
  `(-1,1]`, `(1,3]`, `(3,5]`, `(5,10]` and `(10,100]`. So 0 and 1 fall in
  "0-1 years", 10 falls in "5-10 years", and -1 gets no band. A left-closed
  reading of the labels would put 10 in "10+ years"; the code does not.
- When `Gender` is present but no row has both a department and a gender, the
  percentage `apply` returns a frame instead of a column. Storing it raises a
  ValueError, which ends the gold load. An empty silver frame that has a
  `Gender` column fails this way (`Gold.GenderDiversitySkips`,
  `Gold.BuildAnalyticsSpec`).
- Unmapped `Gender` and `MaritalStatus` codes become missing.
- Age and years of service are computed against two separate readings of the
  clock, as in the code. Both readings are parameters.

## Model

| member | source | states |
|---|---|---|
| `Transform.ToDate` | src/transform/transform_employees.py:88-92 | a date cell is either a parsed day or missing; a missing or already-parsed cell is kept |
| `Transform.YearsSince` | src/transform/transform_employees.py:94-101 | whole years since the date, floored: `r*365 <= today - date < (r+1)*365`; missing exactly when the date is missing |
| `Transform.ToNumber` | src/transform/transform_employees.py:109-113 | a numeric cell is never missing after coercion; an integer is kept unchanged, with no clamping |
| `Transform.MapGender` | src/transform/transform_employees.py:115-118 | M becomes Male and F becomes Female (each iff); every other code becomes missing |
| `Transform.MapMaritalStatus` | src/transform/transform_employees.py:120-122 | M becomes Married and S becomes Single (each iff); every other code becomes missing |
| `Transform.MapColumns` | src/transform/transform_employees.py:77-79 | the loop over a column list rewrites, in every row, exactly the listed columns the frame has; the column list is unchanged |
| `Transform.FillNames` | src/transform/transform_employees.py:65-71 | the metadata column is dropped; a missing MiddleName or Title column is a KeyError; otherwise their nulls are filled with "" and "Not Specified" |
| `Transform.NameRows` | src/transform/transform_employees.py:73-86 | text columns are trimmed and FullName is added; a missing FirstName or LastName column is a KeyError |
| `Transform.CleanNames` | src/transform/transform_employees.py:65-86 | the first KeyError is the first missing of MiddleName, Title, FirstName, LastName; otherwise each row is the name stage of its raw row |
| `Transform.AddYearColumns` | src/transform/transform_employees.py:94-101 | Age is added only with a BirthDate column and YearsOfService only with a HireDate column, each against its own clock |
| `Transform.CleanValues` | src/transform/transform_employees.py:88-113 | dates parsed, years derived, flags and numbers coerced, row by row as the value stage specifies |
| `Transform.CodeCategories` | src/transform/transform_employees.py:115-122 | Gender and MaritalStatus are recoded only when the frame has them; nothing else changes |
| `Transform.ScoreRows` | src/transform/transform_employees.py:124-131 | the score starts at 100 and loses 10 for each critical field the frame has that is null in the row |
| `Transform.CleanData` | src/transform/transform_employees.py:51-135 | the column-by-column rewrite equals the row-wise specification: a KeyError for a missing name column, else one cleaned row per input row |
| `Transform.CleanRowKeepsOthers` | src/transform/transform_employees.py:51-135 | a column no rule touches (EmployeeKey among them) keeps its presence and value |
| `Transform.CleanRowDepartment` | src/transform/transform_employees.py:74-79 | DepartmentName becomes the stripped text of its value, so a missing department becomes "nan" |
| `Transform.CleanRowScore` | src/transform/transform_employees.py:124-131 | the score is 100 less 10 per missing e-mail address or phone, so it lies in {80, 90, 100} |
| `Transform.CleanRowFullName` | src/transform/transform_employees.py:81-86 | FullName joins the trimmed first, middle and last names; a missing middle name adds no extra space |
| `Transform.FullNameJoins` | src/transform/transform_employees.py:81-86 | with non-empty trimmed first and last names, the parts are joined by exactly one space each |
| `Transform.CleanRowYears` | src/transform/transform_employees.py:94-101 | Age and YearsOfService are the floored years since the parsed birth and hire dates; an unparseable date gives a missing value |
| `Transform.CleanRowFlags` | src/transform/transform_employees.py:103-107 | each flag column becomes the Python truth value of its raw cell |
| `Transform.TruthyQuirks` | src/transform/transform_employees.py:107 | a missing flag, the text "False" and the text "0" are all true; the empty text and the integer 0 are false |
| `Transform.CleanRowNumbers` | src/transform/transform_employees.py:109-113 | each numeric column holds the parsed number, or 0 when it does not parse |
| `Transform.CleanRowCodes` | src/transform/transform_employees.py:115-122 | the cleaned Gender and MaritalStatus are the lookups of the raw codes |
| `Transform.CleanedKeys` | src/transform/transform_employees.py:51-135 | cleaning keeps the set of employee keys |
| `Transform.CleanFrameShape` | src/transform/transform_employees.py:51-135 | cleaning fails exactly on a missing name column, keeps the row count and keeps the EmployeeKey and CurrentFlag columns |
| `Transform.KeepLast` | src/transform/transform_employees.py:150 | keys of the result are pairwise distinct, the key set is that of the input, nothing new appears and the length does not grow |
| `Transform.KeepLastPicksLast` | src/transform/transform_employees.py:150 | each retained row is the last input row with its key |
| `Transform.KeepLastOrder` | src/transform/transform_employees.py:150 | retained rows keep the relative order of their last occurrences |
| `Transform.KeepLastOfUnique` | src/transform/transform_employees.py:150 | rows whose keys are already distinct are returned unchanged |
| `Transform.KeepLastIdempotent` | src/transform/transform_employees.py:150 | deduplicating twice equals deduplicating once |
| `Transform.RemoveDuplicates` | src/transform/transform_employees.py:147-159 | a KeyError exactly when EmployeeKey is absent; otherwise the same columns and the last-wins rows |
| `Transform.FilterActive` | src/transform/transform_employees.py:171-177 | with a CurrentFlag column, exactly the active rows in order; without it, the frame unchanged |
| `Transform.CleanRowActive` | src/transform/transform_employees.py:171-172 | after cleaning, a row is active exactly when its raw flag is truthy |
| `Transform.ActiveAfterDedup` | src/transform/transform_employees.py:236-242 | after dedup then filter, a key survives iff its last input row is active |
| `Transform.WhereKeepsUniqueKeys` | src/transform/transform_employees.py:172 | filtering rows with distinct keys keeps the keys distinct |
| `Transform.Stamp` | src/transform/transform_employees.py:189-191 | save_to_silver adds the timestamp column to every row and changes nothing else |
| `Transform.AfterCleaningSpec` | src/transform/transform_employees.py:235-248 | after cleaning: a KeyError iff no key column; else unique keys, no key lost unless filtering, only active rows when filtering |
| `Transform.Run` | src/transform/transform_employees.py:214-264 | clean, dedup, optional filter, quality validation (result ignored), timestamp, in that order |
| `Transform.TransformedSpec` | src/transform/transform_employees.py:214-264 | the transform fails exactly on a missing name or key column; otherwise each employee appears once with the save time |
| `Text.StripSpec` | src/transform/transform_employees.py:79 | strip removes exactly the white space at both ends and leaves a result without white space at either end |
| `Text.StripIdempotent` | src/transform/transform_employees.py:79 | stripping twice equals stripping once |
| `Text.IntToStringRoundTrip` | src/transform/transform_employees.py:79 | the text `astype(str)` writes for an integer reads back as that integer |
| `Grouping.TallyTotal` | src/load/load_to_gold.py:114-116 | the group counts add up to the counted rows whose group key is present: no row lost or counted twice |
| `Grouping.OuterTotalConserves` | src/load/load_to_gold.py:121 | the per-department total is the number of counted rows of that department with a full key |
| `Gold.DepartmentSummaryFails` | src/load/load_to_gold.py:69-76 | the summary fails exactly when DepartmentName or an aggregated column is missing, naming an absent column |
| `Gold.DepartmentSummaryRows` | src/load/load_to_gold.py:69-92 | one row per distinct non-null department, ascending; total_employees counts its rows with a key |
| `Gold.GenderDiversitySkips` | src/load/load_to_gold.py:110-125 | the report is skipped iff Gender is missing; a missing department or key column is a KeyError naming an absent column; with all three present it raises a ValueError iff no row has both a department and a gender, and otherwise lists at least one row |
| `Gold.DiversityEmpty` | src/load/load_to_gold.py:114-116 | the (department, gender) tally is empty iff no row has both a department and a gender |
| `Gold.DepartmentTotals` | src/load/load_to_gold.py:114-121 | the department total used as the denominator counts that department's rows with a gender and a key |
| `Gold.PercentBounds` | src/load/load_to_gold.py:121-125 | a percentage is missing only for a zero total; otherwise it lies in [0,100] and is positive iff the count is |
| `Gold.PercentagesSumTo100` | src/load/load_to_gold.py:121-125 | the percentages of a department with counted rows add up to 100 before rounding |
| `Gold.BandIsRightClosed` | src/load/load_to_gold.py:149-153 | band k holds exactly the years in (edge k, edge k+1]; years up to -1 or above 100 get no band |
| `Gold.BandExamples` | src/load/load_to_gold.py:149-153 | 0 and 1 fall in "0-1 years", 10 in "5-10 years"; -1, 101 and a missing value get no band |
| `Gold.TenureAnalysisSkips` | src/load/load_to_gold.py:143-145 | the analysis is skipped iff YearsOfService is missing |
| `Gold.TenureRows` | src/load/load_to_gold.py:155-159 | the rows are in ascending (department, band) order; each pair listed occurs in some row, and every row with a department and a band has its pair listed; each count is the number of that department's rows in that band with a key, and the counts add up to the rows having a department, a band and a key |
| `Gold.SortTrendsSpec` | src/load/load_to_gold.py:189 | the sort orders by year then hires, both descending, and is a permutation |
| `Gold.HiringTrendsSkips` | src/load/load_to_gold.py:177-179 | the trends are skipped iff HireDate is missing |
| `Gold.HiringTrendsRows` | src/load/load_to_gold.py:181-189 | the trends are sorted, are a reordering of the (year, department) groups, and new_hires add up to the rows with a year, department and key |
| `Gold.SaveToGold` | src/load/load_to_gold.py:205-226 | the loop records the tables of the selection rule, in dictionary order |
| `Gold.SavedFilesSpec` | src/load/load_to_gold.py:208-226 | a table is recorded iff it exists, is non-empty and its write succeeds, independently of the others; nothing else is recorded |
| `Gold.BuildAnalyticsSpec` | src/load/load_to_gold.py:243-249 | the build raises the summary's KeyError; failing that, it raises the diversity ValueError iff Gender is present and no row pairs a department with a gender; otherwise it succeeds and each other table is absent iff its own column is missing |
| `Gold.LoadRun` | src/load/load_to_gold.py:228-268 | the load re-raises exactly the exception building the tables raises (KeyError or ValueError); otherwise it returns the saved files and the tables |
| `Quality.NullCountZero` | src/utils/data_quality.py:25-28 | a column's null count is zero iff no row misses that cell |
| `Quality.NullColumnsSpec` | src/utils/data_quality.py:25-28 | the reported columns are exactly those with a positive null count, each once |
| `Quality.NullIssuesSpec` | src/utils/data_quality.py:30-35 | one issue per column with nulls, in column order, carrying its count |
| `Quality.DuplicatesAndDistinct` | src/utils/data_quality.py:41 | the duplicate count is the row count less the number of distinct rows |
| `Quality.DuplicateBound` | src/utils/data_quality.py:94 | the duplicate count is at most max(0, rows - 1) |
| `Quality.NoNullsNoIssues` | src/utils/data_quality.py:25-37 | the total null count is zero iff no null issue is raised |
| `Quality.IssueCount` | src/utils/data_quality.py:74-76 | issues = [rows < 1] + columns with nulls + [duplicates > 0] |
| `Quality.PassesExactly` | src/utils/data_quality.py:78-85 | the checks pass iff there is a row, no null and no duplicate row |
| `Quality.DataQualityChecker.constructor` | src/utils/data_quality.py:20-23 | a new checker holds the frame, the name and no issues |
| `Quality.DataQualityChecker.CheckNullValues` | src/utils/data_quality.py:25-37 | appends the null issues and returns the columns with nulls |
| `Quality.DataQualityChecker.CheckDuplicates` | src/utils/data_quality.py:39-48 | returns the duplicate count and appends one issue iff it is positive |
| `Quality.DataQualityChecker.CheckRowCount` | src/utils/data_quality.py:50-61 | returns false and appends one issue iff the row count is below the minimum |
| `Quality.DataQualityChecker.RunAllChecks` | src/utils/data_quality.py:69-85 | appends row-count, null and duplicate issues in that order; passes iff no issue is held |
| `Quality.DataQualityChecker.GetSummary` | src/utils/data_quality.py:87-96 | reports the row, column, total null and duplicate counts and the issues, reading the frame only |
| `Quality.ValidateDataFrame` | src/utils/data_quality.py:99-112 | returns the summary of a fresh checker after all checks; it never fails |
| `Pipeline.ConnectionPasses` | main_pipeline.py:42-51 | the gate passes iff the check answers true; an exception counts as a failure |
| `Pipeline.FirstFailure` | main_pipeline.py:170-176 | every phase before the stopping point succeeded and the phase at it raised |
| `Pipeline.ExitCode` | main_pipeline.py:252-256 | the exit code is 0 iff the status is "Completed Successfully", else 1 |
| `Pipeline.DataPipeline.constructor` | main_pipeline.py:26-31 | a new pipeline is "Not Started", with no errors and no times |
| `Pipeline.DataPipeline.ExtractPhase` | main_pipeline.py:53-84 | department extraction runs iff employee extraction succeeded; a failure appends one "Extraction: " error |
| `Pipeline.DataPipeline.TransformPhase` | main_pipeline.py:86-112 | succeeds iff the transformer does; a failure appends one "Transformation: " error |
| `Pipeline.DataPipeline.LoadPhase` | main_pipeline.py:114-140 | succeeds iff the loader does; a failure appends one "Load: " error |
| `Pipeline.DataPipeline.RunPhase` | main_pipeline.py:164-171 | calls the phase method that the phase names |
| `Pipeline.DataPipeline.Run` | main_pipeline.py:142-185 | the gate, then the phases in order up to the first failure; final status, errors and end time as specified |
| `Pipeline.DataPipeline.Summary` | main_pipeline.py:187-205 | the duration exists iff both times are set, and is their difference |
| `Pipeline.PipelineMain` | main_pipeline.py:247-256 | exit code from the final status; a run stopped at the gate has no duration |
| `Pipeline.ConnectionGate` | main_pipeline.py:157-161 | a failed gate runs no phase, records no error and fails the run |
| `Pipeline.FailFast` | main_pipeline.py:164-176 | the phases run are a prefix of Extract, Transform, Load; all but the last succeeded, the last failed unless the run completed |
| `Pipeline.CompletedExactly` | main_pipeline.py:170-178 | the run completes iff the gate passes and every step succeeds |
| `Pipeline.OneErrorPerFailure` | main_pipeline.py:81-83 | a completed run has no error; a failed run past the gate has exactly one, labelled with the failing phase |
| `Pipeline.ExitCodeExactly` | main_pipeline.py:252-256 | the exit code is 0 iff the gate and every step succeed |
| `DbConfig.Defaults` | config/db_config.py:18-23 | with no overrides: BEBA, AdventureWorksDW2022, ODBC Driver 17 for SQL Server, empty credentials, Windows authentication |
| `DbConfig.EnvironmentOverrides` | config/db_config.py:18-23 | each of the five variables, when set, replaces its field's default, even when empty; SQL Server authentication is chosen iff both credentials are set and non-empty |
| `DbConfig.ConnectionStringForm` | config/db_config.py:25-47 | both forms start with DRIVER, SERVER and DATABASE; then "UID=..;PWD=.." (no trailing ';') iff both credentials are non-empty, else "Trusted_Connection=yes;" |
| `DbConfig.WindowsIgnoresCredentials` | config/db_config.py:39-46 | under Windows authentication the credentials do not affect the string |
| `DbConfig.ConnectionStringFields` | config/db_config.py:25-47 | the string splits at ';' into exactly one field per setting |
| `DbConfig.ParseRoundTrip` | config/db_config.py:25-47 | reading the string back gives the settings it was built from; credentials only under SQL Server authentication |

## Left out

- Database access (`read_sql`, the pyodbc and SQLAlchemy connections, `DatabaseConfig.test_connection`): foreign calls. The connection test and each phase step enter the model as a given outcome.
- The extraction modules: a SQL query and CSV writes. Only their outcome (returned or raised, with the message) is modelled.
- CSV reading and writing, directory creation, and file naming by timestamp and "latest": I/O. `save_to_gold` keeps its selection rule; whether a write succeeds is a parameter. The save stamp and directory are parameters too.
- The clock (`pd.Timestamp.now()`, `datetime.now()`): every reading is an integer parameter.
- Date parsing (`pd.to_datetime`), number parsing (`pd.to_numeric`), `str()` of a date and `.dt.year`: given functions.
- Floating-point statistics: the mean, median, minimum and maximum of BaseRate, the averages of age, tenure and hours, `round(2)`/`round(1)`, and the null percentage printed in an issue. Only integer counts are modelled. For this reason the department summary has two of its seven projected columns, DepartmentName and total_employees. Percentages are exact rationals before rounding.
- Issue messages are kept as structured values, not as formatted text.
- Gold.TenureRows: the model lists only the (department, band) pairs that occur in some row. With pandas' categorical `observed=False` default the source may also list zero-count pairs for every department and band. The model's table can therefore be empty where the source's is not, which changes whether `save_to_gold` writes the tenure table.
- Transform.ToNumber: cells hold integers only, so a fractional `BaseRate` such as 13.46 is not represented; the number parser is a parameter that yields whole numbers.
- Transform.Run: the bronze and silver files are not read or written; the frame comes in as a parameter and goes out as the result.
- `check_data_types`, `print_summary` and the logger: logging only.
- Integer widths: pandas' int64 columns are modelled as unbounded integers.
