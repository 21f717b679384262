# Vehicle detection statistics: request validation and query compilation

The repository answers one question: "for each vehicle type, what share of
detections fell into each distance interval?". A caller sends a loosely typed
request holding a distance range, a list of distance intervals and an optional
vehicle type. The request goes through four steps:

1. It is validated by a pydantic model (`VehicleValidation`).
2. It is compiled into one DuckDB `SELECT … GROUP BY vehicle_type` statement.
   There is one percentage column per interval that lies inside the range, and
   a `WHERE` clause with positional `?` parameters.
3. The statement is handed to the query manager.
4. The query manager wraps the returned frame as `{data, metadata{row_count, columns}}`.
   If execution fails, it raises `QueryExecutionError` instead.

This project models that pipeline in Dafny. Each module follows one source file:

| module | source | what it holds |
|---|---|---|
| `VehicleData` | `src/models/vehicle_data.py` | the `VehicleType` enum and its eleven wire strings, the default range `(0, 100)` and the ten default deciles |
| `VehicleValidations` | `src/validations/vehicle_validations.py` | the raw and validated request, the per-field checks, and `Validate`, which returns the validated request or a `ValidationError` listing every failing field in declaration order |
| `VehicleRepository` | `src/repositories/vehicle_repository.py` | `format_distance_columns` (interval filter, `"start-end"` aliases, column text), the WHERE conditions and bind parameters, template filling, and `detection_statistics` |
| `Queries` | `src/database/queries.py` | `execute_custom_query`, with the database executor passed in as a function |
| `Controllers` | `src/controllers/vehicle_controllers.py` | the controller's composition: validate, then run the statistics query; also the two request scenarios of `main.py` |
| `Text`, `SqlText`, `Wrappers` | — | decimal rendering and parsing, Python's `str.join`, character counting, extraction of the double-quoted names of a statement, the fixed SQL pieces, and `Option`/`Result` |

Three modelling choices:

- The statement is modelled as the exact text the code formats, not as an
  abstract syntax tree. Its properties are stated on that text:
  - the WHERE text is exact: the vehicle-type test comes before the range test, so the k-th `?` takes the k-th bind parameter;
  - the column fragment, read back, gives the kept intervals in order: each column's two `BETWEEN` tests and its quoted alias come from its own interval, and columns are separated by `", "`;
  - the fixed head `SELECT vehicle_type,` and the tail `GROUP BY vehicle_type` are always there.
- Python 2-tuples, both the range and each interval, are one datatype `Span(lo, hi)`.
- Python's unbounded `int` is Dafny's `int`, so no overflow is modelled.

## Model

| member | source | states |
|---|---|---|
| `VehicleData.FromValue` | src/models/vehicle_data.py:8-23 | looking up a wire string yields a type whose value is that string; when it yields nothing, no type has that value |
| `VehicleData.FromValueOfValue` | src/models/vehicle_data.py:13-23 | every type's wire string maps back to that same type |
| `VehicleData.VehicleType.Value` | src/models/vehicle_data.py:13-23 | every member's wire string is a non-empty lower-case word, so a capitalised string such as `"Car"` is never a value |
| `VehicleData.ValuesDistinct` | src/models/vehicle_data.py:13-23 | there are exactly eleven types, the list names them all, and no two share a wire string |
| `VehicleData.DefaultRangeWellFormed` | src/models/vehicle_data.py:26 | the default range has non-negative bounds with `lo <= hi` |
| `VehicleData.DefaultIntervalsAreDeciles` | src/models/vehicle_data.py:29-33 | the default intervals are ten, the k-th being `(10k+1, 10k+10)` |
| `VehicleValidations.DefaultsValid` | src/validations/vehicle_validations.py:44-66 | the defaults, which pydantic substitutes without validating, would pass both validators anyway |
| `VehicleValidations.CheckRange` | src/validations/vehicle_validations.py:44-57 | a range passes iff both bounds are non-negative and `lo <= hi`; a negative bound is reported before the order is looked at |
| `VehicleValidations.CheckIntervals` | src/validations/vehicle_validations.py:47-66 | an interval list passes iff every interval is non-negative with `min < max`; a negative-bound error names the first negative interval; an order error needs all bounds non-negative and names the first interval with `min >= max` |
| `VehicleValidations.CheckVehicleType` | src/validations/vehicle_validations.py:50 | a string becomes a vehicle type iff it is exactly one member's value, and the type's value is that string; otherwise the error carries the string |
| `VehicleValidations.RangeErrors` | src/validations/vehicle_validations.py:44-57 | a supplied range fails iff a bound is negative or `lo > hi`; it then gets exactly one error, and that error explains why |
| `VehicleValidations.IntervalErrors` | src/validations/vehicle_validations.py:47-66 | a supplied interval list fails iff some interval has a negative bound or `min >= max`; it then gets one error naming an offending interval and its position; an order error is raised only when every bound is non-negative, and names the first interval with `min >= max` |
| `VehicleValidations.TypeErrors` | src/validations/vehicle_validations.py:50 | a supplied vehicle type fails iff it is not one of the enum's wire strings |
| `VehicleValidations.RequestErrors` | src/validations/vehicle_validations.py:43-66 | errors appear in field declaration order, each explains a real failure, every failing field is reported, and the list is empty iff the request is acceptable |
| `VehicleValidations.Validate` | src/validations/vehicle_validations.py:43-66 | the request is accepted iff every supplied field meets its constraints; when accepted, the fields are the inputs unchanged or their defaults, and `None` for a missing type; when rejected, the errors are nonempty, ordered, explained and complete |
| `VehicleValidations.Accepted` | src/validations/vehicle_validations.py:44-50 | an acceptable request becomes a valid one holding the given or default values |
| `VehicleValidations.ValidateEmptyRequest` | src/validations/vehicle_validations.py:44-50 | an empty request validates to range `(0, 100)`, the ten deciles and no vehicle type |
| `VehicleValidations.DegenerateRangeAccepted` | src/validations/vehicle_validations.py:55-57 | a range with equal bounds, `(5, 5)`, is accepted |
| `VehicleValidations.NegativeRangeRejected` | src/validations/vehicle_validations.py:44 | a range with a negative bound is rejected with exactly one negative-range error whenever the intervals and type are valid |
| `VehicleValidations.ReversedRangeRejected` | src/validations/vehicle_validations.py:55-56 | range `(100, 0)` is rejected with an order error |
| `VehicleValidations.BadIntervalRejected` | src/validations/vehicle_validations.py:63-65 | one interval `(50, 50)` or `(50, 49)` rejects the whole request, and the error names that interval and its position |
| `VehicleValidations.FirstOrderViolationReported` | src/validations/vehicle_validations.py:63-65 | with every bound non-negative, the order error names exactly the first interval with `min >= max`, at its position |
| `VehicleValidations.FirstBadIntervalNamed` | src/validations/vehicle_validations.py:63-65 | of `(5, 5)` and `(9, 1)`, both out of order, only the first is reported |
| `VehicleValidations.VehicleTypeMembership` | src/validations/vehicle_validations.py:50 | alongside any valid range and intervals, `"ski"` is rejected with exactly an unknown-type error and `"car"` is accepted as the car type, the other fields unchanged |
| `VehicleValidations.ValidationTestCases` | tests/validation_test.py:13-79 | the repository's three test requests: `(0, 100)` with `"car"` is accepted, `(-100, 100)` is rejected for its negative bound, and `"ski"` is rejected as an unknown type |
| `VehicleValidations.NoOtherConstraints` | src/validations/vehicle_validations.py:59-66 | intervals that lie outside the range, are unsorted or overlap are still accepted |
| `VehicleValidations.AllFailingFieldsReported` | src/validations/vehicle_validations.py:43-66 | with all three fields bad, all three errors are reported in declaration order; a wrongly capitalised `"Car"` is not a vehicle type |
| `VehicleRepository.KeptIntervals` | src/repositories/vehicle_repository.py:33-36 | an interval is kept iff it occurs in the input and `start >= range.lo` and `end <= range.hi`; nothing is added |
| `VehicleRepository.KeptPositions` | src/repositories/vehicle_repository.py:35 | the positions of the kept intervals lie within the input and increase strictly |
| `VehicleRepository.KeptPositionsExact` | src/repositories/vehicle_repository.py:35 | a position is listed iff its interval lies inside the range |
| `VehicleRepository.KeptPositionsRead` | src/repositories/vehicle_repository.py:33-36 | the kept list is the input read at those increasing positions, so the filter keeps input order and drops nothing inside the range |
| `VehicleRepository.KeptIntervalsConcat` | src/repositories/vehicle_repository.py:33-36 | filtering a concatenation is the concatenation of the filtered parts |
| `VehicleRepository.KeptIntervalsAll` | src/repositories/vehicle_repository.py:35 | when every interval lies inside the range, all are kept |
| `VehicleRepository.KeptNone` | src/repositories/vehicle_repository.py:35 | when no interval lies inside the range, nothing is kept |
| `VehicleRepository.KeptMiddle` | src/repositories/vehicle_repository.py:33-36 | when nothing before or after a block is kept, the kept list is that block's kept list |
| `VehicleRepository.KeptNonNegative` | src/repositories/vehicle_repository.py:35 | the kept intervals of a validated request have non-negative bounds |
| `VehicleRepository.LabelRoundTrip` | src/repositories/vehicle_repository.py:34 | the alias `"start-end"` parses back to its interval, so distinct intervals get distinct aliases |
| `VehicleRepository.LabelsReadBack` | src/repositories/vehicle_repository.py:33-35 | the i-th alias reads back as the i-th kept interval |
| `VehicleRepository.ColumnTextClean` | src/repositories/vehicle_repository.py:34 | the percentage expression and the alias contain neither a double quote nor a `?` placeholder |
| `VehicleRepository.ColumnExprReadsBack` | src/repositories/vehicle_repository.py:34 | reading the numbers after each `CASE WHEN distance BETWEEN` of a column's expression gives back the interval's own endpoints, in the `SUM` test and in the `COUNT` test |
| `VehicleRepository.ColumnSql` | src/repositories/vehicle_repository.py:34 | a column reads back as its own interval: the expression tests that interval in both `BETWEEN`s and the quoted alias that follows is that interval's label, with nothing after it; it declares exactly that one name and contains no placeholder |
| `VehicleRepository.ReadColumnOf` | src/repositories/vehicle_repository.py:34 | an interval's column followed by any text reads back as that interval and that text |
| `VehicleRepository.FormatDistanceColumns` | src/repositories/vehicle_repository.py:33-36 | the fragment reads back, column by column and separated by `", "`, as exactly the kept intervals in order, so column k's expression and alias are built from the k-th kept interval; its quoted names are the aliases of the kept intervals; it has no placeholder; it is empty iff nothing is kept |
| `VehicleRepository.FragmentReadsBack` | src/repositories/vehicle_repository.py:33-36 | the kept columns joined by `", "` read back as the kept intervals, in order |
| `VehicleRepository.ReadJoinedColumns` | src/repositories/vehicle_repository.py:36 | columns each built over their own interval, joined by `", "`, read back as those intervals in order |
| `VehicleRepository.FragmentNames` | src/repositories/vehicle_repository.py:33-35 | the column fragment declares one quoted name per kept interval, in order, and those names are the aliases |
| `VehicleRepository.FragmentHasNoPlaceholder` | src/repositories/vehicle_repository.py:33-35 | interval endpoints never become bind placeholders |
| `VehicleRepository.FragmentEmpty` | src/repositories/vehicle_repository.py:33 | the column fragment is the empty string iff no interval is kept |
| `VehicleRepository.Conditions` | src/repositories/vehicle_repository.py:62-71 | a request yields two conditions when it has a vehicle type and one otherwise, and the last is always the range test carrying `lo` and `hi` |
| `VehicleRepository.BindParamsOrder` | src/repositories/vehicle_repository.py:62-71 | the parameters are the type's value, then `lo`, then `hi`, when a type is given, and only `lo`, `hi` otherwise |
| `VehicleRepository.WhereClause` | src/repositories/vehicle_repository.py:74 | the clause is empty iff there are no conditions, and otherwise starts with `WHERE ` |
| `VehicleRepository.WhereClauseText` | src/repositories/vehicle_repository.py:65-74 | the clause is exactly `WHERE vehicle_type = ? AND distance BETWEEN ? AND ?` with a type and `WHERE distance BETWEEN ? AND ?` without |
| `VehicleRepository.JoinedConditionsAligned` | src/repositories/vehicle_repository.py:62-74 | conditions joined with `" AND "` have as many placeholders as they have parameters |
| `VehicleRepository.WhereClauseAligned` | src/repositories/vehicle_repository.py:62-74 | the WHERE clause, or its absence, has one `?` per bind parameter |
| `VehicleRepository.ConditionsClean` | src/repositories/vehicle_repository.py:65-71 | each condition has one placeholder per parameter, and the WHERE clause has no double quote |
| `VehicleRepository.CompileQuery` | src/repositories/vehicle_repository.py:48-80 | the bind parameters are `[type value, lo, hi]` when a type is given and `[lo, hi]` otherwise; the statement starts with the `SELECT vehicle_type,` head and ends with the `GROUP BY vehicle_type` tail |
| `VehicleRepository.StatementText` | src/repositories/vehicle_repository.py:48-80 | the statement is `base_query` with the column fragment and the exact WHERE text put in: it selects `vehicle_type`, reads `vehicle_data` and groups by `vehicle_type` |
| `VehicleRepository.TemplateText` | src/repositories/vehicle_repository.py:48-55 | the fixed pieces around the two slots are the template's own lines, whitespace included |
| `VehicleRepository.PlaceholdersMatchParams` | src/repositories/vehicle_repository.py:48-80 | the whole statement has exactly one `?` per bind parameter |
| `VehicleRepository.StatementColumnNames` | src/repositories/vehicle_repository.py:33-80 | the quoted names in the whole statement are the aliases of the kept intervals, in order, and each parses back to its interval |
| `VehicleRepository.WhereClauseNeverEmpty` | src/repositories/vehicle_repository.py:69-74 | for a validated request there is always at least one condition, the clause starts with `WHERE `, and the range condition comes last |
| `VehicleRepository.DependsOnlyOnKeptIntervals` | src/repositories/vehicle_repository.py:33-80 | requests that agree on range, type and kept intervals compile to the same statement and parameters |
| `VehicleRepository.EmptyProjection` | src/repositories/vehicle_repository.py:33-55 | when no interval lies inside the range, the select list is `vehicle_type,` followed by nothing, and no column alias appears |
| `VehicleRepository.DetectionStatistics` | src/repositories/vehicle_repository.py:82-83 | the compiled statement and parameters are executed; the result is the returned frame with metadata describing it, or the wrapped failure message |
| `Queries.ExecuteCustomQuery` | src/database/queries.py:19-43 | it succeeds iff the executor returns; the data is the returned frame unchanged, the row count is its number of rows and the columns are its own column names; a failure becomes `QueryExecutionError("Custom query failed: " + cause)` |
| `Queries.EnvelopeDependsOnlyOnReturnedFrame` | src/database/queries.py:34-41 | the envelope depends only on the returned frame, and its columns are the frame's, not the requested ones |
| `Controllers.GetVehicleDetectionStats` | src/controllers/vehicle_controllers.py:25-44 | a request fails as invalid iff it is not acceptable; an acceptable request runs its compiled statement, and the outcome is the executor's frame or its wrapped failure |
| `Controllers.RejectedRequestNeverQueries` | src/controllers/vehicle_controllers.py:38-42 | a rejected request gives the same validation error whatever the executor would do |
| `Controllers.DefaultsKept` | src/repositories/vehicle_repository.py:35 | the filter keeps every default decile (vehicle_data.py lines 26-33) inside the default range, so all ten are kept |
| `Controllers.AllDefaultsStatement` | main.py:74-75 | an empty request validates to the defaults, keeps all ten deciles and binds only `0` and `100` |
| `Controllers.CarScenarioValid` | main.py:84-93 | range `(20, 80)` with the nine listed intervals and type `"car"` validates to exactly those values with the car type |
| `Controllers.CarScenarioStatement` | main.py:84-93 | range `(20, 80)` with the nine listed intervals and type `"car"` validates as given, keeps `21-30, 31-40, 41-50, 61-70, 71-80` and binds `["car", 20, 80]` |
| `Controllers.CarScenarioColumnNames` | main.py:84-93 | the car scenario's statement declares exactly the names `21-30, 31-40, 41-50, 61-70, 71-80`, in order |
| `Text.NatToStringRoundTrip` | src/repositories/vehicle_repository.py:34 | the decimal text of a natural parses back to that natural |
| `Text.NatToStringInjective` | src/repositories/vehicle_repository.py:34 | distinct naturals get distinct decimal texts |
| `Text.NatToString` | src/repositories/vehicle_repository.py:34 | the decimal text of an endpoint is canonical, as `str` writes it: a non-empty run of digits, one digit long exactly below ten, and starting with `0` only for zero |
| `Text.ParseNatRendered` | src/repositories/vehicle_repository.py:34 | every canonical numeral is the rendering of the number it denotes, so with the round trip the rendering of each endpoint is fixed character for character |
| `Text.ReadNatOf` | src/repositories/vehicle_repository.py:34 | a rendered number followed by a non-digit reads back as that number and the text after it |
| `Text.QuotedNamesJoin` | src/repositories/vehicle_repository.py:33 | joining parts that each end in one quoted name yields those names in order, followed by the names of the text after them |
| `Text.JoinEmpty` | src/repositories/vehicle_repository.py:33 | a join of nonempty parts is empty iff there are no parts |
| `SqlText.ConditionTextsAligned` | src/repositories/vehicle_repository.py:65-71 | `vehicle_type = ?` has one placeholder and `distance BETWEEN ? AND ?` has two |

## Left out

- `src/database/connection.py` is not part of this model: DuckDB file I/O and connection handling. The executor is a function parameter that returns a frame or raises with a cause.
  - Because of this, the connection layer's own wrapping of the cause ("Query execution failed: …") is not modelled. The message is `"Custom query failed: "` followed by whatever cause the executor reports.
- SQL evaluation is not modelled: `ROUND`, `NULLIF`, `SUM`/`COUNT` and the floating-point percentages are computed by the database. The model fixes the statement text and the parameters, not the numbers they produce.
- pandas frames are a list of column names plus an abstract sequence of rows.
- `main.py` only prints. Its two request scenarios are stated as lemmas, and the printing is left out.
- `src/controllers/app_controllers.py` only stores the query manager, so it is not modelled.
- `src/utils/exceptions.py` holds two empty exception classes, `DatabaseConnectionError` and `QueryExecutionError`. `QueryExecutionError` becomes a datatype; `DatabaseConnectionError` is raised only by the connection layer, which is left out. `StatsError` is the model's own union of the two errors the controller can pass on, pydantic's `ValidationError` and `QueryExecutionError`.
- Pydantic's coercion of strings, floats or booleans into integers, and its type errors for malformed tuples, are not modelled. Inputs are already-typed integers and strings.
- Pydantic ignores keys it does not know, so a misspelt field name silently leaves that field at its default. `RawRequest` has only the three known fields, so such a request is not expressible.
- Pydantic also accepts an enum member itself as `vehicle_type`, not only its wire string. The model takes only the string form, which is how the code is called.
- `VehicleValidations.RangeErrors` gives one error per failing field. Pydantic may list one entry per negative tuple component, so the model's error list is coarser than pydantic's `errors()` list.
- `VehicleValidations.IntervalErrors` reports one offending interval: the first with a negative bound, otherwise the first with `min >= max`. Pydantic lists every negative component; its validator, like the model, stops at the first interval with `min >= max`.
- `VehicleValidations.Validate` models only the one error class the code raises, pydantic's `ValidationError`. Separate error names for a bad range, a bad interval or an unknown type do not exist in the code; the model tags the cause inside one error type.
- Pydantic does not validate `default_factory` values, so the validators never see the defaults. The model substitutes them unvalidated too, and `DefaultsValid` shows that they would pass anyway.
