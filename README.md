# Ideal-function curve matcher: a Dafny model

The program matches noisy data against a fixed catalogue of 50 "ideal"
functions. A training table (x, y1..y4) and an ideal table (x, y1..y50) share
one x grid. For each training column the program picks the ideal column with
the smallest sum of squared errors (SSE). Then it maps each test point (x, y)
onto the best of the four chosen ideal functions. A chosen function qualifies
for a point when the point's deviation from it is at most the largest training
deviation of that pair times √2.

The repository also has loader classes, one per table. The training, ideal
and results loaders validate their input before storing it in the database;
the test loader validates its table before returning it as a list of (x, y)
records. `run_assignment`, the program's driver, does not use them: it reads
the CSV files directly and writes the tables and the results without
validating anything.

The model has six modules:

- `Wrappers`: `Option`, `Result` and `Outcome`.
- `Processors` (processors.py): the SSE and the threshold, as pure functions
  with lemmas.
- `Tables`: rows `(x, ys)` and column extraction, shared by the two stages.
- `Selection` (mains.py, lines 40-52): the best-fit scan, written as nested
  loops and proved against `IsBestFit`.
- `Mapping` (mains.py, lines 56-75): the per-point scan and the row loop,
  written as loops. They are proved against the specification functions
  `PointOutcome` and `Mapped`, and lemmas state what a record means.
- `DataLoader` (data_loader.py): the `validate_data` loops of the four loaders,
  the empty-list shortcut of `ResultsDataLoader.load_data` and the range guard of
  `get_function_data`. Each loop is proved equal to a specification function,
  and lemmas give its accept condition.

Modelling choices:

- Floating-point values are reals.
- The `float('inf')` start values of `min_sse` and `min_deviation` are `None`.
- The `selected_ideals` dict becomes a sequence of four ideal column numbers.
  Entry `i` belongs to training column `y<i+1>`.
- `np.sqrt(2)` is the constant `Sqrt2`, the binary64 value written out exactly.
  This keeps the threshold linear in the largest deviation.
- A test x that no ideal row carries makes `.values[0]` raise. The exception
  escapes `run_assignment` as a `DataValidationError`, so the whole run fails.
  The model returns `UnknownX` for the first such point and produces no records
  at all. Per-point recovery, with the other points continuing, is not what
  the code does.

## Model

| member | source | states |
|---|---|---|
| Processors.Sse | processors.py:17-20 | the sum of squared differences of two aligned series is non-negative |
| Processors.SseSelf | test_logics.py:10-15 | the SSE of a series with itself is 0 |
| Processors.SseSymmetric | processors.py:20 | the SSE is the same with its two arguments swapped |
| Processors.SseAppend | processors.py:20 | extending both series by one aligned pair adds exactly that pair's squared difference |
| Processors.MaxAbsDiff | processors.py:23 | np.max(np.abs(a - b)) is non-negative |
| Processors.MaxAbsDiffIsMaximum | processors.py:23 | the maximum bounds every absolute pointwise difference and is attained by one of them |
| Processors.Sqrt2Approximation | processors.py:24 | the √2 factor lies in (1, 2) and squares to 2 within 3e-16 |
| Processors.Threshold | processors.py:21-24 | get_threshold is at least the largest absolute pointwise difference, which is non-negative |
| Processors.ThresholdIsScaledMaximum | processors.py:21-24 | the threshold is the largest absolute difference times √2; every pointwise deviation is within it; it is non-negative and zero exactly when the series are equal |
| Processors.ThresholdOfSinglePair | test_logics.py:17-24 | one pair with difference 2.0 gives the threshold 2·√2 |
| Tables.Column | mains.py:47 | the series df['y<n>'] has one value per row, the n-th y-value of that row |
| Selection.ColumnSse | mains.py:47 | the SSE of training column y<i> against ideal column y<j> is non-negative, and zero when the ideal column reproduces the training column row by row |
| Selection.BestFit | mains.py:42-50 | the scan over y1..y50 returns a column whose SSE no other column beats, the lowest-numbered such column on a tie |
| Selection.SelectIdeals | mains.py:40-52 | one best fit per training column y1..y4, in order |
| Selection.BestFitUnique | mains.py:48-50 | the strict-improvement rule makes the best fit unique |
| Selection.SelectionDetermined | mains.py:40-52 | the selection is determined by the tables, and every chosen number lies in 1..50 |
| Mapping.FirstRowAt | mains.py:64 | the row lookup finds the first row whose x equals the test x, and finds none exactly when no row has that x |
| Mapping.Deviation | mains.py:64-65 | abs(y - ideal_y) for the selected ideal column at the looked-up row: non-negative and equal to the difference or its negation |
| Mapping.SelectionThreshold | mains.py:67 | the threshold of a training column and its selected ideal column is non-negative |
| Mapping.Qualifies | mains.py:69 | a selection qualifies when its deviation is at most its threshold; a deviation equal to the threshold qualifies |
| Mapping.CandidateAt | mains.py:64-67 | what the scan sees of selection s is abs(y - ideal_y), the selection's threshold and its ideal number |
| Mapping.ScanStep | mains.py:69-72 | one step of the scan keeps "nothing qualified yet" or "b is the best so far", replacing b only by a qualifying selection with a strictly smaller deviation |
| Mapping.BestUnique | mains.py:69-72 | at most one candidate is the best qualifying one |
| Mapping.BestAmongExists | mains.py:69-72 | when some selection qualifies, a best one (minimum deviation, earliest on a tie) exists |
| Mapping.BestCandidate | mains.py:60-72 | no best candidate exactly when none qualifies; otherwise the one with the minimum deviation, earliest on a tie |
| Mapping.PointOutcome | mains.py:60-75 | what one row iteration appends: a record carries the point's x and y, a non-negative delta_y and one of the four selected ideal numbers |
| Mapping.Recorded | mains.py:74-75 | a point adds at most one record, and every record it adds carries its x and y, a non-negative delta_y and a selected ideal number |
| Mapping.Mapped | mains.py:56-75 | test_results_list after the row loop holds no more records than test points, each with a non-negative delta_y and a selected ideal number |
| Mapping.PointOutcomeOfBest | mains.py:60-75 | the best qualifying selection is the one recorded for the point |
| Mapping.RecordedMatch | mains.py:65-75 | a record carries the point's x and y; delta_y is ≥ 0, equals the deviation of the selection it names, is within that selection's threshold, is the minimum over qualifying selections and is strictly below that of every earlier qualifying one; the ideal number lies in 1..50 |
| Mapping.UnmatchedPoint | mains.py:69-75 | a point gets no record exactly when its deviation exceeds the threshold of all four selections |
| Mapping.MapPoint | mains.py:59-75 | the per-point scan fails exactly when the x is unknown, and otherwise yields the point's outcome |
| Mapping.MappedConcat | mains.py:58-75 | the records of a concatenation are the records of its parts in order, so each point contributes independently |
| Mapping.MappedSnoc | mains.py:58-75 | one more known point appends exactly that point's records |
| Mapping.MappedRecordsFromPoints | mains.py:56-75 | there are no more records than test points, and every record is the outcome of some test point |
| Mapping.MappedPrefix | mains.py:58-75 | the records of the first i + 1 points extend those of the first i by point i's records |
| Mapping.MapTestPoints | mains.py:56-75 | the row loop succeeds exactly when every test x is known, then returns the mapped records; otherwise it reports the first unknown x |
| Mapping.RunAssignment | mains.py:37-75 | selection then mapping: the selection is the best-fit selection and the result is the mapping against it |
| DataLoader.Lower | data_loader.py:143 | col.lower() keeps the length, leaves no upper-case ASCII letter, maps each of A..Z to its lower-case letter and keeps every other character |
| DataLoader.Lowered | data_loader.py:143 | data_columns_lower has one entry per column, in order, each the lower-cased name and already in lower case |
| DataLoader.YNames | data_loader.py:252 | required_y_columns is fifty pairwise different names, entry i being 'y' followed by the decimal digits of i + 1 |
| DataLoader.YNamesSpelling | data_loader.py:252 | the required ideal columns are spelled y1..y9, y10..y50 |
| DataLoader.FirstAbsent | data_loader.py:144-148 | none is reported exactly when all required names are present; otherwise the first absent one in order |
| DataLoader.FirstAbsentAt | data_loader.py:144-148 | the name where the loop stops is the first absent one |
| DataLoader.Absent | data_loader.py:253-256 | the missing list holds exactly the required names that are absent |
| DataLoader.AbsentEmptyIff | data_loader.py:253-258 | the missing list is empty exactly when no required name is absent |
| DataLoader.RequireColumns | data_loader.py:143-148 | the loop passes exactly when every required name matches a lower-cased column, and otherwise names the first one that does not |
| DataLoader.TrainingValidation | data_loader.py:140-154 | the training validator fails only with a missing column (one of x, y1..y4, reported with the frame's column names), a KeyError, or the training null-value error |
| DataLoader.ValidateTraining | data_loader.py:140-154 | the training validator returns the outcome of the case-insensitive column check and then the null check |
| DataLoader.TrainingAcceptsIff | data_loader.py:140-154 | accepts exactly when x, y1..y4 are present in some letter case and exactly, and hold no null; a missing column is the first missing one in the order x, y1..y4 |
| DataLoader.LowerColumns | data_loader.py:175 | lower-casing keeps the number of columns and the cells |
| DataLoader.LowerIdempotent | data_loader.py:175 | lower-casing twice is lower-casing once |
| DataLoader.LowerColumnsNames | data_loader.py:175 | after lower-casing, a column's exact name and its lower-cased name coincide, and the names are the original names lower-cased |
| DataLoader.LoadedTrainingFrame | data_loader.py:172-178 | on the lower-cased frame that load_data validates, the exact-name selection never misses, and the validator accepts exactly when x, y1..y4 occur in some letter case and hold no null |
| DataLoader.LoadedTestFrame | data_loader.py:412-418 | on the lower-cased frame that the test loader validates, the exact-name selection never misses, and the validator accepts exactly when x and y occur in some letter case and hold no null |
| DataLoader.HasNullIn | data_loader.py:151 | a null among the selected columns is a null of the frame; selecting no name finds none; selecting every column is the whole-frame check |
| DataLoader.AnyNull | data_loader.py:265 | the whole-frame null check holds exactly when some row holds a null, which needs at least one row and one column |
| DataLoader.NullCheck | data_loader.py:151-152 | passes exactly when every required name is an exact column name and those columns hold no null; otherwise either a KeyError naming exactly the names with no exact match, or the loader's null-value error |
| DataLoader.TestValidation | data_loader.py:381-394 | the test validator fails only with a missing column (x or y, reported with the frame's column names), a KeyError, or the test null-value error |
| DataLoader.ValidateTest | data_loader.py:381-394 | the test validator returns the outcome of the column check for x and y and then the null check |
| DataLoader.TestAcceptsIff | data_loader.py:381-394 | accepts exactly when x and y are present in some letter case and exactly, and hold no null |
| DataLoader.Message | data_loader.py:258-262 | the message is blank exactly when at most five columns are missing; otherwise it shows the first five missing names and the count of the rest |
| DataLoader.MissingIdealColumns | data_loader.py:252-256 | the loop builds exactly the absent names among y1..y50, in that order |
| DataLoader.IdealValidation | data_loader.py:246-268 | the ideal validator fails only with the missing-x error, the missing y-columns error or the ideal null-value error, and checks x first |
| DataLoader.ValidateIdeal | data_loader.py:246-268 | the ideal validator returns the outcome of the x check, the y1..y50 check and the whole-frame null check |
| DataLoader.IdealAcceptsIff | data_loader.py:246-268 | accepts exactly when x and all of y1..y50 are present in some letter case and no cell is null |
| DataLoader.IdealMissingMessage | data_loader.py:258-262 | with x present and one to five y-columns missing the message is blank; with more it holds the first five and the rest's count |
| DataLoader.ItemError | data_loader.py:454-466 | no error exactly when the element is a dict with x, y, delta_y and ideal_func_number and 1 ≤ ideal_func_number ≤ 50; an error carries the element's index, a missing key is the first required key the dict lacks, and an out-of-range error carries the element's ideal_func_number |
| DataLoader.ResultsValidationFrom | data_loader.py:453-466 | passes exactly when no element from the start index on is faulty; otherwise reports the error of the first faulty one |
| DataLoader.ResultsValidation | data_loader.py:451-468 | the results validator fails only with a not-a-dict, missing-key or out-of-range error, and that error carries the index of an element of the list |
| DataLoader.ValidateResults | data_loader.py:451-468 | the nested loops return the outcome of the results check |
| DataLoader.ResultsAcceptIff | data_loader.py:451-468 | accepts exactly when every element is a dict with x, y, delta_y and ideal_func_number, and 1 ≤ ideal_func_number ≤ 50 |
| DataLoader.LoadResults | data_loader.py:488-492 | an empty list gives 0 without validating; otherwise it fails exactly when validation fails, and on success counts every element |
| DataLoader.FunctionData | data_loader.py:348-354 | fails exactly when the function number is outside 1..50; otherwise one (x, y<n>) pair per record, in order |

## Left out

- Reading CSV files, the database session, queries, commits and rollbacks, and
  `to_sql`. These are I/O. The test table arrives as a sequence of points, and
  `FunctionData` takes the records in the order the query returns them.
- The console messages of `run_assignment`. They are output only.
- models.py is not part of this model. It holds ORM table declarations. Its
  1..50 guard in `get_y_value` is the same guard `FunctionData` checks.
- visualization.py is not part of this model. It renders charts.
- IEEE-754 behaviour: rounding of the SSE sum and of the threshold product,
  and NaN and infinity propagation.
- Pandas index alignment: on series of different lengths, `train_y - ideal_y`
  is NaN only at the rows one of the tables lacks. `Series.sum` and
  `Series.max` skip NaN, so the program then scores the rows the two tables
  share and still returns a number. The model does not cover that case: it
  requires the training and ideal tables to have the same number of rows.
- Processors.MaxAbsDiff: empty series are excluded by a precondition.
  `np.max` raises `ValueError` on an empty array. `run_assignment` cannot
  reach that case, because the x lookup fails first on an empty ideal table.
- Processors.Threshold: empty series are excluded, as for `MaxAbsDiff`.
  `Sqrt2` is the exact value of the binary64 number
  `np.sqrt(2)`, but the product with it is computed exactly and not rounded.
- Mapping.RecordedMatch: `ideal_function_no` is the ideal column number rather
  than the string `'y<n>'` the source stores. The two are in one-to-one
  correspondence.
- Recording uses the key `ideal_function_no`, while `ResultsDataLoader`
  expects `ideal_func_number`. The two stages are modelled separately, each
  with its own key, and nothing connects them.
- Python's `str.lower` covers all of Unicode. `Lower` lower-cases ASCII
  letters only.
- DataLoader.ItemError: the values of a result dict are numbers. A
  non-numeric `ideal_func_number`, whose comparison raises `TypeError`, is not
  modelled.
- DataLoader.NullCheck: pandas' `KeyError` when a required name exists only in
  another letter case becomes `ColumnsNotFound`, carrying the missing exact
  names. Its message text is not modelled. The training and test `load_data`
  paths lower-case the names first and never reach it, as `LoadedTrainingFrame`
  and `LoadedTestFrame` show. The ideal loader has no exact-name selection.
- The contents of the "Found columns" messages are not modelled. The error
  carries the column list instead.
- The `DataProcessor` base class and its `data` field. They have no
  behaviour.
- The threshold is recomputed for each test point, as in the source. It
  depends only on the tables and the selection, so the result is the same as
  computing it once.
