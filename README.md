# FeatureEngineer: a verified model of the claims feature pipeline

This project models, in Dafny, the `FeatureEngineer` class of the DoctorRight
repository. The class holds one working table of healthcare claims, one row
per claim: a `patient_id`, a `claim_statement_from_date` and the list
`claim_all_diagnosis_codes` of diagnosis records. Each operation replaces the
table with a transformed copy:

- `add_comorbidities_array` gives every claim the distinct diagnoses of the
  same patient's strictly earlier claims.
- `add_procedure_array` gives every claim a map from procedure code to date,
  built over the same strictly-earlier window. It then applies the
  `update_procedure_map` reduction to that map.
- `remove_diagnosis_codes` filters diagnosis records out by code and regroups
  the rows.
- `calculate_first_visit_and_duration` adds each patient's first visit date
  and the days elapsed since it.
- `get_min_max` reports a column's extremes.
- `add_train_test_indicator` labels every row `test` or `train` by patient.

How the model is built:

- The table is a schema (a set of column names) plus a sequence of rows
  (`Table`).
- A row's non-key cells sit in a map from column name to a typed `Cell`.
- Dates are day numbers.
- The window "partition by patient, order by date, up to the row before",
  written `partitionBy`/`orderBy`/`rowsBetween` in the source, is the
  function `Window.Frame`. It returns the indices of the same patient's
  strictly earlier rows, sorted by date. Rows with the same date are ordered
  by their position in the table.
- The session sets the map-key policy `LAST_WIN`, and the model includes it
  (`Procedures.Put`, `Procedures.MapFromArrays`): a repeated key keeps its
  first position and takes the later value.
- `FeatureEngineering.FeatureEngineer` is a class with a `columns` field and
  a `rows` field. Every transforming method replaces the table, and its
  contract states the new table as a function of the old one and says the
  schema stays consistent with the rows. `GetMinMax` only reads the table.

Consequences the proofs make explicit:

- `LAST_WIN` already leaves one entry per procedure. So the
  `update_procedure_map` reduction ("keep the latest date") returns the map
  unchanged (`Procedures.UpdatedMapEqualsProcedureDateMap`).
- Each procedure's date is therefore the date on its last earlier claim in
  window order, not necessarily the largest date
  (`Procedures.LastWinKeepsLaterClaimNotLargerDate`).
- `remove_diagnosis_codes` leaves no claim with an empty list. A claim whose
  codes are all removed disappears because `filter` drops every exploded row
  it had (`DiagnosisFilter.DropsEmptiedRows`). A claim whose list was already
  empty disappears because `explode` yields no row for an empty list. Both
  follow from `DiagnosisFilter.NoExcludedCodeRemains` (no output row has an
  empty list) and `DiagnosisFilter.GroupsAreDistinct` (a group row exists iff
  some input row of the group keeps a record). Claims that agree on every
  other column are merged into one row that keeps every surviving copy of
  their records (`DiagnosisFilter.MergesRows`,
  `DiagnosisFilter.OutputKeepsCopies`).

## Model

| member | source | states |
|---|---|---|
| Window.Frame | modules/feature_engineering/feature_engineering.py:18-19 | the window frame of a row is exactly the same patient's strictly earlier rows, in date order |
| Window.FrameSameOrderKeys | modules/feature_engineering/feature_engineering.py:35-36 | the frame depends only on patients and dates, so the columns added earlier in the operation do not change it |
| Collections.Dedup | modules/feature_engineering/feature_engineering.py:23 | `array_distinct`: no duplicates, the same elements as the input, never longer |
| Comorbidities.Flatten | modules/feature_engineering/feature_engineering.py:23 | `flatten(collect_list(...))` over a frame holds a record iff some row of the frame has it |
| Comorbidities.PreviousComorbidities | modules/feature_engineering/feature_engineering.py:21-24 | `previous_comorbidities` has no duplicates; it contains a diagnosis iff some strictly earlier claim of the patient has it; it is empty on a patient's first claim |
| Comorbidities.WithComorbidities | modules/feature_engineering/feature_engineering.py:14-28 | the table keeps its rows and columns and gains `previous_comorbidities`, row by row |
| Comorbidities.HistoryAccumulates | modules/feature_engineering/feature_engineering.py:18-24 | what is recorded before a claim, plus that claim's own diagnoses, is recorded before every later claim of the patient |
| Procedures.FilteredCells | modules/feature_engineering/feature_engineering.py:39-45 | `filtered_procedure` and `filtered_date` (built from the `isNotNull` test `Procedures.Pair`, whose two cases `Procedures.PairIffBothPresent` spells out) are non-null exactly when both source cells are present, and then copy them |
| Procedures.CollectList | modules/feature_engineering/feature_engineering.py:51-52 | `collect_list` skips nulls: never longer than the frame, holds no null, and holds every non-null cell of the frame |
| Procedures.Contributors | modules/feature_engineering/feature_engineering.py:51-52 | the rows `collect_list` keeps are those of the frame carrying a pair, in frame order |
| Procedures.ContributorsInWindowOrder | modules/feature_engineering/feature_engineering.py:51-52 | skipping the rows without a pair keeps the frame's window order |
| Procedures.CollectedListsAligned | modules/feature_engineering/feature_engineering.py:50-53 | the two collected lists are the codes and the dates of the same pairs, position by position |
| Procedures.CollectedListsHaveEqualLength | modules/feature_engineering/feature_engineering.py:50-53 | the two arrays handed to `map_from_arrays` have equal length, so it never fails |
| Procedures.WindowListsAligned | modules/feature_engineering/feature_engineering.py:39-53 | in the output table, the lists collected over each row's frame are the codes and dates of that frame's pairs |
| Procedures.Put | modules/spark_session/spark_session.py:21 | the LAST_WIN builder's insertion holds the inserted entry, and grows by one entry exactly when the key is new |
| Procedures.PutKeys | modules/spark_session/spark_session.py:21 | the LAST_WIN builder's keys after an insertion are the old keys plus the new one |
| Procedures.PutKeepsKeysUnique | modules/spark_session/spark_session.py:21 | the LAST_WIN builder never holds a key twice |
| Procedures.PutUpdatesMap | modules/spark_session/spark_session.py:21 | inserting under LAST_WIN overwrites the key's value as a dictionary assignment does |
| Procedures.LastWinEntries | modules/spark_session/spark_session.py:21 | the entries built from a pair list have unique keys, the pairs' keys, and the values of the last write per key |
| Procedures.MapFromArrays | modules/feature_engineering/feature_engineering.py:50-53 | `map_from_arrays` under LAST_WIN: unique keys, exactly the given keys, each with the value at its last position |
| Collections.AsMapKeys | modules/spark_session/spark_session.py:21 | the dictionary read from an entry list has exactly the listed keys |
| Collections.AsMapLastWinsAt | modules/spark_session/spark_session.py:21 | the last entry with a key gives that key's value |
| Collections.AsMapLastWins | modules/spark_session/spark_session.py:21 | the dictionary read from an entry list has the listed keys, and each maps to the value of its last entry |
| Procedures.LatestPerKeyKeys | modules/feature_engineering/feature_engineering.py:60-63 | the reduction keeps exactly the keys seen |
| Procedures.LatestPerKeyIsMaxAt | modules/feature_engineering/feature_engineering.py:61-63 | for one key, the reduction's value is the largest date seen for it and is paired with it |
| Procedures.LatestPerKeyIsMax | modules/feature_engineering/feature_engineering.py:60-64 | the loop's dictionary `Procedures.LatestPerKey` keeps exactly the keys seen, each with the largest date seen for it |
| Procedures.UpdateProcedureMap | modules/feature_engineering/feature_engineering.py:57-64 | an absent or empty map gives `{}`; otherwise the loop's result is `Procedures.LatestPerKey` of the items, so it has the input's keys, each with its largest date |
| Procedures.LatestPerKeyOfUniqueKeys | modules/feature_engineering/feature_engineering.py:61-63 | on a map whose keys are unique the reduction returns the map itself |
| Procedures.LatestPerKeyIdempotent | modules/feature_engineering/feature_engineering.py:57-64 | running the reduction again over its own output, in any order, changes nothing |
| Procedures.ProcedureEntries | modules/feature_engineering/feature_engineering.py:48-54 | a row's `procedure_date_map` has unique keys and equals the dictionary of its frame's pairs, last write winning |
| Procedures.ProcedureDateMap | modules/feature_engineering/feature_engineering.py:48-54 | a row's `procedure_date_map` is the dictionary of its frame's pairs, inserted in window order |
| Procedures.ProcedureDateMapKeys | modules/feature_engineering/feature_engineering.py:48-54 | the map's keys are exactly the procedures of the patient's strictly earlier claims that have both a code and a date |
| Procedures.LastCarrierIsLastPair | modules/feature_engineering/feature_engineering.py:48-54 | the pair of the last earlier claim carrying a procedure is the last entry with that code among the frame's pairs |
| Procedures.ProcedureDateMapLastWins | modules/feature_engineering/feature_engineering.py:48-54 | each key maps to the date on the last earlier claim in window order that carries it |
| Procedures.UpdatedProcedureDateMap | modules/feature_engineering/feature_engineering.py:70-73 | a row's `updated_procedure_date_map` has the keys of its `procedure_date_map`, each with the largest date listed for it |
| Procedures.UpdatedMapEqualsProcedureDateMap | modules/feature_engineering/feature_engineering.py:70-73 | `updated_procedure_date_map` equals `procedure_date_map` on every row |
| Procedures.LastWinKeepsLaterClaimNotLargerDate | modules/feature_engineering/feature_engineering.py:50-64 | for codes `[P, P]` with dates `[10, 5]` the map holds `P -> 5` and the reduction keeps 5, whereas the reduction over the raw pairs would keep 10 |
| Procedures.ProcedureArrayRow | modules/feature_engineering/feature_engineering.py:39-73 | one row gains the four columns: the filtered cells, and both maps equal to its `procedure_date_map` |
| Procedures.WithProcedureArray | modules/feature_engineering/feature_engineering.py:30-78 | the table keeps its rows and columns and gains the four columns, row by row |
| DiagnosisFilter.Surviving | modules/feature_engineering/feature_engineering.py:90-92 | a record survives the filter iff its code is not in the list |
| DiagnosisFilter.SurvivingKeepsCopies | modules/feature_engineering/feature_engineering.py:90-92 | the filter keeps every copy of a record whose code is not listed and no copy of one whose code is |
| DiagnosisFilter.Gathered | modules/feature_engineering/feature_engineering.py:94-96 | a group's collected list holds exactly the surviving records of the rows with that group's other columns, each as many times as those rows hold surviving copies of it |
| DiagnosisFilter.WithoutDiagnosisCodes | modules/feature_engineering/feature_engineering.py:87-99 | the result never has more rows than the input |
| DiagnosisFilter.NoExcludedCodeRemains | modules/feature_engineering/feature_engineering.py:92 | no record with a listed code is left, and no output row has an empty list |
| DiagnosisFilter.OutputKeepsCopies | modules/feature_engineering/feature_engineering.py:94-96 | each output row holds, for every record, exactly as many copies as the surviving copies in the input rows of its group |
| DiagnosisFilter.EntriesKeepTheirRows | modules/feature_engineering/feature_engineering.py:90-96 | every output record comes from an input row with the same other columns; every record that passes the filter is kept in that row's group |
| DiagnosisFilter.GroupsAreDistinct | modules/feature_engineering/feature_engineering.py:94-96 | no two output rows agree on the other columns; a group row exists iff some input row of that group keeps a record |
| DiagnosisFilter.KeepsSchema | modules/feature_engineering/feature_engineering.py:94 | the output has the input's columns |
| DiagnosisFilter.MergesRows | modules/feature_engineering/feature_engineering.py:94-96 | two claims differing only in a removed code merge into one row holding both claims' remaining records |
| DiagnosisFilter.DropsEmptiedRows | modules/feature_engineering/feature_engineering.py:90-92 | a claim whose only code is removed disappears instead of keeping an empty list |
| FirstVisit.FirstVisitDate | modules/feature_engineering/feature_engineering.py:103-104 | `first` over the window: the date of the window's first row, never later than the row's own date |
| FirstVisit.FirstVisitIsEarliest | modules/feature_engineering/feature_engineering.py:103-104 | `first` over the window is the patient's earliest claim date, and it is the date of one of their claims |
| FirstVisit.FirstVisitPerPatient | modules/feature_engineering/feature_engineering.py:103-104 | all rows of one patient get the same first visit date |
| FirstVisit.DaysSinceFirstVisit | modules/feature_engineering/feature_engineering.py:105-106 | `days_since_first_visit`, computed by `FirstVisit.DateDiff` as `datediff(date, first_visit_date)`, is never negative, and is zero exactly on rows dated on the patient's earliest date |
| FirstVisit.FirstVisitRow | modules/feature_engineering/feature_engineering.py:103-106 | one row gains `first_visit_date` and `days_since_first_visit` and nothing else changes |
| FirstVisit.WithFirstVisit | modules/feature_engineering/feature_engineering.py:101-109 | the table keeps its rows and columns and gains both columns, row by row |
| ColumnStats.ColumnValues | modules/feature_engineering/feature_engineering.py:114-115 | the values aggregated are exactly the column's non-null integer cells |
| ColumnStats.MinMax | modules/feature_engineering/feature_engineering.py:114-115 | none iff the column has no value; otherwise both extremes occur in the column and bound every value |
| TrainTest.WithTrainTest | modules/feature_engineering/feature_engineering.py:125-130 | the table gains `train_test`, each row's cell given by `TrainTest.Label`; a row is `test` iff its patient is sampled, `train` otherwise; rows of one patient never get different labels |
| Scenario.ThirdClaimHistory | modules/feature_engineering/feature_engineering.py:18-24 | claims of patient A dated Jan 1 (D1), Feb 1 (D2), Mar 1 (D1, D3): the third claim's history is {D1, D2} |
| Scenario.FirstClaimHistory | modules/feature_engineering/feature_engineering.py:18-24 | the same patient's first claim has an empty history |
| Scenario.ThirdClaimDuration | modules/feature_engineering/feature_engineering.py:101-106 | the third claim is 60 days after the first visit |
| FeatureEngineering.FeatureEngineer.constructor | modules/feature_engineering/feature_engineering.py:7-9 | the object takes over a consistent table |
| FeatureEngineering.FeatureEngineer.AddComorbiditiesArray | modules/feature_engineering/feature_engineering.py:14-28 | the stored table becomes `WithComorbidities` of the old one, with `previous_comorbidities` added to the schema |
| FeatureEngineering.FeatureEngineer.AddProcedureArray | modules/feature_engineering/feature_engineering.py:30-78 | a missing column fails and leaves the table untouched; otherwise the table becomes `WithProcedureArray` of the old one, with four new columns |
| FeatureEngineering.FeatureEngineer.RemoveDiagnosisCodes | modules/feature_engineering/feature_engineering.py:87-99 | the stored table becomes `WithoutDiagnosisCodes` of the old one; the schema is unchanged; the row count does not grow |
| FeatureEngineering.FeatureEngineer.CalculateFirstVisitAndDuration | modules/feature_engineering/feature_engineering.py:101-109 | the stored table becomes `WithFirstVisit` of the old one, with two new columns |
| FeatureEngineering.FeatureEngineer.GetMinMax | modules/feature_engineering/feature_engineering.py:111-117 | a missing column fails; otherwise the result is the min and max of the column's values; the table is not changed |
| FeatureEngineering.FeatureEngineer.AddTrainTestIndicator | modules/feature_engineering/feature_engineering.py:119-130 | the stored table becomes `WithTrainTest` of the old one; the result is the first five rows of the new table, in the model's row order |

## Left out

- Sampling: which patients `add_train_test_indicator` samples (random, seeded, fraction `test_size`) is not modelled. The sampled list is a parameter.
- Output: `print_shape`, the printing in `get_min_max`, and the pandas conversion in `display_head` are not modelled. `get_rows_by_column_value` only reads the table for display and is not modelled.
- Session: `SparkManager`'s configuration is not modelled, except the `LAST_WIN` map-key policy. Reading the parquet file and repartitioning are not modelled either; the constructor takes the table as given.
- Physical order: the engine fixes no row order after a window or a `groupBy`. The model keeps the input order, and it lists groups in order of first appearance. The order of the records inside each regrouped `collect_list` in `remove_diagnosis_codes` is undefined too, since it follows the shuffle; the model collects them in table order, and its contracts fix only how many copies of each record the list holds (`DiagnosisFilter.Gathered`, `DiagnosisFilter.OutputKeepsCopies`).
- Procedures.UpdatedProcedureDateMap: the UDF declares `MapType(StringType(), StringType())`, so the engine renders its dates as text. The model keeps them as day numbers.
- Procedures.Pair: a procedure cell counts as present only when it holds text, and a date cell only when it holds a date. Other kinds of cell are treated like null.
- Key columns: `patient_id`, `claim_statement_from_date` and `claim_all_diagnosis_codes` are assumed to be present and never null. Null diagnosis records inside the list, and records whose `diagnosis_code` is null, are not modelled: `~isin` on a null code gives null, so `filter` drops such a record even when its code is not listed, and the model has no null code to drop.
- DiagnosisFilter.WithoutDiagnosisCodes: the engine refuses to group on map-typed columns, so calling `remove_diagnosis_codes` after `add_procedure_array` fails. The model groups on any cell.
- ColumnStats.ColumnValues: only integer-valued cells (dates and counts) are aggregated. The engine's min and max over text or array cells are not modelled.
- FeatureEngineering.FeatureEngineer.AddTrainTestIndicator: `display_head` is `limit(5)` on an unordered, repartitioned table, so which five rows come back is not defined. The model returns the first five rows in its own row order.
- Concurrency and the engine's lazy evaluation are not modelled.
