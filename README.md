# Range-query engine of csv_to_db, modelled in Dafny

The repository ingests sensor exports into a Parquet dataset partitioned by
plant, machine, year and month, and reads it back with a range query. This
project models the query side in its two revisions:

- `fetch_sensor_data.py`, `load_sensor_data`: scans the whole dataset with a
  filter `start <= Datetime <= end` (both ends inclusive), plus an equality on
  `plant_name` and on `machine_no` when those arguments are truthy. It then
  widens every integer column except `year` and `month` to float64.
- `libs/fetch_sensor_data.py`, `load_dataset`: scans one plant's dataset. The
  filter starts from the constant `True`. It adds a `machine_no` equality, and
  for each bound a year/month partition-pruning conjunct plus the
  second-level `Datetime` comparison. An optional column projection always
  prepends `Datetime`, keeps the requested columns that exist in request order
  (duplicates included), and reports the missing ones as a warning. Polars
  rejects a selection that names a column twice, so such a request (including
  one that also asks for `Datetime`) fails.

Files:

- `wrappers.dfy`: `Option` and `Result`.
- `timestamps.dfy`: a naive timestamp, down to the nanosecond, as a record
  ordered lexicographically by its fields. The dataset's `Datetime` column may
  be finer than a Python datetime; every query bound has nanosecond 0. Includes the total-order lemmas and the normalisation of a
  text-or-datetime argument.
- `expressions.dfy`: dataset rows, the filter expressions the engine builds,
  their evaluation, and the filtered scan (`FilterRows`).
- `sensor_query.dfy`: the first revision.
- `dataset_loader.dfy`: the second revision, with the pruning-soundness lemmas
  and the projection.

`_to_datetime` (fetch_sensor_data.py:11-15) and `_to_dt`
(libs/fetch_sensor_data.py:7-8) agree on the two argument kinds the queries
accept: text and a datetime. Both are modelled by `Timestamps.ToDatetime`.
ISO-8601 parsing (`datetime.fromisoformat`) is a parameter
`parse: string -> Option<Timestamp>`. `None` stands for the `ValueError` it
raises, which the model returns as `Failure(InvalidIsoFormat(text))`. The
dataset is a parameter too: its rows and its schema (or column names) are
given, since directory discovery and file reading happen in pyarrow.

## Model

| member | source | states |
|---|---|---|
| Timestamps.ToDatetime | fetch_sensor_data.py:11-15 | a datetime argument is returned unchanged; only text is parsed, and text that does not parse is an error naming it |
| Timestamps.ToDatetimeIdempotent | libs/fetch_sensor_data.py:7-8 | once normalised, normalising again (with any parser) returns the same datetime |
| Timestamps.LeReflexive | fetch_sensor_data.py:57-60 | datetime comparison is reflexive, so a bound equal to a row's `Datetime` admits it |
| Timestamps.LeTransitive | fetch_sensor_data.py:57-60 | datetime comparison is transitive |
| Timestamps.LeTotal | fetch_sensor_data.py:57-60 | any two datetimes are comparable |
| Timestamps.LeAntisymmetric | fetch_sensor_data.py:57-60 | two datetimes each `<=` the other are equal |
| Timestamps.SubMicrosecondLater | fetch_sensor_data.py:57-60 | a timestamp equal to a datetime down to the microsecond with a positive nanosecond part is strictly after it |
| Timestamps.LeYearMonth | libs/fetch_sensor_data.py:42-52 | if `a <= b` then (a.year, a.month) is not after (b.year, b.month) |
| Expressions.FilterRows | fetch_sensor_data.py:66 | the filtered scan never returns more rows than the dataset holds; what it returns is stated by `FilterRowsExact` |
| Expressions.FilterRowsExact | fetch_sensor_data.py:66 | the scan returns every row satisfying the filter as often as the dataset holds it, and no other row |
| Expressions.FilterKeepsAll | libs/fetch_sensor_data.py:37 | a condition true of every row (such as the constant `True`) keeps the whole dataset |
| Expressions.FilterCongruent | libs/fetch_sensor_data.py:55 | filters that agree on every row of the dataset select the same rows |
| SensorQuery.BuildCondition | fetch_sensor_data.py:57-64 | the built filter holds of a row iff `start <= Datetime <= end`, and `plant_name == plant` when plant is neither None nor empty, and `machine_no == machine` likewise |
| SensorQuery.Promoted | fetch_sensor_data.py:69-75 | promotion keeps field count, names and order; leaves non-integer fields and `year`/`month` unchanged; widens every other integer field to float64; so no integer field remains except `year`/`month` |
| SensorQuery.PromoteSchema | fetch_sensor_data.py:69-74 | the loop appends, field by field, exactly the promoted schema |
| SensorQuery.PromotedIdempotent | fetch_sensor_data.py:26-29 | promoting an already promoted schema changes nothing |
| SensorQuery.PartitionSchemaKept | fetch_sensor_data.py:35-42 | the declared partition columns keep their types: `year` int16, `month` int8, plant/machine strings |
| SensorQuery.LoadSensorData | fetch_sensor_data.py:17-77 | an unparsable start (checked first) or end is an error; otherwise the rows are exactly the selected rows of the dataset with their multiplicities, and the schema is the promoted schema |
| SensorQuery.ReversedRangeSelectsNothing | fetch_sensor_data.py:57-60 | a range with start after end selects no row |
| SensorQuery.BoundsInclusive | fetch_sensor_data.py:57-60 | a row whose `Datetime` equals either bound is selected |
| SensorQuery.SubMicrosecondAfterEndExcluded | fetch_sensor_data.py:59 | a row a few nanoseconds after the end bound is not selected |
| DatasetLoader.Bound | libs/fetch_sensor_data.py:40-41 | a bound that is None or the empty string is absent; a datetime is used as is; text is parsed or is an error |
| DatasetLoader.StartPruneExpr | libs/fetch_sensor_data.py:42-45 | the start's year/month expression holds of a row iff its `StartPrune` condition on (year, month) does |
| DatasetLoader.EndPruneExpr | libs/fetch_sensor_data.py:49-52 | the end's year/month expression holds of a row iff its `EndPrune` condition does |
| DatasetLoader.BuildCondition | libs/fetch_sensor_data.py:37-53 | an unparsable given start (checked first) or end is an error; otherwise the condition holds of a row iff the machine filter, each given bound's pruning conjunct and its inclusive `Datetime` comparison hold; with no filter at all it is the literal `True` |
| DatasetLoader.StartPruneSound | libs/fetch_sensor_data.py:42-46 | a row stored under its own year/month with `Datetime >= start` passes the start's pruning conjunct |
| DatasetLoader.EndPruneSound | libs/fetch_sensor_data.py:49-53 | a row stored under its own year/month with `Datetime <= end` passes the end's pruning conjunct |
| DatasetLoader.PruningExact | libs/fetch_sensor_data.py:37-53 | on such a row the condition with pruning holds iff the plain machine-and-range condition does (both directions) |
| DatasetLoader.PruningNeedsConsistentPartitions | libs/fetch_sensor_data.py:20-31 | a row whose partition year is not its `Datetime`'s year can be dropped although its `Datetime` is in range |
| DatasetLoader.ScanWithPruningEqualsRangeScan | libs/fetch_sensor_data.py:37-55 | on a consistently partitioned dataset the pruned scan returns the same rows as the plain range scan |
| DatasetLoader.StartPruneLeadingTermRedundant | libs/fetch_sensor_data.py:42-45 | `year > start.year - 1` is implied by the disjunction after it |
| DatasetLoader.EndPruneLeadingTermRedundant | libs/fetch_sensor_data.py:49-52 | `year < end.year + 1` is implied by the disjunction after it |
| DatasetLoader.KeptColumns | libs/fetch_sensor_data.py:65 | the projection list is never longer than the request; its contents and order are stated by `KeptColumnsExact` and `KeptColumnsAppend` |
| DatasetLoader.KeptColumnsExact | libs/fetch_sensor_data.py:65 | the projection holds each existing requested column as often as requested, and nothing else |
| DatasetLoader.KeptColumnsAppend | libs/fetch_sensor_data.py:65 | the projection distributes over concatenation of requests, so request order is preserved |
| DatasetLoader.AllExistingKeptWhole | libs/fetch_sensor_data.py:65 | a request whose columns all exist is kept unchanged |
| DatasetLoader.MissingColumns | libs/fetch_sensor_data.py:61 | every missing name was requested and none of them exists; with `ColumnsAccountedFor`, every requested name that is not kept is missing |
| DatasetLoader.ColumnsAccountedFor | libs/fetch_sensor_data.py:60-65 | every distinct requested name is either kept or reported missing, never both |
| DatasetLoader.NoneMissingIffAllKept | libs/fetch_sensor_data.py:61-65 | the missing set is empty iff the projection keeps the whole request |
| DatasetLoader.SelectColumns | libs/fetch_sensor_data.py:57-66 | with a non-empty request the columns are the existing entries of `["Datetime"] + request` in order and the missing set is the rest; a warning is raised iff that set is non-empty; every selected column exists and `Datetime` comes first when it exists; with None or an empty list, all columns and no warning |
| DatasetLoader.RepeatedColumn | libs/fetch_sensor_data.py:66 | finds a name the selection list holds at least twice, and finds none exactly when its names are distinct |
| DatasetLoader.DatetimeRequestedTwice | libs/fetch_sensor_data.py:58 | if the caller also asks for an existing `Datetime`, the projection holds it twice, so its names are not distinct |
| DatasetLoader.LoadDataset | libs/fetch_sensor_data.py:10-68 | parse errors as in the condition come first; then a projection naming an existing column twice fails with that name; otherwise the rows are exactly the rows the condition keeps, with their multiplicities, projected as `SelectColumns` says, with distinct column names; with no machine and no bounds the whole dataset comes back |

## Left out

- ISO-8601 parsing by `datetime.fromisoformat` is a library call; it is a parameter of the model.
- Arguments of other types than text or a datetime, where `_to_datetime` and `_to_dt` would differ (one returns the value, the other raises), are not modelled.
- Time zones: timestamps are naive; comparing naive and aware datetimes (a `TypeError` in Python) is not modelled.
- Opening the dataset (`ds.dataset`, `ds.partitioning`, the path `root / plant_name`), directory discovery and the file layout are left to pyarrow; the model takes the dataset's rows and schema as given, with `year`/`month` as read from the directories.
- Lazy scanning, push-down and `collect`/`to_table`/`pl.from_arrow` are represented only by the meaning of the filter (`FilterRows`, `FilterRowsExact`); null values in filtered columns are not modelled.
- The value-level int-to-float64 cast (`table.cast`) is floating point; only the column-type change is modelled.
- The `print` warning in `load_dataset` is I/O; the model returns the missing set and a `warned` flag instead.
- The missing-columns warning printed before a selection is rejected for a repeated name is not part of the `DuplicateColumn` failure; which of several repeated names polars reports is not modelled (the model names one of them).
- Row order of results is not specified by either revision. The model's dataset is a sequence in the order the scanner yields its rows, and the scan keeps that order. Contracts that equate row sequences (`FilterKeepsAll`, `FilterCongruent`, `ScanWithPruningEqualsRangeScan`, and `LoadDataset` with no filter) hold relative to that yield order. The other contracts speak of multiplicities only.
- Filtering on a column the dataset lacks (an error raised by the scanner) is not modelled: every row carries `Datetime`, `plant_name`, `machine_no`, `year` and `month`.
- main.py and the ingestion, catalog and ledger code it calls (`libs/csv_to_db.py`) are not part of this model.
