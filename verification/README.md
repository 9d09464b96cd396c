# Cogi-Defect core, modelled in Dafny

Cogi-Defect turns AOI (automated optical inspection) defect exports into a
SQLite database and shows them on a Streamlit dashboard. It also has an
Action Tracker page for quality issues. This project models the logic under
that plumbing and proves what it guarantees:

- **Outcome tables** (`Outcomes`). The counts of `False call`, `Overridden`
  and `Reworkable` rows of one (SerialNumber, Ref_Id, DefectCode) key decide
  an outcome. There are two tables: the four-way `classify` and the
  three-way first-match table of `assign_outcome`. The model proves both
  tables and the single count pattern on which they disagree.
- **Loop collapse** (`Loops`, `AoiClassify`, `DefectStatus`). Raw inspection
  rows are counted per key and status. The three disposition columns are
  added at 0 when absent, and the rows are labelled. Unlabelled rows are
  dropped, and the first non-null metadata of each key is joined back.
- **Ingestion** (`Ingest`). A `DefectStore` class holds the `defects` table:
  a column map, the rows whose primary key is complete (by key) and the rows
  whose key has a blank part. `EnsureTable` grows the column set, `Upsert`
  is `INSERT OR REPLACE` on the primary key, and `IngestFiles` processes the
  workbooks in order, stopping at the first sheet without a key or
  ReworkStatus column (a KeyError in `process_file`) with the earlier
  workbooks already committed. A blank key part reaches SQLite as NULL, and SQLite
  counts two NULLs as distinct, so such a record is appended on every
  ingest (see Findings).
- **Dashboard** (`Dashboard`, `Frames`, `Ordering`, `Dates`). Covers the
  filter mask, the sorted unique values offered for a column, the top-N
  Ref_Id chart with pin-level de-duplication, and the Daily / Weekly /
  Monthly date presets on the proleptic Gregorian calendar of Python's
  `datetime.date`.
- **Layout** (`Layout`). Sanitises the saved section order and packs
  section widths greedily into 12-column rows.
- **Action Tracker** (`Tracker`, `Issues`). Covers the date / machine / part /
  ISO-week slice, the outcome tallies, pin de-duplication and the default
  week range. It also covers `save_issue`: an `IssueStore` class holds the
  `issues` table, the id counter and the append-only `issue_changelog`.
  Submitted values are cleaned, and an update logs each changed field while
  an insert logs one "Created" entry. A row left without `date_reported`
  fails on its NOT NULL constraint, after an update's log is written. The edit form's keep-if-blank merge is
  modelled as well.

Frames are modelled as a column list and a sequence of rows, each row a map
from column name to `Cell` (null, text, number or moment). Tables keyed by
the primary key are Dafny maps. The `issues` table applies SQLite's column
type affinity to each stored value; the float formatting and numeric parsing
that involves are a parameter (`Issues.Engine`).

## Model

| member | source | states |
|---|---|---|
| Outcomes.Label | Cogi-Defect/Cogi-Defect/aoi_classify.py:40-48 | every outcome has a non-empty label string |
| Outcomes.LabelInjective | Cogi-Defect/Cogi-Defect/aoi_classify.py:40-48 | distinct outcomes carry distinct labels, so a label identifies its outcome |
| Outcomes.ClassifyFour | Cogi-Defect/Cogi-Defect/aoi_classify.py:38-48 | five if-and-only-if clauses: False exactly when f>0; Fixed exactly when f=0, r=0, o>0; Suspect exactly when f=0, r>0, o=0; Real exactly when f=0, r>0, o>0; None exactly when all three are 0 |
| Outcomes.ClassifyThree | Cogi-Defect/Cogi-Defect/aoi_defect_status.py:79-83 | first match: False exactly when f>0; Real exactly when f=0 and o>0; Suspect exactly when f=o=0 and r>0; None exactly when all are 0; never Fixed |
| Outcomes.UnclassifiedExactlyWhenNoDisposition | Cogi-Defect/Cogi-Defect/aoi_classify.py:38-48 | both tables are total and answer None exactly for the all-zero counts |
| Outcomes.TablesDisagreeOnlyOnOverriddenOnly | Cogi-Defect/Cogi-Defect/aoi_defect_status.py:79-83 | the two tables differ exactly when f=0, o>0, r=0, and there the three-way table says Real while the four-way table says Fixed |
| Loops.OccurrencesPositive | Cogi-Defect/Cogi-Defect/aoi_defect_status.py:63-66 | a (key, status) count is positive iff some input row has that key and status |
| Loops.Collapse | Cogi-Defect/Cogi-Defect/aoi_defect_status.py:63-68 | one row per distinct key and one column per status seen; every row has exactly those columns; the keys are the input's keys; each cell is the number of input rows with that key and status |
| Loops.AddZeroColumn | Cogi-Defect/Cogi-Defect/aoi_defect_status.py:72-73 | adding an absent status column gives every row that column and keeps the table well formed |
| Loops.WithColumns | Cogi-Defect/Cogi-Defect/aoi_defect_status.py:71-73 | after adding the columns, the old column values and keys are unchanged, each newly added column is 0 in every row, and the column set is the union |
| Loops.EnsureStatusColumns | Cogi-Defect/Cogi-Defect/aoi_defect_status.py:70-75 | the loop over the three status columns computes the table with all three columns present (default 0) and keeps it well formed |
| Loops.CollapsedRowCounts | Cogi-Defect/Cogi-Defect/aoi_classify.py:82-97 | after the collapse and the default columns, each row holds all three disposition columns, and its counts are its key's occurrence counts |
| Loops.CollapsedColumnCount | Cogi-Defect/Cogi-Defect/aoi_defect_status.py:63-73 | after the collapse, each status column of each row equals the number of input rows with that key and status, 0 when the status is absent |
| Loops.CollapsedKeys | Cogi-Defect/Cogi-Defect/aoi_defect_status.py:71-73 | adding the default columns keeps the rows' keys and their order |
| Loops.KeyCountsPositive | Cogi-Defect/Cogi-Defect/aoi_classify.py:82-92 | a key's three disposition counts are not all zero iff some input row of that key has one of the three statuses |
| Loops.FirstMetaDefined | Cogi-Defect/Cogi-Defect/aoi_classify.py:75-79 | a metadata column has a value for a key iff some row of the key holds that column non-null |
| Loops.FirstMetaIsFirstNonNull | Cogi-Defect/Cogi-Defect/aoi_classify.py:75-79 | `groupby().first()`: the value taken is the one in the first row of the key that holds the column non-null |
| AoiClassify.MergeMeta | Cogi-Defect/Cogi-Defect/aoi_classify.py:99-106 | the merged rows keep the kept rows' keys in order; each has its counts, the four-way label of its counts and the key's first metadata |
| AoiClassify.ClassifiedKeysUnique | Cogi-Defect/Cogi-Defect/aoi_classify.py:82-106 | the output has at most one row per (SerialNumber, Ref_Id, DefectCode) |
| AoiClassify.Classified | Cogi-Defect/Cogi-Defect/aoi_classify.py:65-106 | the pipeline of `main`: collapse, add the disposition columns, classify, drop "None", merge the metadata; `ClassifiedKeysUnique`, `ClassifiedRow` and `ClassifiedCoversKeys` state one row per key, each carrying its counts, its `classify` label and its first metadata, exactly for the keys with a disposition status |
| AoiClassify.ClassifiedRow | Cogi-Defect/Cogi-Defect/aoi_classify.py:82-106 | each output row's three disposition counts are the key's occurrence counts, its outcome is `classify` of them and never None, and its metadata is the key's first metadata |
| AoiClassify.ClassifiedCoversKeys | Cogi-Defect/Cogi-Defect/aoi_classify.py:82-103 | a key is in the output iff some input row of that key has one of the three disposition statuses |
| AoiClassify.KeptKeyHasDisposition | Cogi-Defect/Cogi-Defect/aoi_classify.py:102-103 | a row that survives the None filter has a non-zero disposition count |
| AoiClassify.ClassifiedHasKey | Cogi-Defect/Cogi-Defect/aoi_classify.py:82-103 | a key with a non-zero disposition count survives the None filter |
| AoiClassify.KeptWhenClassified | Cogi-Defect/Cogi-Defect/aoi_classify.py:102-103 | a collapsed row whose counts are not all zero is kept |
| DefectStatus.AssignOutcome | Cogi-Defect/Cogi-Defect/aoi_defect_status.py:78-84 | the output is an order-preserving subsequence of the table's rows, each labelled by the three-way table and never None, and every row with a label is kept |
| DefectStatus.StatusReport | Cogi-Defect/Cogi-Defect/aoi_defect_status.py:87-104 | `collapse_loops` then `assign_outcome`; `StatusReportRow` and `StatusReportKeysUnique` state one row per key, with the three disposition columns and its three-way label |
| DefectStatus.StatusReportRow | Cogi-Defect/Cogi-Defect/aoi_defect_status.py:61-84 | each reported row holds all three status columns, and its label is the three-way label of its key's counts |
| DefectStatus.StatusReportKeysUnique | Cogi-Defect/Cogi-Defect/aoi_defect_status.py:61-84 | the report has at most one row per key |
| DefectStatus.SuspectAndRealGuards | Cogi-Defect/Cogi-Defect/aoi_defect_status.py:80-82 | a Suspect row has f=0 and o=0; a Real row has f=0 |
| Ingest.MetaColumns | Cogi-Defect/Cogi-Defect/ingest_to_db.py:44-46 | the metadata columns are exactly the sheet's columns other than the key and ReworkStatus |
| Ingest.StatusColumnOrder | Cogi-Defect/Cogi-Defect/ingest_to_db.py:55-64 | the processed frame's status columns are the statuses seen plus the three disposition columns, each once |
| Ingest.ProcessFile | Cogi-Defect/Cogi-Defect/ingest_to_db.py:38-68 | the sheet through collapse, classification and the metadata merge; `ProcessFileRecords`, `ProcessFileColumns` and `KeyOncePerFile` state its records and columns |
| Ingest.ProcessFileRecords | Cogi-Defect/Cogi-Defect/ingest_to_db.py:55-67 | a processed workbook has one record per primary key, each labelled by `classify` of its key's counts and never None |
| Ingest.ProcessFileColumns | Cogi-Defect/Cogi-Defect/ingest_to_db.py:62-67 | the processed frame has the key columns; each disposition column and Outcome keep their names unless the sheet has a column of that name, and then both copies are there as `_x` and `_y`; an "Outcome" column is there iff the sheet has none; the outcome is a text column under its merged name |
| Ingest.MergedNames | Cogi-Defect/Cogi-Defect/ingest_to_db.py:67 | every column of the counts frame and of the metadata is in the merged frame, under its name with the suffix `_x` or `_y` when both frames carry it |
| Ingest.OutcomeRenamed | Cogi-Defect/Cogi-Defect/ingest_to_db.py:66-67 | when the sheet has its own "Outcome" column, the merged frame has no column of that name |
| Ingest.ReadablePrefix | Cogi-Defect/Cogi-Defect/ingest_to_db.py:44-56 | the number of workbooks before the first sheet that lacks a key or ReworkStatus column, every one of them having those columns |
| Ingest.ReadablePrefixIs | Cogi-Defect/Cogi-Defect/ingest_to_db.py:117-121 | that number is the only one whose sheets all have the grouping columns while the next sheet, if any, does not |
| Ingest.CreatedColumns | Cogi-Defect/Cogi-Defect/ingest_to_db.py:74-85 | a created table has the key columns as TEXT and every frame column, typed TEXT for object dtype and REAL otherwise |
| Ingest.MissingColumnsStep | Cogi-Defect/Cogi-Defect/ingest_to_db.py:90-93 | one more frame column adds a column to the table exactly when it is not among the existing columns, with its declared type |
| Ingest.EnsureStep | Cogi-Defect/Cogi-Defect/ingest_to_db.py:90-93 | one iteration of the add-missing loop updates the table's columns exactly as ALTER TABLE ADD COLUMN does |
| Ingest.TableAfterEnsure | Cogi-Defect/Cogi-Defect/ingest_to_db.py:71-95 | after `ensure_table`, every frame column and key column is in the table, no existing column is removed or retyped, nothing else is added, and each new column's type is TEXT for object dtype and REAL otherwise |
| Ingest.UpsertRow | Cogi-Defect/Cogi-Defect/ingest_to_db.py:102-103 | one INSERT OR REPLACE; `UpsertLastWins`, `UpsertUntouched` and `UpsertNullKeyedPart` state its effect: a complete key replaces its row, a key with a null part adds a row |
| Ingest.UpsertAll | Cogi-Defect/Cogi-Defect/ingest_to_db.py:98-104 | the row-by-row INSERT OR REPLACE keeps the table well formed: each complete key holds a row with that key, and every other row has a null key part |
| Ingest.UpsertByKey | Cogi-Defect/Cogi-Defect/ingest_to_db.py:10-12 | replacement by key with blank parts matching: the keys afterwards are the old keys plus the batch's keys, so nothing is duplicated |
| Ingest.UpsertKeyedPart | Cogi-Defect/Cogi-Defect/ingest_to_db.py:98-104 | the rows with a complete key are exactly `UpsertByKey` of the batch's complete-key records |
| Ingest.UpsertNullKeyedPart | Cogi-Defect/Cogi-Defect/ingest_to_db.py:98-104 | every record with a null key part is appended, in batch order |
| Ingest.ByKeyUntouched | Cogi-Defect/Cogi-Defect/ingest_to_db.py:10-12 | under `UpsertByKey`, a key absent from the batch keeps its row |
| Ingest.ByKeyLastWins | Cogi-Defect/Cogi-Defect/ingest_to_db.py:10-12 | under `UpsertByKey`, a key holds the last batch record with that key |
| Ingest.LastRecord | Cogi-Defect/Cogi-Defect/ingest_to_db.py:102-103 | each key of a batch has a last record with that key |
| Ingest.ByKeyIdempotent | Cogi-Defect/Cogi-Defect/ingest_to_db.py:10-12 | upserting the same batch twice by key leaves the rows as upserting it once |
| Ingest.UpsertUntouched | Cogi-Defect/Cogi-Defect/ingest_to_db.py:102-103 | a record in the table stays there when the batch has no record with its key |
| Ingest.UpsertLastWins | Cogi-Defect/Cogi-Defect/ingest_to_db.py:102-103 | the last batch record with a given key is in the table afterwards: the row for a complete key, an added row otherwise |
| Ingest.UpsertDistinctBatch | Cogi-Defect/Cogi-Defect/ingest_to_db.py:102-103 | with distinct batch keys, every batch record is in the table afterwards |
| Ingest.UpsertIdempotent | Cogi-Defect/Cogi-Defect/ingest_to_db.py:98-104 | upserting a batch again keeps the complete-key rows, and leaves the whole table unchanged iff no batch key has a null part |
| Ingest.UpsertConcat | Cogi-Defect/Cogi-Defect/ingest_to_db.py:103 | upserting a + b is upserting a, then b |
| Ingest.IngestAll | Cogi-Defect/Cogi-Defect/ingest_to_db.py:116-121 | ingesting batches in turn keeps the table well formed |
| Ingest.LaterFileWins | Cogi-Defect/Cogi-Defect/ingest_to_db.py:117-121 | over several files, a record is in the table when no later record of its own file and no later file has its key |
| Ingest.ColumnsAfter | Cogi-Defect/Cogi-Defect/ingest_to_db.py:116-121 | after processing every file, the key columns exist, no earlier column is lost, and every column of every batch exists |
| Ingest.ProcessAll | Cogi-Defect/Cogi-Defect/ingest_to_db.py:117-119 | the batches are the processed files, one per file in order |
| Ingest.DefectStore.constructor | Cogi-Defect/Cogi-Defect/ingest_to_db.py:116 | a fresh database: no table, no columns, no rows |
| Ingest.DefectStore.EnsureTable | Cogi-Defect/Cogi-Defect/ingest_to_db.py:71-95 | the loop leaves the table created with the columns `TableAfterEnsure` describes, comparing names exactly, rows unchanged |
| Ingest.DefectStore.Upsert | Cogi-Defect/Cogi-Defect/ingest_to_db.py:98-104 | the row loop, replacing a complete key and appending a null-keyed record, leaves the rows as `UpsertAll` of the batch and the table well formed, columns unchanged |
| Ingest.DefectStore.IngestFiles | Cogi-Defect/Cogi-Defect/ingest_to_db.py:107-121 | the workbooks up to the first sheet without a key or ReworkStatus column (where `process_file` raises KeyError) are ingested in order: the rows are the successive upserts of their processed batches and the columns are `ColumnsAfter`; it reports whether every workbook was ingested, and a table exists once one was |
| Ingest.DefectStore.IngestBatches | Cogi-Defect/Cogi-Defect/ingest_to_db.py:117-121 | ensure-then-upsert for each batch in order leaves rows and columns as the successive ensures and upserts describe |
| Ingest.IngestedRecordStored | Cogi-Defect/Cogi-Defect/ingest_to_db.py:117-121 | a processed record whose key no later file carries is in the table: as its key's row, or as a row of its own when the key has a null part |
| Ingest.ReprocessDuplicates | Cogi-Defect/Cogi-Defect/ingest_to_db.py:10-12 | ingesting the same workbook twice leaves at least two copies of each of its records with a null key part |
| Ingest.ReingestDuplicates | Cogi-Defect/Cogi-Defect/ingest_to_db.py:117-121 | ingesting the same batch twice adds each of its null-keyed records twice |
| Ingest.ReupsertDuplicates | Cogi-Defect/Cogi-Defect/ingest_to_db.py:98-104 | upserting a batch twice appends each of its null-keyed records twice |
| Ingest.KeyOncePerFile | Cogi-Defect/Cogi-Defect/ingest_to_db.py:55-67 | no later record of the same processed file shares a record's key |
| Frames.BeforeDot | Cogi-Defect/Cogi-Defect/app.py:119 | the part before the first '.': a prefix without '.', followed by '.' when shorter than the text |
| Frames.BaseRef | Cogi-Defect/Cogi-Defect/app.py:119 | `str.split(".").str[0]` gives text for text and null otherwise |
| Frames.BaseRefIsPrefixBeforeDot | Cogi-Defect/Cogi-Defect/app.py:119 | the base ref is the Ref_Id's prefix up to its first '.', a ref without '.' is its own base, and taking the base twice changes nothing |
| Frames.BaseRefIgnoresPinSuffix | Cogi-Defect/Cogi-Defect/pages/action_tracker.py:370-377 | C100 and C100.1 have the same base ref, C100 |
| Frames.FloorMinute | Cogi-Defect/Cogi-Defect/app.py:125 | `dt.floor("T")` keeps the date and rounds the second of the day down to the minute that contains it; non-moments give null |
| Frames.DropDuplicates | Cogi-Defect/Cogi-Defect/app.py:129 | `drop_duplicates`: an order-preserving subsequence with distinct keys that still covers every key of the input |
| Frames.DropDuplicatesFromShape | Cogi-Defect/Cogi-Defect/app.py:129 | the scan keeps a subsequence with distinct keys, none already seen, and every input key is seen or kept |
| Frames.DropDuplicatesKeepsFirst | Cogi-Defect/Cogi-Defect/app.py:129 | the first row of each key is kept |
| Frames.DropDuplicatesOnlyFirst | Cogi-Defect/Cogi-Defect/app.py:129 | every kept row is the first input row of its key |
| Ordering.StrLtIrreflexive | Cogi-Defect/Cogi-Defect/app.py:83 | Python's string order: no string precedes itself |
| Ordering.StrLtTotal | Cogi-Defect/Cogi-Defect/app.py:83 | any two distinct strings are ordered one way |
| Ordering.StrLtAsymmetric | Cogi-Defect/Cogi-Defect/app.py:83 | they are never ordered both ways |
| Ordering.StrLtTransitive | Cogi-Defect/Cogi-Defect/app.py:83 | the order is transitive |
| Ordering.StrictlySortedDistinct | Cogi-Defect/Cogi-Defect/app.py:83 | a strictly sorted list holds no duplicate |
| Ordering.InsertUnique | Cogi-Defect/Cogi-Defect/app.py:83 | inserting into a strictly sorted list keeps it strictly sorted and adds exactly the one value |
| Ordering.SortedUnique | Cogi-Defect/Cogi-Defect/app.py:83 | `sorted(set(xs))`: strictly sorted, with exactly the values of the input |
| Ordering.StrictlySortedUnique | Cogi-Defect/Cogi-Defect/app.py:83 | two strictly sorted lists with the same members are equal, so the sorted unique values are determined |
| Ordering.InsertByCount | Cogi-Defect/Cogi-Defect/app.py:137 | inserting into a count-descending list keeps it descending and adds exactly that entry |
| Ordering.SortByCountDesc | Cogi-Defect/Cogi-Defect/app.py:137 | `sort_values("count", ascending=False)`: sorted by count descending and a permutation of the input |
| Dashboard.Texts | Cogi-Defect/Cogi-Defect/app.py:83 | `dropna()`: the texts kept are exactly the text cells of the column |
| Dashboard.GetUniqueValues | Cogi-Defect/Cogi-Defect/app.py:80-84 | strictly sorted, [] when the column is missing, and a value is listed iff some row holds it |
| Dashboard.UniqueValuesAreTheSortedValues | Cogi-Defect/Cogi-Defect/app.py:80-84 | any strictly sorted list of exactly the column's values is the result |
| Dashboard.SelectIsFilter | Cogi-Defect/Cogi-Defect/app.py:106 | `df[mask]` with a mask computed row by row is filtering by that condition |
| Dashboard.ApplyFilters | Cogi-Defect/Cogi-Defect/app.py:86-106 | the mask loop keeps exactly the input rows, in order, that the outcome selection, every non-empty column selection and the inclusive datetime window admit; with no selection every row is kept; columns unchanged |
| Dashboard.GroupSizePositive | Cogi-Defect/Cogi-Defect/app.py:134-135 | every key that occurs has a positive group size |
| Dashboard.GroupSizeOfAbsentKey | Cogi-Defect/Cogi-Defect/app.py:134-135 | a positive group size means some row carries the key |
| Dashboard.GroupSizes | Cogi-Defect/Cogi-Defect/app.py:133-136 | `groupby(key).size()`: one entry per non-null key that occurs, with its number of rows, and no other entries |
| Dashboard.ChartData | Cogi-Defect/Cogi-Defect/app.py:110-139 | at most `top_n` entries, sorted by count descending |
| Dashboard.SortedGroups | Cogi-Defect/Cogi-Defect/app.py:133-137 | the sorted groups are distinct, each holds its key's positive size, and every non-null key is present |
| Dashboard.ChartDataEntries | Cogi-Defect/Cogi-Defect/app.py:110-139 | [] for an empty frame or one without Ref_Id; otherwise every entry is a non-null key with its group size in the (de-duplicated) rows, and no key appears twice |
| Dashboard.ChartDataIsTopN | Cogi-Defect/Cogi-Defect/app.py:137-138 | a key left out of the chart means the chart is full and every charted count is at least that key's count |
| Dashboard.ChartKeysAreBaseRefs | Cogi-Defect/Cogi-Defect/app.py:118-120 | with dedup, every charted key is a text base ref without '.' |
| Dashboard.DailyAndWeekly | Cogi-Defect/Cogi-Defect/app.py:348-352 | Daily is [ref, ref]; Weekly is [ref-6, ref], failing only before 0001-01-07 |
| Dashboard.ThirtyTwoDaysLater | Cogi-Defect/Cogi-Defect/app.py:355 | 32 days after the first of a month falls in the next month, on day 33 minus the month's length; only December 9999 overflows |
| Dashboard.NextMonthOrdinal | Cogi-Defect/Cogi-Defect/app.py:355 | that day of the next month is 32 days after the first of the month |
| Dashboard.DayBeforeNextMonth | Cogi-Defect/Cogi-Defect/app.py:356 | the day before the first of the next month is the month's last day |
| Dashboard.MonthlyIsWholeMonth | Cogi-Defect/Cogi-Defect/app.py:353-357 | Monthly is [first, last day of ref's month], failing only in December 9999 |
| Dashboard.PresetRange | Cogi-Defect/Cogi-Defect/app.py:348-357 | the Daily, Weekly and Monthly ranges; `DailyAndWeekly`, `MonthlyIsWholeMonth` and `PresetContainsReference` state each range and that it contains the reference date |
| Dashboard.PresetContainsReference | Cogi-Defect/Cogi-Defect/app.py:348-357 | every preset that succeeds has start <= ref <= end |
| Dates.DaysInMonth | Cogi-Defect/Cogi-Defect/app.py:356 | a Gregorian month has 28 to 31 days |
| Dates.AddDays | Cogi-Defect/Cogi-Defect/app.py:355 | `date + timedelta(days=n)`: the date n days later, or the overflow error past 9999-12-31 |
| Dates.SubDays | Cogi-Defect/Cogi-Defect/app.py:351 | `date - timedelta(days=n)`: the date n days earlier, or the overflow error before 0001-01-01 |
| Dates.AddDaysByOrdinal | Cogi-Defect/Cogi-Defect/app.py:355 | adding n days gives the one valid date whose ordinal is n greater |
| Dates.SubDaysByOrdinal | Cogi-Defect/Cogi-Defect/app.py:351 | subtracting n days gives the one valid date whose ordinal is n smaller |
| Dates.Weekday | Cogi-Defect/Cogi-Defect/pages/action_tracker.py:309 | `date.weekday()` is between 0 (Monday) and 6 |
| Dates.DateLeIffOrdinal | Cogi-Defect/Cogi-Defect/pages/action_tracker.py:78 | comparing dates by year, month and day agrees with comparing their ordinals, and equal ordinals mean equal dates |
| Layout.MissingStep | Cogi-Defect/Cogi-Defect/app.py:216-218 | one more default section is appended exactly when the kept order lacks it, and it was not appended before |
| Layout.SanitizeLayout | Cogi-Defect/Cogi-Defect/app.py:214-218 | the filter-then-append loop computes the sanitised order |
| Layout.SanitizedMembers | Cogi-Defect/Cogi-Defect/app.py:215-218 | the sanitised order holds only sections and holds every section |
| Layout.SanitizedOrder | Cogi-Defect/Cogi-Defect/app.py:215-218 | it starts with the known saved entries in their saved order, followed by the missing sections in default order, none of them saved |
| Layout.SanitizedIdempotent | Cogi-Defect/Cogi-Defect/app.py:215-218 | sanitising a sanitised order changes nothing |
| Layout.Placed | Cogi-Defect/Cogi-Defect/app.py:684-685 | each section with its saved width, 6 when none is saved |
| Layout.PackClose | Cogi-Defect/Cogi-Defect/app.py:686-691 | a section that overflows the open row flushes it (when not empty) and opens a new row, keeping the packing invariant |
| Layout.PackExtend | Cogi-Defect/Cogi-Defect/app.py:689-691 | a section that fits joins the open row, keeping the packing invariant |
| Layout.PackRows | Cogi-Defect/Cogi-Defect/app.py:672-693 | the emitted rows laid end to end are exactly the layout order with widths; no row is empty; every row fits in 12 columns unless it is one wider section; a row ends only when the next row's first section would overflow it |
| Layout.PackFinish | Cogi-Defect/Cogi-Defect/app.py:693 | the final flush completes the rows without breaking the invariant |
| Tracker.SliceDefects | Cogi-Defect/Cogi-Defect/pages/action_tracker.py:72-85 | the slice keeps the frame's columns |
| Tracker.IsInStepIsFilter | Cogi-Defect/Cogi-Defect/pages/action_tracker.py:79-84 | an optional `isin` step is a filter that admits everything when the selection is disabled or empty |
| Tracker.SliceDefectsSelects | Cogi-Defect/Cogi-Defect/pages/action_tracker.py:72-85 | an empty frame comes back unchanged; otherwise the rows kept are exactly those, in order, dated in [start, end] whose machine, part and ISO week each lie in their selection when that selection is enabled and non-empty |
| Tracker.SliceWithoutSelections | Cogi-Defect/Cogi-Defect/pages/action_tracker.py:76-85 | with filters disabled or no selection, only the date range constrains |
| Tracker.Lower | Cogi-Defect/Cogi-Defect/pages/action_tracker.py:114 | lower-casing keeps the length |
| Tracker.FirstDateColumn | Cogi-Defect/Cogi-Defect/pages/action_tracker.py:111-121 | none iff no column name mentions "date" or "time"; otherwise the first column that does |
| Tracker.FindDateColumn | Cogi-Defect/Cogi-Defect/pages/action_tracker.py:112-121 | the detection loop finds that first date-like column |
| Tracker.FilterDefectsByRange | Cogi-Defect/Cogi-Defect/pages/action_tracker.py:106-126 | the columns are kept |
| Tracker.FilterDefectsByRangeSelects | Cogi-Defect/Cogi-Defect/pages/action_tracker.py:106-126 | an order-preserving subsequence holding exactly the rows whose first date-like column lies in [start, end], or every row when there is no such column |
| Tracker.TalliedOutcome | Cogi-Defect/Cogi-Defect/pages/action_tracker.py:98-103 | each tally key names a real outcome |
| Tracker.TallyOf | Cogi-Defect/Cogi-Defect/pages/action_tracker.py:98-103 | each outcome other than None has its tally key, and the key names it back |
| Tracker.DefectCounts | Cogi-Defect/Cogi-Defect/pages/action_tracker.py:91-103 | the result always has exactly the keys False, Real, Fixed and Suspect |
| Tracker.DefectCountsAreLabelCounts | Cogi-Defect/Cogi-Defect/pages/action_tracker.py:91-103 | all tallies are 0 without rows or an Outcome column; otherwise each tally counts the date-ranged rows carrying its label ("Fixed" counts "Fixed from previously caught") |
| Tracker.DefectCountsCoverTalliedRows | Cogi-Defect/Cogi-Defect/pages/action_tracker.py:96-103 | the four tallies add up to the date-ranged rows carrying one of the four labels; rows labelled "None" or plain "Fixed" are not counted |
| Tracker.UncountedLabels | Cogi-Defect/Cogi-Defect/pages/action_tracker.py:97-103 | "None" and the bare text "Fixed" are labels no tally counts |
| Tracker.TallySum | Cogi-Defect/Cogi-Defect/pages/action_tracker.py:97-103 | the four label counts add up to the rows carrying a counted label |
| Tracker.TalliedIsACountedLabel | Cogi-Defect/Cogi-Defect/pages/action_tracker.py:98-103 | a row is tallied iff its Outcome is one of the four counted labels |
| Tracker.AddColumn | Cogi-Defect/Cogi-Defect/pages/action_tracker.py:377-382 | the added column and every earlier column are present |
| Tracker.PinRows | Cogi-Defect/Cogi-Defect/pages/action_tracker.py:376-382 | each row gains RF_Base, and `_event_min` when there are event dates |
| Tracker.DeduplicatePinsColumns | Cogi-Defect/Cogi-Defect/pages/action_tracker.py:373-384 | the columns are kept, with RF_Base added, and `_event_min` too with event dates |
| Tracker.DeduplicatePinsKeepsOnePerKey | Cogi-Defect/Cogi-Defect/pages/action_tracker.py:373-384 | the rows kept are an order-preserving subsequence of the extended rows, each with RF_Base its Ref_Id's base, one per (SerialNumber, base, [DefectCode], [minute]) key, and every key of the input kept |
| Tracker.DeduplicatePins | Cogi-Defect/Cogi-Defect/pages/action_tracker.py:373-384 | one pin per (SerialNumber, base ref), with DefectCode and the event minute when the frame has them; `DeduplicatePinsKeepsOnePerKey`, `DeduplicatePinsKeepsFirst` and `PinLevelRefsShareKey` state that it keeps the first row of each key, in order |
| Tracker.DeduplicatePinsRows | Cogi-Defect/Cogi-Defect/pages/action_tracker.py:384 | the rows are `drop_duplicates` of the extended rows on that key |
| Tracker.KeptRowIsPinRow | Cogi-Defect/Cogi-Defect/pages/action_tracker.py:376-384 | every kept row is an input row extended with its base ref |
| Tracker.DeduplicatePinsKeepsFirst | Cogi-Defect/Cogi-Defect/pages/action_tracker.py:384 | the first row of each key is the one kept |
| Tracker.PinLevelRefsShareKey | Cogi-Defect/Cogi-Defect/pages/action_tracker.py:370-384 | a pin-level ref such as C100.1 and its base C100 fall under the same de-duplication key |
| Tracker.WeekSpansSevenDays | Cogi-Defect/Cogi-Defect/pages/action_tracker.py:314-315 | a week range runs from its start to six days later, failing only past 9999-12-31 |
| Tracker.MondayOfWeek | Cogi-Defect/Cogi-Defect/pages/action_tracker.py:309 | `today - weekday()` days always exists and is a Monday |
| Tracker.CurrentWeek | Cogi-Defect/Cogi-Defect/pages/action_tracker.py:307-311 | Monday to Sunday of today's week; `CurrentWeekContainsToday` states that it starts on a Monday, spans seven days and contains today |
| Tracker.CurrentWeekContainsToday | Cogi-Defect/Cogi-Defect/pages/action_tracker.py:307-311 | the current week runs from the Monday of today to six days later and contains today |
| Tracker.LatestIsoWeekDates | Cogi-Defect/Cogi-Defect/pages/action_tracker.py:306-316 | the latest ISO week of the frame, or the current week without one; `LatestIsoWeekSpansSevenDays` states the seven days |
| Tracker.LatestIsoWeekSpansSevenDays | Cogi-Defect/Cogi-Defect/pages/action_tracker.py:306-316 | the default range spans seven days, and it starts on the latest week's Monday when the frame has ISO weeks |
| Issues.NatToString | Cogi-Defect/Cogi-Defect/pages/action_tracker.py:250 | `str()` of a natural number is a non-empty run of digits |
| Issues.IntToString | Cogi-Defect/Cogi-Defect/pages/action_tracker.py:250 | `str()` of an integer is never empty |
| Issues.CleanValue | Cogi-Defect/Cogi-Defect/pages/action_tracker.py:226-230 | None becomes "", numbers and booleans are kept as they are, anything else becomes its `str()`; apart from None, the value reads the same |
| Issues.CleanAll | Cogi-Defect/Cogi-Defect/pages/action_tracker.py:225-230 | one cleaned field per submitted field |
| Issues.CleanKeepsKeys | Cogi-Defect/Cogi-Defect/pages/action_tracker.py:225-230 | cleaning keeps the field names in order and cleans each value |
| Issues.CleanData | Cogi-Defect/Cogi-Defect/pages/action_tracker.py:224-230 | the cleaning loop builds the cleaned record |
| Issues.Lookup | Cogi-Defect/Cogi-Defect/pages/action_tracker.py:232 | a field's value is found iff the record names it, and it is that field's value |
| Issues.CleanLookup | Cogi-Defect/Cogi-Defect/pages/action_tracker.py:225-232 | the cleaned record's value of a field is the cleaned submitted value |
| Issues.DefaultRow | Cogi-Defect/Cogi-Defect/pages/action_tracker.py:131-180 | a new row starts with exactly the columns of `issues` |
| Issues.Bind | Cogi-Defect/Cogi-Defect/pages/action_tracker.py:258 | the driver binds a boolean as 1 or 0 and any other value as it is |
| Issues.StoreKeepsStr | Cogi-Defect/Cogi-Defect/pages/action_tracker.py:161-175 | text in a TEXT column, text without a digit in any column, and an integer in a TEXT or INTEGER column read back with the same `str()` |
| Issues.StoreChangesStr | Cogi-Defect/Cogi-Defect/pages/action_tracker.py:161-175 | a boolean, and an integer in a REAL column, read back with a different `str()` (1 for True, 5.0 for 5) |
| Issues.AffinityOf | Cogi-Defect/Cogi-Defect/pages/action_tracker.py:131-180 | the affinity each declared type gives: INTEGER for `id` and the `INTEGER DEFAULT 0` columns, REAL for the two rework columns, TEXT otherwise; `StoreKeepsStr` and `StoreChangesStr` state what it does to a value |
| Issues.Store | Cogi-Defect/Cogi-Defect/pages/action_tracker.py:253-272 | the value a column holds once a value is bound to it; `StoreKeepsStr`, `StoreChangesStr` and `StoreNullInText` state which values read back alike, which do not, and when NULL is stored |
| Issues.WriteError | Cogi-Defect/Cogi-Defect/pages/action_tracker.py:253-258 | the statement is accepted iff there is a field to write and every field is a column |
| Issues.InsertError | Cogi-Defect/Cogi-Defect/pages/action_tracker.py:261-272 | the insert passes these checks iff the write is accepted and `date_reported` (NOT NULL) is named; a NaN value for it is refused afterwards (`InsertNotNull`) |
| Issues.SetFields | Cogi-Defect/Cogi-Defect/pages/action_tracker.py:253-272 | each field set in order; `SetFieldsEffect` states the columns it sets, the ones it keeps and that the last value wins |
| Issues.IdKey | Cogi-Defect/Cogi-Defect/pages/action_tracker.py:234-238 | the row `WHERE id = ?` finds: an int or a bool id; `UpdateSpec` states that only that row can change |
| Issues.SaveUpdate | Cogi-Defect/Cogi-Defect/pages/action_tracker.py:232-260 | the update branch of `save_issue`; `UpdateSpec`, `UpdateNotNull`, `UpdateSetsFields` and `UpdateLogsAgainst` state its log, its result and its effect |
| Issues.SaveInsert | Cogi-Defect/Cogi-Defect/pages/action_tracker.py:261-279 | the insert branch; `InsertSpec` and `InsertNotNull` state the new row, the counter, the creation entry and the failures |
| Issues.SaveSpec | Cogi-Defect/Cogi-Defect/pages/action_tracker.py:219-279 | `save_issue`: clean, then update on a truthy id and insert otherwise; `FalsyIdInserts`, `UpdateSpec` and `InsertSpec` state the choice and each branch |
| Issues.IssueStore.constructor | Cogi-Defect/Cogi-Defect/pages/action_tracker.py:128-133 | empty tables, ids starting at 1 |
| Issues.IssueStore.SaveIssue | Cogi-Defect/Cogi-Defect/pages/action_tracker.py:219-279 | the issues, the id counter, the appended changelog entries and the result are those of `save_issue` on the tables, and every stored issue keeps its `date_reported` (NOT NULL) |
| Issues.IssueStore.LogChanges | Cogi-Defect/Cogi-Defect/pages/action_tracker.py:246-251 | the comparison loop appends exactly the change entries of the record and touches nothing else |
| Issues.IssueStore.Update | Cogi-Defect/Cogi-Defect/pages/action_tracker.py:232-260 | the update branch logs the changes, then updates the stored row, or raises the SQL error, including NOT NULL when the row would lose its `date_reported`, with the log already written |
| Issues.IssueStore.Insert | Cogi-Defect/Cogi-Defect/pages/action_tracker.py:261-279 | the insert branch stores the new row under a fresh id and logs its creation, or raises the SQL error, including NOT NULL for a row without `date_reported`, with nothing changed |
| Issues.SetFieldsEffect | Cogi-Defect/Cogi-Defect/pages/action_tracker.py:253-258 | `SET col = ?` for each field: the row gains the fields, keeps the rest, and each field holds its last value as the column's affinity stores it |
| Issues.UpdateKeepsRowWellFormed | Cogi-Defect/Cogi-Defect/pages/action_tracker.py:253-258 | an accepted update keeps the row's columns and id |
| Issues.InsertMakesRowWellFormed | Cogi-Defect/Cogi-Defect/pages/action_tracker.py:261-273 | an inserted row has exactly the schema's columns and its own id |
| Issues.ChangeEntriesAreChanges | Cogi-Defect/Cogi-Defect/pages/action_tracker.py:246-251 | every logged entry is by "System", names a non-id column of the stored row, and records its old text and a different submitted text |
| Issues.ChangeEntriesLogChangedFields | Cogi-Defect/Cogi-Defect/pages/action_tracker.py:246-251 | a field is logged iff it is not id, the stored row has it and its text differs |
| Issues.ChangedFieldsLogged | Cogi-Defect/Cogi-Defect/pages/action_tracker.py:246-251 | every changed field is logged |
| Issues.LoggedFieldsChanged | Cogi-Defect/Cogi-Defect/pages/action_tracker.py:246-251 | every logged field changed |
| Issues.ChangeEntriesOnePerField | Cogi-Defect/Cogi-Defect/pages/action_tracker.py:246-251 | with distinct field names, at most one entry per field |
| Issues.ChangeEntriesEmpty | Cogi-Defect/Cogi-Defect/pages/action_tracker.py:246-251 | unchanged fields log nothing |
| Issues.UpdateSpec | Cogi-Defect/Cogi-Defect/pages/action_tracker.py:232-260 | an update keeps the id counter and the set of ids, changes no other issue, logs the changes against the stored row (nothing when there is none), returns the submitted id exactly when the SQL is accepted and the found row keeps its `date_reported` (NOT NULL), and changes nothing on error |
| Issues.UpdatedRowSets | Cogi-Defect/Cogi-Defect/pages/action_tracker.py:253-258 | the updated row holds each submitted non-id value as its column stores it, `updated_at` = now, and the other columns unchanged |
| Issues.UpdateSetsFields | Cogi-Defect/Cogi-Defect/pages/action_tracker.py:253-260 | after a successful update of an existing issue, its row holds every cleaned submitted value as its column stores it, the new `updated_at`, and the unsubmitted columns unchanged |
| Issues.UpdateStoresRow | Cogi-Defect/Cogi-Defect/pages/action_tracker.py:253-258 | a successful update replaces exactly that issue's row with the updated row |
| Issues.UpdateLogsAgainst | Cogi-Defect/Cogi-Defect/pages/action_tracker.py:236-251 | the entries logged are the differences from the stored row |
| Issues.WrittenFields | Cogi-Defect/Cogi-Defect/pages/action_tracker.py:254 | the written fields are the submitted ones other than id |
| Issues.InsertSpec | Cogi-Defect/Cogi-Defect/pages/action_tracker.py:261-279 | an insert that compiles and leaves `date_reported` set stores a well-formed row under a fresh id, advances the counter, logs one ("status", "" to "Created", "System") entry and returns the id; a refused one changes and logs nothing |
| Issues.StoreNullInText | Cogi-Defect/Cogi-Defect/pages/action_tracker.py:134 | a TEXT column such as `date_reported` holds NULL exactly when None or NaN is bound |
| Issues.SetFieldsNullDate | Cogi-Defect/Cogi-Defect/pages/action_tracker.py:253-272 | with distinct field names, the row is left without `date_reported` iff a field sets it to None or NaN, or none sets it and it was NULL |
| Issues.WrittenNullDate | Cogi-Defect/Cogi-Defect/pages/action_tracker.py:225-230 | the written fields set `date_reported` to None or NaN iff the submitted record sets it to NaN (None is cleaned to ""), and name it iff the record does |
| Issues.UpdateNotNull | Cogi-Defect/Cogi-Defect/pages/action_tracker.py:253-258 | an update of a stored issue fails with the NOT NULL violation iff the statement compiles and the record sets `date_reported` to NaN |
| Issues.UpdatedRowNullDate | Cogi-Defect/Cogi-Defect/pages/action_tracker.py:253-258 | the updated row of an issue that has a date has none iff the record sets `date_reported` to NaN |
| Issues.InsertNotNull | Cogi-Defect/Cogi-Defect/pages/action_tracker.py:261-272 | an insert fails with the NOT NULL violation iff the statement compiles and the record has no `date_reported` or sets it to NaN |
| Issues.FalsyIdInserts | Cogi-Defect/Cogi-Defect/pages/action_tracker.py:232 | an id of None, 0, "" or False inserts instead of updating |
| Issues.ResaveLogsNothing | Cogi-Defect/Cogi-Defect/pages/action_tracker.py:246-258 | saving the same record again logs no change when every written value reads back with the same `str()` |
| Issues.ResaveLogsUnreadable | Cogi-Defect/Cogi-Defect/pages/action_tracker.py:246-258 | saving the same record again logs every written column whose value does not read back with the same `str()` |
| Issues.ResaveLogsConverted | Cogi-Defect/Cogi-Defect/pages/action_tracker.py:161-175 | saving the same record again logs every boolean field and every integer in a REAL column (5 reads back as 5.0) |
| Issues.UpdatedRowMatchesClean | Cogi-Defect/Cogi-Defect/pages/action_tracker.py:253-258 | after the update, no submitted field that reads back with the same `str()` differs from the stored row |
| Issues.TrimStart | Cogi-Defect/Cogi-Defect/pages/action_tracker.py:864 | the suffix left after dropping the leading white space, starting with a non-space |
| Issues.TrimEnd | Cogi-Defect/Cogi-Defect/pages/action_tracker.py:864 | the prefix left after dropping the trailing white space, ending with a non-space |
| Issues.StripBlankIffAllSpace | Cogi-Defect/Cogi-Defect/pages/action_tracker.py:864 | `strip()` is empty iff the text is all white space; otherwise it is the slice between the first and last non-space characters |
| Issues.KeepBlank | Cogi-Defect/Cogi-Defect/pages/action_tracker.py:863-864 | `keep` returns the new value unless it reads as white space only, in which case it returns the original; a number or None always replaces |
| Issues.Keep | Cogi-Defect/Cogi-Defect/pages/action_tracker.py:863-864 | the edit form's merge; `KeepBlank` states that it keeps the original exactly when the new value's text is blank |
| Issues.IntStringNotBlank | Cogi-Defect/Cogi-Defect/pages/action_tracker.py:863-864 | an integer's text is never blank |

## Left out

- Excel reading and writing, file globbing, `layout.json`, Streamlit widgets, forms, session state, Altair charts and gridstack cards are left out as I/O and UI. A sheet is a parameter (`Sheet`), and the saved layout order and widths are parameters.
- SQLite is abstracted. The `defects` table is a column map, a map of the rows with a complete key and a sequence of the rows with a null key part, and `issues` is an id-to-row map. `lastrowid` is the store's next id, `CURRENT_TIMESTAMP` is the `now` parameter, and SQL text, PRAGMA queries and error messages are not modelled. A refused statement is one of three error kinds.
- Loops.Collapse: a blank ReworkStatus is not modelled (a status is always a text); pandas keeps it as one more status column, which no outcome reads.
- Ingest.StatusColumnOrder: the status columns come in first-appearance order, while `unstack` sorts them; only the set of columns is stated.
- Loops.Collapse: the rows come out in the order each key first appears. pandas `groupby` sorts its keys instead, so the contracts describe the key set and each key's contents, not the row order.
- Dashboard.ChartData: the model fixes one order among entries of equal count. pandas' default sort is not stable, so its order for ties is not pinned down either.
- Dashboard.GetUniqueValues: only text cells are collected. Sorting mixed numbers and dates the way Python does is not modelled.
- Dashboard.Texts: `dropna()` keeps the numbers and moments of a column too; the model keeps its texts only, for the same reason.
- `pd.to_datetime` coercion is not modelled: cells already hold moments or nulls. The `is_datetime64` check on the first date-like column is taken to succeed, and moments are day plus second, with no sub-second time and no time zones.
- `filter_defects_by_range` converts the detected column in place in the caller's frame. The model returns the filtered copy only.
- Tracker.SliceDefects: requires the columns it reads. The source raises `KeyError` when such a column is missing, and that error path is not modelled.
- Dashboard.ApplyFilters: requires the filtered columns, for the same reason.
- Dashboard.ChartData: requires SerialNumber when de-duplicating a frame with Ref_Id; `drop_duplicates` raises `KeyError` without it, and that error path is not modelled.
- Dashboard.ChartDataEntries: the same SerialNumber requirement and the same missing `KeyError` path.
- Tracker.DeduplicatePins: requires SerialNumber when the frame has Ref_Id, for the same reason.
- Tracker.Lower: lower-cases ASCII letters only, not the full Unicode case mapping of `str.lower`.
- ISO-week strings are not parsed or formatted. `latest_iso_week_dates` takes the Monday of the latest week, which `fromisocalendar` computes, as the parameter `latestMonday`, and `date.today()` as the parameter `today`.
- Issues.Bind: an integer beyond 64 bits, for which Python's driver raises `OverflowError`, is stored as it is. How SQLite prints a float as text and reads text as a number is the `Engine` parameter; only the facts in `SoundEngine` are assumed of it.
- Issues.WriteError: column names are matched exactly. SQLite resolves them without regard to ASCII letter case, so a field named "Status" or "ID" would write `status` or the rowid; the forms submit the schema's own lower-case names.
- Issues.InsertError: names are matched exactly here too, so a "Date_Reported" field is not taken for `date_reported`. A NaN `date_reported`, which SQLite stores as NULL, is refused after this check, by `SaveInsert` and `SaveUpdate`.
- Issues.IdKey: a text or float id does not find a stored row. SQLite's type affinity would compare "5" equal to 5, and that is not modelled.
- `ensure_issues_table` migrations, `ensure_changelog_table`, and `log_change` opening its own connection are not modelled. The changelog is one append-only sequence.
- The `update_data` form dictionary (`pages/action_tracker.py:866-891`) is widget glue. Only its `keep` merge is modelled.
- Floating-point metrics (resolution days, closure rates), the md5 filter hash, the debounce sleep and the caching decorators have no logic to state.
- `pages/data_ingestion.py` is not part of this model: it is UI glue over the ingestion functions. `test_performance.py` is a timing script and is not part of this model either.
- Column types: a frame column is TEXT when the sheet gave it object dtype, as a flag per column. pandas' dtype inference is not modelled, and neither are duplicate column names in a sheet.
- Ingest.DefectStore.EnsureTable: column names are compared exactly, as `col not in existing_cols` does, and every name not yet present is added. SQLite compares column names without regard to ASCII letter case, so a frame column that differs from another only in case ("LINE" beside an existing "Line", or the two status columns unstacked from "False call" and "False Call" in one sheet) makes `CREATE TABLE` or `ALTER TABLE ... ADD COLUMN` raise "duplicate column name", which ends `main` with the earlier workbooks committed. The model records both names and carries on: its one stop point is fixed by the sheets alone, while this failure would make it depend on the table's columns after each earlier workbook.
- Ingest.CreatedColumns: the created table holds every frame column under its exact name; the "duplicate column name" failure of `CREATE TABLE` for two names equal up to case is not modelled, for the reason given under `Ingest.DefectStore.EnsureTable`.
- Ingest.TableAfterEnsure: a column equal up to case to one the table already has is added as a new column, where SQLite's `ALTER TABLE` refuses it; see `Ingest.DefectStore.EnsureTable`.
- Ingest.DefectStore.IngestFiles: it stops only at the first sheet without a key or ReworkStatus column; the stop at a workbook whose columns clash up to case with the table's, or with each other, is not modelled, so `done` can hold where the ingest would abort; see `Ingest.DefectStore.EnsureTable`.
- Ingest.ProcessFile: the merge's `_x`/`_y` renaming of a name both frames carry is modelled on the columns, but a record keeps its counts and outcome as fields, not under column names; the `MergeError` pandas raises when a suffixed name is already taken (a sheet with both "Outcome" and "Outcome_y") is not modelled.

## Findings

| source | as written | input that shows it | evidently intended | confidence | as-written member | corrected member |
|---|---|---|---|---|---|---|
| Cogi-Defect/Cogi-Defect/ingest_to_db.py:74-104 | the key columns are declared plain TEXT, so each accepts NULL, and SQLite's INSERT OR REPLACE finds no conflict for a key with a NULL part; `process_file` keeps blank key parts (`dropna=False`), which reach SQLite as NULL | a workbook with a row whose DefectCode cell is blank, ingested twice: the table then holds two copies of that record | re-processing a file creates no second copy (the module docstring, lines 10-12): a blank key part matches a blank key part | not executed | Ingest.ReprocessDuplicates | Ingest.ByKeyIdempotent |

`Ingest.DefectStore` follows the code as written. Its rows with a complete
key are exactly those of the corrected `Ingest.UpsertByKey`
(`Ingest.UpsertKeyedPart`), so every property proved of `UpsertByKey` holds
of them; the rows with a null key part are the ones the finding concerns
(`Ingest.UpsertNullKeyedPart`, `Ingest.UpsertIdempotent`).
