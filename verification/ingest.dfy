/** Batch ingestion into the `defects` table: each workbook runs through
    the four-outcome pipeline, the table grows the columns the batch
    needs, and the batch is written with INSERT OR REPLACE keyed on
    (SerialNumber, Ref_Id, DefectCode). */
module Ingest {
  import opened SeqUtil
  import opened Outcomes
  import opened Loops
  import opened AoiClassify

  /** The two column types the table declares. */
  datatype SqlType = Text | RealType

  const PrimaryKeyColumns: seq<string> := ["SerialNumber", "Ref_Id", "DefectCode"]
  const ReworkStatusColumn := "ReworkStatus"
  const OutcomeColumn := "Outcome"

  /** The first sheet of one workbook: its column names in order, the
      columns pandas reads with object dtype, and its rows. */
  datatype Sheet = Sheet(columns: seq<string>, textColumns: set<string>, rows: seq<RawRow>)

  /** A processed workbook: column names in order, the object-dtype
      columns, and the classified records. */
  datatype Batch = Batch(columns: seq<string>, textColumns: set<string>, records: seq<DefectRecord>)

  /** The metadata columns: every column but the key and ReworkStatus. */
  function MetaColumns(s: Sheet): (cs: seq<string>)
    ensures forall c | c in cs :: c in s.columns && c !in PrimaryKeyColumns && c != ReworkStatusColumn
    ensures forall c | c in s.columns && c !in PrimaryKeyColumns && c != ReworkStatusColumn :: c in cs
  {
    Filter((c: string) => c !in PrimaryKeyColumns && c != ReworkStatusColumn, s.columns)
  }

  function StatusList(rows: seq<RawRow>): (ss: seq<string>)
    ensures |ss| == |rows| && forall i | 0 <= i < |rows| :: ss[i] == rows[i].status
  {
    seq(|rows|, i requires 0 <= i < |rows| => rows[i].status)
  }

  /** The status columns of the collapsed table: one per status seen, in
      first-appearance order, then each missing disposition column. */
  function StatusColumnOrder(rows: seq<RawRow>): (cs: seq<string>)
    ensures NoDuplicates(cs)
    ensures (set c | c in cs) == Statuses(rows) + set c | c in ReworkStatusColumns
  {
    var seen := Distinct(StatusList(rows));
    var added := Filter((c: string) => c !in seen, ReworkStatusColumns);
    FilterNoDuplicates((c: string) => c !in seen, ReworkStatusColumns);
    var cs := seen + added;
    forall i, j | 0 <= i < j < |cs| ensures cs[i] != cs[j] {
      if i < |seen| && |seen| <= j {
        assert cs[j] in added;
        assert cs[i] in seen;
      } else if |seen| <= i {
        assert cs[i] == added[i - |seen|] && cs[j] == added[j - |seen|];
      }
    }
    forall x | x in Statuses(rows) ensures x in seen {
      var r :| r in rows && r.status == x;
      var i :| 0 <= i < |rows| && rows[i] == r;
      assert StatusList(rows)[i] == x;
    }
    seen + added
  }

  /** The columns of the counts frame besides the key: the status
      columns, then the outcome. */
  function GroupColumns(s: Sheet): seq<string> {
    StatusColumnOrder(s.rows) + [OutcomeColumn]
  }

  /** The left merge's name for a column of one frame: with `suffix` added
      when the other frame carries a column of the same name. */
  function Renamed(c: string, other: seq<string>, suffix: string): string {
    if c in other then c + suffix else c
  }

  function RenamedAll(cs: seq<string>, other: seq<string>, suffix: string): (r: seq<string>)
    ensures |r| == |cs| && forall i | 0 <= i < |cs| :: r[i] == Renamed(cs[i], other, suffix)
  {
    seq(|cs|, i requires 0 <= i < |cs| => Renamed(cs[i], other, suffix))
  }

  /** The columns of the processed frame: the key, the status columns and
      the outcome, then the metadata joined back on, a name both frames
      carry taking "_x" on the left and "_y" on the right. */
  function BatchColumns(s: Sheet): seq<string> {
    PrimaryKeyColumns + RenamedAll(GroupColumns(s), MetaColumns(s), "_x") + RenamedAll(MetaColumns(s), GroupColumns(s), "_y")
  }

  /** The object-dtype columns of the processed frame: those of the key
      and metadata that were object in the sheet, and the outcome, under
      their merged names. */
  function BatchTextColumns(s: Sheet): set<string> {
    (s.textColumns * set c | c in PrimaryKeyColumns)
    + (set c | c in MetaColumns(s) && c in s.textColumns :: Renamed(c, GroupColumns(s), "_y"))
    + {Renamed(OutcomeColumn, MetaColumns(s), "_x")}
  }

  /** The pipeline applied to one sheet. */
  function ProcessFile(s: Sheet): Batch {
    Batch(BatchColumns(s), BatchTextColumns(s), Classified(s.rows))
  }

  /** A processed workbook holds one record per key, each labelled with the
      four-way table of its key's counts and never "None". */
  lemma ProcessFileRecords(s: Sheet)
    ensures NoDuplicates(RecordKeys(ProcessFile(s).records))
    ensures forall r | r in ProcessFile(s).records ::
              r.outcome == ClassifyFour(KeyCounts(s.rows, r.key)) && r.outcome != Unclassified
  {
    ClassifiedKeysUnique(s.rows);
    forall r | r in Classified(s.rows)
      ensures r.outcome == ClassifyFour(KeyCounts(s.rows, r.key)) && r.outcome != Unclassified
    {
      ClassifiedRow(s.rows, r);
    }
  }

  /** A processed workbook has a column for each key part; each
      disposition column and the outcome keep their names unless the sheet
      has a column of that name, when both copies are there as "_x" and
      "_y"; so an "Outcome" column is there exactly when the sheet has
      none, and the outcome is a text column under its merged name. */
  lemma ProcessFileColumns(s: Sheet)
    ensures forall c | c in PrimaryKeyColumns :: c in BatchColumns(s)
    ensures forall c | c in ReworkStatusColumns + [OutcomeColumn] ::
              if c in MetaColumns(s) then c + "_x" in BatchColumns(s) && c + "_y" in BatchColumns(s)
              else c in BatchColumns(s)
    ensures OutcomeColumn in BatchColumns(s) <==> OutcomeColumn !in MetaColumns(s)
    ensures Renamed(OutcomeColumn, MetaColumns(s), "_x") in BatchTextColumns(s)
  {
    var cols := BatchColumns(s);
    var group := GroupColumns(s);
    var meta := MetaColumns(s);
    GroupHasDispositions(s);
    MergedNames(PrimaryKeyColumns, group, meta);
    assert cols[0] == "SerialNumber" && cols[1] == "Ref_Id" && cols[2] == "DefectCode";
    if OutcomeColumn in meta {
      OutcomeRenamed(group, meta);
    }
  }

  /** The counts frame has every disposition column and the outcome. */
  lemma GroupHasDispositions(s: Sheet)
    ensures forall c | c in ReworkStatusColumns + [OutcomeColumn] :: c in GroupColumns(s)
  {
    var order := StatusColumnOrder(s.rows);
    var group := GroupColumns(s);
    forall c | c in ReworkStatusColumns + [OutcomeColumn] ensures c in group {
      if c in ReworkStatusColumns {
        assert c in (set x | x in order);
      } else {
        assert group[|order|] == c;
      }
    }
  }

  /** Every column of either frame is in the merged frame under its merged
      name. */
  lemma MergedNames(keys: seq<string>, group: seq<string>, meta: seq<string>)
    ensures forall c | c in keys :: c in keys + RenamedAll(group, meta, "_x") + RenamedAll(meta, group, "_y")
    ensures forall c | c in group :: Renamed(c, meta, "_x") in keys + RenamedAll(group, meta, "_x") + RenamedAll(meta, group, "_y")
    ensures forall c | c in meta :: Renamed(c, group, "_y") in keys + RenamedAll(group, meta, "_x") + RenamedAll(meta, group, "_y")
  {
    var left := RenamedAll(group, meta, "_x");
    var right := RenamedAll(meta, group, "_y");
    var cols := keys + left + right;
    forall c | c in group ensures Renamed(c, meta, "_x") in cols {
      var i :| 0 <= i < |group| && group[i] == c;
      assert cols[|keys| + i] == left[i];
    }
    forall c | c in meta ensures Renamed(c, group, "_y") in cols {
      var i :| 0 <= i < |meta| && meta[i] == c;
      assert cols[|keys| + |left| + i] == right[i];
    }
  }

  /** When both frames carry "Outcome", the merged frame has no column of
      that name. */
  lemma OutcomeRenamed(group: seq<string>, meta: seq<string>)
    requires OutcomeColumn in group && OutcomeColumn in meta
    ensures OutcomeColumn !in PrimaryKeyColumns + RenamedAll(group, meta, "_x") + RenamedAll(meta, group, "_y")
  {
    var left := RenamedAll(group, meta, "_x");
    var right := RenamedAll(meta, group, "_y");
    var cols := PrimaryKeyColumns + left + right;
    forall i | 0 <= i < |cols| ensures cols[i] != OutcomeColumn {
      if 3 <= i < 3 + |left| {
        SuffixedDiffers(group[i - 3], "_x");
      } else if 3 + |left| <= i {
        SuffixedDiffers(meta[i - 3 - |left|], "_y");
      }
    }
  }

  /** A name with a suffix "_x" or "_y" is not "Outcome", whatever the
      name: it ends in the suffix's letter. */
  lemma SuffixedDiffers(c: string, suffix: string)
    requires suffix == "_x" || suffix == "_y"
    ensures c + suffix != OutcomeColumn
  {
    var n := c + suffix;
    assert n[|n| - 1] == suffix[1];
  }

  /** The declared type of a batch column: TEXT for object dtype, REAL
      for every other dtype. */
  function DeclaredType(b: Batch, c: string): SqlType {
    if c in b.textColumns then Text else RealType
  }

  /** One more batch column adds to the table exactly the column it is
      missing. */
  lemma EnsureStep(b: Batch, names: seq<string>, c: string, base: map<string, SqlType>, existing: set<string>)
    ensures base + MissingColumns(b, names + [c], existing) ==
            if c !in existing then (base + MissingColumns(b, names, existing))[c := DeclaredType(b, c)]
            else base + MissingColumns(b, names, existing)
  {
    MissingColumnsStep(b, names, c, existing);
    var m := MissingColumns(b, names, existing);
    if c !in existing {
      assert (base + m)[c := DeclaredType(b, c)] == base + m[c := DeclaredType(b, c)];
    }
  }

  /** The columns of a freshly created table: the key columns as TEXT and
      every other batch column by its dtype. */
  function CreatedColumns(b: Batch): (cols: map<string, SqlType>)
    ensures cols.Keys == (set c | c in PrimaryKeyColumns) + set c | c in b.columns
    ensures forall c | c in PrimaryKeyColumns :: cols[c] == Text
    ensures forall c | c in b.columns && c !in PrimaryKeyColumns :: cols[c] == DeclaredType(b, c)
  {
    map c | c in (set c | c in PrimaryKeyColumns) + (set c | c in b.columns) ::
      if c in PrimaryKeyColumns then Text else DeclaredType(b, c)
  }

  /** The columns each batch column missing from `existing` adds. */
  function MissingColumns(b: Batch, names: seq<string>, existing: set<string>): map<string, SqlType> {
    map c | c in names && c !in existing :: DeclaredType(b, c)
  }

  /** One more name adds its column exactly when it is not among `existing`. */
  lemma MissingColumnsStep(b: Batch, names: seq<string>, c: string, existing: set<string>)
    ensures c !in existing ==> MissingColumns(b, names + [c], existing) == MissingColumns(b, names, existing)[c := DeclaredType(b, c)]
    ensures c in existing ==> MissingColumns(b, names + [c], existing) == MissingColumns(b, names, existing)
  {
    var before := MissingColumns(b, names, existing);
    var after := MissingColumns(b, names + [c], existing);
    if c !in existing {
      assert after.Keys == before.Keys + {c};
    } else {
      assert after.Keys == before.Keys;
    }
  }

  /** The table's columns once `ensure_table` has run on batch `b`. */
  function TableAfterEnsure(existed: bool, cols: map<string, SqlType>, b: Batch): (r: map<string, SqlType>)
    requires existed ==> forall c | c in PrimaryKeyColumns :: c in cols
    ensures forall c | c in b.columns :: c in r
    ensures forall c | c in PrimaryKeyColumns :: c in r
    ensures existed ==> forall c | c in cols :: c in r && r[c] == cols[c]
    ensures forall c | c in r :: c in b.columns || c in PrimaryKeyColumns || (existed && c in cols)
    ensures forall c | c in b.columns && c !in PrimaryKeyColumns && !(existed && c in cols) ::
              r[c] == DeclaredType(b, c)
  {
    var base := if existed then cols else CreatedColumns(b);
    base + MissingColumns(b, b.columns, base.Keys)
  }

  /** The keys a batch writes. */
  function BatchKeys(batch: seq<DefectRecord>): set<Key> {
    set r | r in batch :: r.key
  }

  /** The rows of the `defects` table. Each column of the composite TEXT
      primary key accepts NULL, and SQLite counts two NULLs as distinct, so
      a row whose key has a null part conflicts with no row at all:
      `keyed` holds the rows with a complete key, by key, and `nullKeyed`
      the others, in insertion order. */
  datatype Table = Table(keyed: map<Key, DefectRecord>, nullKeyed: seq<DefectRecord>)

  /** Every keyed row sits under its own complete key, and every other row
      has a null key part. */
  predicate WellFormedTable(t: Table) {
    && (forall k | k in t.keyed :: !k.HasNull() && t.keyed[k].key == k)
    && (forall r | r in t.nullKeyed :: r.key.HasNull())
  }

  predicate IsCompleteKeyed(r: DefectRecord) {
    !r.key.HasNull()
  }

  predicate IsNullKeyed(r: DefectRecord) {
    r.key.HasNull()
  }

  /** The records of a batch whose key is complete, in order. */
  function CompleteKeyed(batch: seq<DefectRecord>): seq<DefectRecord> {
    Filter(IsCompleteKeyed, batch)
  }

  /** The records of a batch with a null key part, in order. */
  function NullKeyed(batch: seq<DefectRecord>): seq<DefectRecord> {
    Filter(IsNullKeyed, batch)
  }

  /** `rec` is in the table: as a row of its own under a complete key, or
      among the rows with a null key part. */
  predicate Stored(t: Table, rec: DefectRecord) {
    if rec.key.HasNull() then rec in t.nullKeyed
    else rec.key in t.keyed && t.keyed[rec.key] == rec
  }

  /** INSERT OR REPLACE of one record: a complete key replaces the row
      with that key, a key with a null part adds a row. */
  function UpsertRow(t: Table, rec: DefectRecord): Table {
    if rec.key.HasNull() then Table(t.keyed, t.nullKeyed + [rec])
    else Table(t.keyed[rec.key := rec], t.nullKeyed)
  }

  /** Replacement by key where a blank key part matches a blank key part,
      which is what the ingest promises for every record. */
  function UpsertByKey(table: map<Key, DefectRecord>, batch: seq<DefectRecord>): (r: map<Key, DefectRecord>)
    ensures r.Keys == table.Keys + BatchKeys(batch)
  {
    if batch == [] then table
    else
      var last := batch[|batch| - 1];
      assert batch == batch[..|batch| - 1] + [last];
      UpsertByKey(table, batch[..|batch| - 1])[last.key := last]
  }

  /** The table after INSERT OR REPLACE of `batch`, row by row. */
  function UpsertAll(t: Table, batch: seq<DefectRecord>): (r: Table)
    ensures WellFormedTable(t) ==> WellFormedTable(r)
  {
    if batch == [] then t
    else UpsertRow(UpsertAll(t, batch[..|batch| - 1]), batch[|batch| - 1])
  }

  /** The row-by-row upsert replaces the rows with a complete key exactly
      as `UpsertByKey` does. */
  lemma {:induction false} UpsertKeyedPart(t: Table, batch: seq<DefectRecord>)
    ensures UpsertAll(t, batch).keyed == UpsertByKey(t.keyed, CompleteKeyed(batch))
  {
    if batch != [] {
      var front := batch[..|batch| - 1];
      var last := batch[|batch| - 1];
      assert batch == front + [last];
      var before := UpsertAll(t, front);
      assert UpsertAll(t, batch) == UpsertRow(before, last);
      UpsertKeyedPart(t, front);
      FilterAppend(IsCompleteKeyed, front, [last]);
      assert [last][1..] == [];
      var complete := CompleteKeyed(front);
      if IsCompleteKeyed(last) {
        var extended := complete + [last];
        assert CompleteKeyed(batch) == extended;
        assert extended[..|extended| - 1] == complete && extended[|extended| - 1] == last;
        assert UpsertByKey(t.keyed, extended) == UpsertByKey(t.keyed, complete)[last.key := last];
      } else {
        assert CompleteKeyed(batch) == complete;
      }
    }
  }

  /** The row-by-row upsert appends every record with a null key part, in
      batch order. */
  lemma {:induction false} UpsertNullKeyedPart(t: Table, batch: seq<DefectRecord>)
    ensures UpsertAll(t, batch).nullKeyed == t.nullKeyed + NullKeyed(batch)
  {
    if batch != [] {
      var front := batch[..|batch| - 1];
      var last := batch[|batch| - 1];
      assert batch == front + [last];
      UpsertNullKeyedPart(t, front);
      FilterAppend(IsNullKeyed, front, [last]);
      assert [last][1..] == [];
      if IsNullKeyed(last) {
        assert NullKeyed(batch) == NullKeyed(front) + [last];
      } else {
        assert NullKeyed(batch) == NullKeyed(front);
      }
    }
  }

  /** Under `UpsertByKey`, a key the batch does not write keeps its row. */
  lemma {:induction false} ByKeyUntouched(table: map<Key, DefectRecord>, batch: seq<DefectRecord>, k: Key)
    requires k in table && k !in BatchKeys(batch)
    ensures UpsertByKey(table, batch)[k] == table[k]
  {
    if batch != [] {
      assert batch == batch[..|batch| - 1] + [batch[|batch| - 1]];
      ByKeyUntouched(table, batch[..|batch| - 1], k);
    }
  }

  /** Under `UpsertByKey`, a key the batch writes holds the last record of
      the batch with that key. */
  lemma {:induction false} ByKeyLastWins(table: map<Key, DefectRecord>, batch: seq<DefectRecord>, i: nat)
    requires i < |batch|
    requires forall j | i < j < |batch| :: batch[j].key != batch[i].key
    ensures UpsertByKey(table, batch)[batch[i].key] == batch[i]
  {
    if i < |batch| - 1 {
      var prefix := batch[..|batch| - 1];
      assert prefix[i] == batch[i];
      ByKeyLastWins(table, prefix, i);
    }
  }

  /** Each key of the batch has a last record in it. */
  lemma LastRecord(batch: seq<DefectRecord>, k: Key) returns (i: nat)
    requires exists j :: 0 <= j < |batch| && batch[j].key == k
    ensures i < |batch| && batch[i].key == k
    ensures forall j | i < j < |batch| :: batch[j].key != k
  {
    i := |batch| - 1;
    while batch[i].key != k
      invariant 0 <= i < |batch|
      invariant exists j :: 0 <= j <= i && batch[j].key == k
      invariant forall j | i < j < |batch| :: batch[j].key != k
      decreases i
    {
      i := i - 1;
    }
  }

  /** Replacing by key with blanks matching blanks is idempotent: the same
      batch upserted again leaves the rows as they are. */
  lemma ByKeyIdempotent(table: map<Key, DefectRecord>, batch: seq<DefectRecord>)
    ensures UpsertByKey(UpsertByKey(table, batch), batch) == UpsertByKey(table, batch)
  {
    var once := UpsertByKey(table, batch);
    var twice := UpsertByKey(once, batch);
    assert twice.Keys == once.Keys;
    forall k | k in once
      ensures twice[k] == once[k]
    {
      if k in BatchKeys(batch) {
        var r :| r in batch && r.key == k;
        var i := LastRecord(batch, k);
        ByKeyLastWins(table, batch, i);
        ByKeyLastWins(once, batch, i);
      } else {
        ByKeyUntouched(table, batch, k);
        ByKeyUntouched(once, batch, k);
      }
    }
  }

  /** A record already in the table stays there when the batch holds no
      record with its key. */
  lemma UpsertUntouched(t: Table, batch: seq<DefectRecord>, rec: DefectRecord)
    requires Stored(t, rec) && rec.key !in BatchKeys(batch)
    ensures Stored(UpsertAll(t, batch), rec)
  {
    UpsertNullKeyedPart(t, batch);
    if !rec.key.HasNull() {
      UpsertKeyedPart(t, batch);
      assert rec.key !in BatchKeys(CompleteKeyed(batch));
      ByKeyUntouched(t.keyed, CompleteKeyed(batch), rec.key);
    }
  }

  /** The last batch record with a given key is in the table afterwards:
      as the row for its key when the key is complete, as a row of its own
      otherwise. */
  lemma {:induction false} UpsertLastWins(t: Table, batch: seq<DefectRecord>, i: nat)
    requires i < |batch|
    requires forall j | i < j < |batch| :: batch[j].key != batch[i].key
    ensures Stored(UpsertAll(t, batch), batch[i])
  {
    var front := batch[..|batch| - 1];
    assert batch == front + [batch[|batch| - 1]];
    if i < |batch| - 1 {
      assert front[i] == batch[i];
      UpsertLastWins(t, front, i);
    }
  }

  /** Upserting a batch whose keys are distinct stores every one of its
      records. */
  lemma UpsertDistinctBatch(t: Table, batch: seq<DefectRecord>)
    requires NoDuplicates(RecordKeys(batch))
    ensures forall r | r in batch :: Stored(UpsertAll(t, batch), r)
  {
    forall r | r in batch
      ensures Stored(UpsertAll(t, batch), r)
    {
      var i :| 0 <= i < |batch| && batch[i] == r;
      forall j | i < j < |batch| ensures batch[j].key != batch[i].key {
        assert RecordKeys(batch)[i] != RecordKeys(batch)[j];
      }
      UpsertLastWins(t, batch, i);
    }
  }

  /** Upserting the same batch again leaves the rows with a complete key as
      they are, but appends every record with a null key part once more:
      the table is unchanged exactly when no key of the batch has a null
      part. */
  lemma UpsertIdempotent(t: Table, batch: seq<DefectRecord>)
    ensures UpsertAll(UpsertAll(t, batch), batch).keyed == UpsertAll(t, batch).keyed
    ensures UpsertAll(UpsertAll(t, batch), batch) == UpsertAll(t, batch) <==> NullKeyed(batch) == []
  {
    var once := UpsertAll(t, batch);
    var twice := UpsertAll(once, batch);
    UpsertKeyedPart(t, batch);
    UpsertKeyedPart(once, batch);
    ByKeyIdempotent(t.keyed, CompleteKeyed(batch));
    UpsertNullKeyedPart(once, batch);
    if NullKeyed(batch) != [] {
      assert |twice.nullKeyed| > |once.nullKeyed|;
    }
  }

  /** Upserting two batches one after the other is upserting their
      concatenation. */
  lemma {:induction false} UpsertConcat(t: Table, a: seq<DefectRecord>, b: seq<DefectRecord>)
    ensures UpsertAll(t, a + b) == UpsertAll(UpsertAll(t, a), b)
    decreases |b|
  {
    if b == [] {
      assert a + b == a;
    } else {
      assert (a + b)[..|a + b| - 1] == a + b[..|b| - 1];
      UpsertConcat(t, a, b[..|b| - 1]);
    }
  }

  /** The table after each batch in turn. */
  function IngestAll(t: Table, batches: seq<Batch>): (r: Table)
    ensures WellFormedTable(t) ==> WellFormedTable(r)
  {
    if batches == [] then t
    else UpsertAll(IngestAll(t, batches[..|batches| - 1]), batches[|batches| - 1].records)
  }

  /** For a key shared by several workbooks, the record in the table is the
      last one of the last workbook that holds the key. */
  lemma {:induction false} LaterFileWins(t: Table, batches: seq<Batch>, f: nat, i: nat)
    requires f < |batches| && i < |batches[f].records|
    requires forall j | i < j < |batches[f].records| :: batches[f].records[j].key != batches[f].records[i].key
    requires forall g | f < g < |batches| :: batches[f].records[i].key !in BatchKeys(batches[g].records)
    ensures Stored(IngestAll(t, batches), batches[f].records[i])
  {
    var n := |batches|;
    var front := batches[..n - 1];
    var rec := batches[f].records[i];
    var before := IngestAll(t, front);
    assert IngestAll(t, batches) == UpsertAll(before, batches[n - 1].records);
    if f < n - 1 {
      assert front[f] == batches[f];
      forall g | f < g < |front| ensures rec.key !in BatchKeys(front[g].records) {
        assert front[g] == batches[g];
      }
      LaterFileWins(t, front, f, i);
      UpsertUntouched(before, batches[n - 1].records, rec);
    } else {
      UpsertLastWins(before, batches[f].records, i);
    }
  }

  /** The table's columns after `ensure_table` on each batch in turn. */
  function ColumnsAfter(existed: bool, cols: map<string, SqlType>, batches: seq<Batch>): (r: map<string, SqlType>)
    requires existed ==> forall c | c in PrimaryKeyColumns :: c in cols
    ensures batches != [] ==> forall c | c in PrimaryKeyColumns :: c in r
    ensures existed ==> forall c | c in cols :: c in r && r[c] == cols[c]
    ensures forall b, c | b in batches && c in b.columns :: c in r
    decreases |batches|
  {
    if batches == [] then cols
    else
      var front := batches[..|batches| - 1];
      var before := ColumnsAfter(existed, cols, front);
      assert forall b | b in batches :: b in front || b == batches[|batches| - 1];
      TableAfterEnsure(existed || front != [], before, batches[|batches| - 1])
  }

  /** The `defects` table of the SQLite database: whether it exists, its
      declared columns, its rows with a complete primary key (by key) and
      its rows with a null key part. */
  class DefectStore {
    var created: bool
    var columns: map<string, SqlType>
    var keyed: map<Key, DefectRecord>
    var nullKeyed: seq<DefectRecord>

    /** All rows of the table. */
    function Rows(): Table
      reads this
    {
      Table(keyed, nullKeyed)
    }

    /** A table that does not exist has no columns and no rows; the rows
        of one that does are filed by their keys. */
    predicate Valid()
      reads this
    {
      && (!created ==> columns == map[] && keyed == map[] && nullKeyed == [])
      && (created ==> forall c | c in PrimaryKeyColumns :: c in columns)
      && WellFormedTable(Rows())
    }

    /** A database without the `defects` table. */
    constructor ()
      ensures Valid() && !created && columns == map[] && keyed == map[] && nullKeyed == []
    {
      created := false;
      columns := map[];
      keyed := map[];
      nullKeyed := [];
    }

    /** CREATE TABLE IF NOT EXISTS, then one ALTER TABLE ADD COLUMN per
        batch column the table lacked before the loop. */
    method EnsureTable(b: Batch)
      requires Valid()
      modifies this
      ensures Valid() && created
      ensures columns == TableAfterEnsure(old(created), old(columns), b)
      ensures keyed == old(keyed) && nullKeyed == old(nullKeyed)
    {
      if !created {
        columns := CreatedColumns(b);
        created := true;
      }
      var base := columns;
      var existing := columns.Keys;
      var cols := columns;
      var i := 0;
      while i < |b.columns|
        invariant 0 <= i <= |b.columns|
        invariant cols == base + MissingColumns(b, b.columns[..i], existing)
        invariant columns == base && created && keyed == old(keyed) && nullKeyed == old(nullKeyed)
      {
        var col := b.columns[i];
        assert b.columns[..i + 1] == b.columns[..i] + [col];
        EnsureStep(b, b.columns[..i], col, base, existing);
        if col !in existing {
          cols := cols[col := DeclaredType(b, col)];
        }
        i := i + 1;
      }
      assert b.columns[..i] == b.columns;
      columns := cols;
    }

    /** INSERT OR REPLACE of every record of the batch, in order. */
    method Upsert(b: Batch)
      requires Valid() && created
      requires forall c | c in b.columns :: c in columns
      modifies this
      ensures Valid() && created
      ensures Rows() == UpsertAll(old(Rows()), b.records)
      ensures columns == old(columns)
    {
      var i := 0;
      while i < |b.records|
        invariant 0 <= i <= |b.records|
        invariant Rows() == UpsertAll(old(Rows()), b.records[..i])
        invariant columns == old(columns) && created
      {
        var rec := b.records[i];
        assert b.records[..i + 1][..i] == b.records[..i];
        if rec.key.HasNull() {
          nullKeyed := nullKeyed + [rec];
        } else {
          keyed := keyed[rec.key := rec];
        }
        i := i + 1;
      }
      assert b.records[..i] == b.records;
    }

    /** Process, ensure the table and upsert each workbook in turn; a
        sheet without a grouping column raises KeyError, which ends the
        run with the earlier workbooks already committed. Processing reads
        only its own sheet, so the workbooks before the first such sheet
        are ingested as one run of batches. Returns whether every workbook
        was ingested. */
    method IngestFiles(sheets: seq<Sheet>) returns (done: bool)
      requires Valid()
      modifies this
      ensures Valid()
      ensures done <==> ReadablePrefix(sheets) == |sheets|
      ensures created == (old(created) || ReadablePrefix(sheets) > 0)
      ensures Rows() == IngestAll(old(Rows()), ProcessAll(sheets[..ReadablePrefix(sheets)]))
      ensures columns == ColumnsAfter(old(created), old(columns), ProcessAll(sheets[..ReadablePrefix(sheets)]))
    {
      var n := ReadablePrefix(sheets);
      IngestBatches(ProcessAll(sheets[..n]));
      done := n == |sheets|;
    }

    /** Ensure the table and upsert each processed workbook in turn. */
    method IngestBatches(batches: seq<Batch>)
      requires Valid()
      modifies this
      ensures Valid()
      ensures created == (old(created) || batches != [])
      ensures Rows() == IngestAll(old(Rows()), batches)
      ensures columns == ColumnsAfter(old(created), old(columns), batches)
    {
      var i := 0;
      while i < |batches|
        invariant 0 <= i <= |batches|
        invariant Valid()
        invariant created == (old(created) || i > 0)
        invariant Rows() == IngestAll(old(Rows()), batches[..i])
        invariant columns == ColumnsAfter(old(created), old(columns), batches[..i])
      {
        var b := batches[i];
        assert batches[..i + 1][..i] == batches[..i];
        EnsureTable(b);
        Upsert(b);
        i := i + 1;
      }
      assert batches[..i] == batches;
    }
  }

  /** `process_file` finds the key and ReworkStatus columns it groups by;
      pandas raises KeyError without one of them. */
  predicate HasGroupColumns(s: Sheet) {
    forall c | c in PrimaryKeyColumns + [ReworkStatusColumn] :: c in s.columns
  }

  /** The number of workbooks `main` ingests: those before the first sheet
      without a grouping column. */
  function ReadablePrefix(sheets: seq<Sheet>): (n: nat)
    ensures n <= |sheets|
    ensures forall i | 0 <= i < n :: HasGroupColumns(sheets[i])
    ensures n < |sheets| ==> !HasGroupColumns(sheets[n])
  {
    if sheets == [] || !HasGroupColumns(sheets[0]) then 0
    else
      var n := 1 + ReadablePrefix(sheets[1..]);
      assert forall i | 1 <= i < n :: sheets[i] == sheets[1..][i - 1];
      n
  }

  /** When the first `i` sheets have their grouping columns and the next
      (if any) does not, `i` is the readable prefix. */
  lemma ReadablePrefixIs(sheets: seq<Sheet>, i: nat)
    requires i <= |sheets| && forall j | 0 <= j < i :: HasGroupColumns(sheets[j])
    requires i < |sheets| ==> !HasGroupColumns(sheets[i])
    ensures ReadablePrefix(sheets) == i
  {
  }

  /** The processed batch of each sheet, in order. */
  function ProcessAll(sheets: seq<Sheet>): (bs: seq<Batch>)
    ensures |bs| == |sheets| && forall i | 0 <= i < |sheets| :: bs[i] == ProcessFile(sheets[i])
  {
    seq(|sheets|, i requires 0 <= i < |sheets| => ProcessFile(sheets[i]))
  }

  /** After ingesting several workbooks, a record whose key no later
      workbook holds is in the table. */
  lemma IngestedRecordStored(t: Table, sheets: seq<Sheet>, f: nat, r: DefectRecord)
    requires f < |sheets| && r in ProcessFile(sheets[f]).records
    requires forall g | f < g < |sheets| :: r.key !in BatchKeys(ProcessFile(sheets[g]).records)
    ensures Stored(IngestAll(t, ProcessAll(sheets)), r)
  {
    var bs := ProcessAll(sheets);
    var rs := ProcessFile(sheets[f]).records;
    assert bs[f].records == rs;
    var i :| 0 <= i < |rs| && rs[i] == r;
    KeyOncePerFile(sheets[f], i);
    forall g | f < g < |bs| ensures r.key !in BatchKeys(bs[g].records) {
      assert bs[g] == ProcessFile(sheets[g]);
    }
    LaterFileWins(t, bs, f, i);
  }

  /** Ingesting the same workbook twice leaves two copies of each of its
      records with a null key part. */
  lemma ReprocessDuplicates(t: Table, s: Sheet, r: DefectRecord)
    requires r in ProcessFile(s).records && r.key.HasNull()
    ensures multiset(IngestAll(t, ProcessAll([s, s])).nullKeyed)[r] >= multiset(t.nullKeyed)[r] + 2
  {
    ProcessTwice(s);
    ReingestDuplicates(t, ProcessFile(s), r);
  }

  lemma ProcessTwice(s: Sheet)
    ensures ProcessAll([s, s]) == [ProcessFile(s), ProcessFile(s)]
  {
    var bs := ProcessAll([s, s]);
    assert |bs| == 2 && bs[0] == ProcessFile(s) && bs[1] == ProcessFile(s);
  }

  /** Ingesting the same batch twice upserts its records twice. */
  lemma ReingestDuplicates(t: Table, b: Batch, r: DefectRecord)
    requires r in b.records && r.key.HasNull()
    ensures multiset(IngestAll(t, [b, b]).nullKeyed)[r] >= multiset(t.nullKeyed)[r] + 2
  {
    assert [b, b][..1] == [b] && [b][..0] == [];
    assert IngestAll(t, [b]) == UpsertAll(t, b.records);
    assert IngestAll(t, [b, b]) == UpsertAll(UpsertAll(t, b.records), b.records);
    ReupsertDuplicates(t, b.records, r);
  }

  /** Upserting a batch twice leaves two copies of each of its records with
      a null key part. */
  lemma ReupsertDuplicates(t: Table, batch: seq<DefectRecord>, r: DefectRecord)
    requires r in batch && r.key.HasNull()
    ensures multiset(UpsertAll(UpsertAll(t, batch), batch).nullKeyed)[r] >= multiset(t.nullKeyed)[r] + 2
  {
    var once := UpsertAll(t, batch);
    UpsertNullKeyedPart(t, batch);
    UpsertNullKeyedPart(once, batch);
    var n := NullKeyed(batch);
    assert IsNullKeyed(r) && r in n;
    assert multiset(t.nullKeyed + n + n) == multiset(t.nullKeyed) + multiset(n) + multiset(n);
  }

  /** A processed workbook holds each key once. */
  lemma KeyOncePerFile(s: Sheet, i: int)
    requires 0 <= i < |ProcessFile(s).records|
    ensures forall j | i < j < |ProcessFile(s).records| :: ProcessFile(s).records[j].key != ProcessFile(s).records[i].key
  {
    var rs := ProcessFile(s).records;
    ProcessFileRecords(s);
    forall j | i < j < |rs| ensures rs[j].key != rs[i].key {
      assert RecordKeys(rs)[i] != RecordKeys(rs)[j];
    }
  }
}
