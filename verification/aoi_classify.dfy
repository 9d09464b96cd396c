/** The four-outcome classification pipeline of one AOI export:
    collapse the loops, add the disposition columns, label each key with
    the four-way table, drop the "None" rows and join the first-row
    metadata back on the key. The ingestion step runs the same pipeline
    on every workbook. */
module AoiClassify {
  import opened SeqUtil
  import opened Outcomes
  import opened Loops

  /** One output row: key, count per status column, outcome, metadata. */
  datatype DefectRecord = DefectRecord(key: Key, counts: map<string, nat>, outcome: Outcome,
                                       meta: map<string, string>)

  /** The keys of output records, in order. `Loops.RowKeys` is the same
      projection on collapsed rows; the two are kept apart because a
      `DefectRecord` and a `CountRow` are different types, and `MergeMeta`
      states that the one sequence of keys equals the other. */
  function RecordKeys(out: seq<DefectRecord>): (ks: seq<Key>)
    ensures |ks| == |out| && forall i | 0 <= i < |out| :: ks[i] == out[i].key
  {
    seq(|out|, i requires 0 <= i < |out| => out[i].key)
  }

  /** Keeps a collapsed row when the four-way table gives it a real label. */
  predicate IsClassified(r: CountRow) {
    ClassifyFour(StatusCounts(r)) != Unclassified
  }

  /** Label the surviving rows and attach each key's first-row metadata. */
  function MergeMeta(rows: seq<RawRow>, kept: seq<CountRow>): (out: seq<DefectRecord>)
    ensures RecordKeys(out) == RowKeys(kept)
    ensures forall i | 0 <= i < |out| ::
              && out[i].counts == kept[i].counts
              && out[i].outcome == ClassifyFour(StatusCounts(kept[i]))
              && out[i].meta == FirstMeta(rows, kept[i].key)
  {
    var out := seq(|kept|, i requires 0 <= i < |kept| =>
                 DefectRecord(kept[i].key, kept[i].counts, ClassifyFour(StatusCounts(kept[i])),
                              FirstMeta(rows, kept[i].key)));
    assert RecordKeys(out) == RowKeys(kept);
    out
  }

  /** The classified table of one export. */
  function Classified(rows: seq<RawRow>): seq<DefectRecord> {
    var grp := WithStatusColumns(Collapse(rows));
    MergeMeta(rows, Filter(IsClassified, grp.rows))
  }

  /** The output has at most one row per (SerialNumber, Ref_Id, DefectCode). */
  lemma ClassifiedKeysUnique(rows: seq<RawRow>)
    ensures NoDuplicates(RecordKeys(Classified(rows)))
  {
    var grp := WithStatusColumns(Collapse(rows));
    CollapsedKeys(rows);
    assert RowKeys(grp.rows) == TableKeys(Collapse(rows));
    FilterKeepsKeysDistinct(IsClassified, grp.rows);
  }

  /** An output row carries, for each disposition, the number of raw rows
      of its key with that disposition; its outcome is the four-way label
      of those counts and never "None"; its metadata is that of the first
      raw rows of its key. */
  lemma ClassifiedRow(rows: seq<RawRow>, r: DefectRecord)
    requires r in Classified(rows)
    ensures FalseCallColumn in r.counts && r.counts[FalseCallColumn] == Occurrences(rows, r.key, FalseCallColumn)
    ensures OverriddenColumn in r.counts && r.counts[OverriddenColumn] == Occurrences(rows, r.key, OverriddenColumn)
    ensures ReworkableColumn in r.counts && r.counts[ReworkableColumn] == Occurrences(rows, r.key, ReworkableColumn)
    ensures r.outcome == ClassifyFour(KeyCounts(rows, r.key))
    ensures r.outcome != Unclassified
    ensures r.meta == FirstMeta(rows, r.key)
  {
    var grp := WithStatusColumns(Collapse(rows));
    var kept := Filter(IsClassified, grp.rows);
    var out := MergeMeta(rows, kept);
    var i :| 0 <= i < |out| && out[i] == r;
    var g := kept[i];
    assert RowKeys(kept)[i] == g.key && r.key == g.key;
    assert r.counts == g.counts && r.outcome == ClassifyFour(StatusCounts(g));
    CollapsedRowCounts(rows, g);
    UnclassifiedExactlyWhenNoDisposition(StatusCounts(g));
  }

  /** A key is in the output exactly when some raw row of that key carries
      one of the three dispositions. */
  lemma ClassifiedCoversKeys(rows: seq<RawRow>, k: Key)
    ensures k in RecordKeys(Classified(rows)) <==>
              exists j :: 0 <= j < |rows| && rows[j].key == k && rows[j].status in ReworkStatusColumns
  {
    KeyCountsPositive(rows, k);
    var kept := Filter(IsClassified, WithStatusColumns(Collapse(rows)).rows);
    assert RecordKeys(Classified(rows)) == RowKeys(kept);
    if KeyCounts(rows, k) != Counts(0, 0, 0) {
      ClassifiedHasKey(rows, k);
    }
    if k in RowKeys(kept) {
      KeptKeyHasDisposition(rows, k);
    }
  }

  /** A kept key has some disposition. */
  lemma KeptKeyHasDisposition(rows: seq<RawRow>, k: Key)
    requires k in RowKeys(Filter(IsClassified, WithStatusColumns(Collapse(rows)).rows))
    ensures KeyCounts(rows, k) != Counts(0, 0, 0)
  {
    var kept := Filter(IsClassified, WithStatusColumns(Collapse(rows)).rows);
    var i :| 0 <= i < |kept| && RowKeys(kept)[i] == k;
    var g := kept[i];
    assert g in kept;
    CollapsedRowCounts(rows, g);
    UnclassifiedExactlyWhenNoDisposition(StatusCounts(g));
  }

  lemma ClassifiedHasKey(rows: seq<RawRow>, k: Key)
    requires KeyCounts(rows, k) != Counts(0, 0, 0)
    ensures k in RowKeys(Filter(IsClassified, WithStatusColumns(Collapse(rows)).rows))
  {
    var grp := WithStatusColumns(Collapse(rows));
    KeyCountsPositive(rows, k);
    var j :| 0 <= j < |rows| && rows[j].key == k && rows[j].status in ReworkStatusColumns;
    assert KeysOf(rows)[j] == k;
    CollapsedKeys(rows);
    assert k in TableKeys(grp);
    var m :| 0 <= m < |grp.rows| && TableKeys(grp)[m] == k;
    KeptWhenClassified(rows, grp.rows[m]);
  }

  /** A collapsed row with some disposition is kept, under its key. */
  lemma KeptWhenClassified(rows: seq<RawRow>, g: CountRow)
    requires g in WithStatusColumns(Collapse(rows)).rows
    requires KeyCounts(rows, g.key) != Counts(0, 0, 0)
    ensures g.key in RowKeys(Filter(IsClassified, WithStatusColumns(Collapse(rows)).rows))
  {
    var kept := Filter(IsClassified, WithStatusColumns(Collapse(rows)).rows);
    CollapsedRowCounts(rows, g);
    UnclassifiedExactlyWhenNoDisposition(StatusCounts(g));
    assert IsClassified(g);
    assert g in kept;
    var i :| 0 <= i < |kept| && kept[i] == g;
    assert RowKeys(kept)[i] == g.key;
  }
}
