/** Collapsing the raw inspection loops: every (SerialNumber, Ref_Id,
    DefectCode) group of the export becomes one row holding, per
    ReworkStatus value, the number of raw rows of the group with that
    status; the three disposition columns are then guaranteed to exist. */
module Loops {
  import opened SeqUtil
  import opened Outcomes

  /** The grouping key (SerialNumber, Ref_Id, DefectCode). A blank cell is
      `None`; grouping keeps such keys, and two blanks fall in one group. */
  datatype Key = Key(serial: Option<string>, refId: Option<string>, defectCode: Option<string>)
  {
    /** Some part is blank: pandas holds NaN there, SQLite receives NULL. */
    predicate HasNull() {
      serial.None? || refId.None? || defectCode.None?
    }
  }

  /** One raw export row: its key, its ReworkStatus, and the values of its
      other columns (a column missing from `meta` holds a null). */
  datatype RawRow = RawRow(key: Key, status: string, meta: map<string, string>)

  const FalseCallColumn := "False call"
  const OverriddenColumn := "Overridden"
  const ReworkableColumn := "Reworkable"
  const ReworkStatusColumns: seq<string> := [FalseCallColumn, OverriddenColumn, ReworkableColumn]

  /** Number of raw rows with key `k` and status `s`. */
  function Occurrences(rows: seq<RawRow>, k: Key, s: string): nat
  {
    if rows == [] then 0
    else (if rows[0].key == k && rows[0].status == s then 1 else 0) + Occurrences(rows[1..], k, s)
  }

  lemma {:induction false} OccurrencesPositive(rows: seq<RawRow>, k: Key, s: string)
    ensures Occurrences(rows, k, s) > 0 <==>
              exists j :: 0 <= j < |rows| && rows[j].key == k && rows[j].status == s
  {
    if rows != [] {
      OccurrencesPositive(rows[1..], k, s);
      if exists j :: 1 <= j < |rows| && rows[j].key == k && rows[j].status == s {
        var j :| 1 <= j < |rows| && rows[j].key == k && rows[j].status == s;
        assert rows[1..][j - 1] == rows[j];
      }
    }
  }

  /** The disposition counts of key `k`, read straight off the raw rows. */
  function KeyCounts(rows: seq<RawRow>, k: Key): Counts {
    Counts(Occurrences(rows, k, FalseCallColumn), Occurrences(rows, k, OverriddenColumn),
           Occurrences(rows, k, ReworkableColumn))
  }

  function KeysOf(rows: seq<RawRow>): (ks: seq<Key>)
    ensures |ks| == |rows| && forall i | 0 <= i < |rows| :: ks[i] == rows[i].key
  {
    if rows == [] then [] else [rows[0].key] + KeysOf(rows[1..])
  }

  /** The ReworkStatus values present anywhere in the export: the columns
      that unstacking the status counts creates. */
  function Statuses(rows: seq<RawRow>): set<string> {
    set r | r in rows :: r.status
  }

  /** One collapsed row: its key and one count per status column. */
  datatype CountRow = CountRow(key: Key, counts: map<string, nat>)

  /** The collapsed table: its status columns and its rows. */
  datatype StatusTable = StatusTable(columns: set<string>, rows: seq<CountRow>)

  /** Every row has a value in exactly the table's status columns. */
  predicate WellFormed(t: StatusTable) {
    forall i | 0 <= i < |t.rows| :: t.rows[i].counts.Keys == t.columns
  }

  /** The keys of collapsed rows, in order. */
  function RowKeys(rs: seq<CountRow>): (ks: seq<Key>)
    ensures |ks| == |rs| && forall i | 0 <= i < |rs| :: ks[i] == rs[i].key
  {
    seq(|rs|, i requires 0 <= i < |rs| => rs[i].key)
  }

  function TableKeys(t: StatusTable): (ks: seq<Key>)
    ensures |ks| == |t.rows| && forall i | 0 <= i < |t.rows| :: ks[i] == t.rows[i].key
  {
    RowKeys(t.rows)
  }

  /** Selecting rows of a table whose keys are distinct keeps them distinct. */
  lemma {:induction false} FilterKeepsKeysDistinct(p: CountRow -> bool, rs: seq<CountRow>)
    requires NoDuplicates(RowKeys(rs))
    ensures NoDuplicates(RowKeys(Filter(p, rs)))
  {
    if rs != [] {
      assert NoDuplicates(RowKeys(rs[1..])) by {
        forall i, j | 0 <= i < j < |rs| - 1
          ensures RowKeys(rs[1..])[i] != RowKeys(rs[1..])[j]
        {
          assert RowKeys(rs)[i + 1] != RowKeys(rs)[j + 1];
        }
      }
      FilterKeepsKeysDistinct(p, rs[1..]);
      var tail := Filter(p, rs[1..]);
      if p(rs[0]) {
        forall j | 0 <= j < |tail|
          ensures tail[j].key != rs[0].key
        {
          assert tail[j] in rs[1..];
          var m :| 0 <= m < |rs[1..]| && rs[1..][m] == tail[j];
          assert RowKeys(rs)[0] != RowKeys(rs)[m + 1];
        }
        assert Filter(p, rs) == [rs[0]] + tail;
      } else {
        assert Filter(p, rs) == tail;
      }
    }
  }

  /** Group by key and status, count, and unstack with zero fill. */
  function Collapse(rows: seq<RawRow>): (t: StatusTable)
    ensures WellFormed(t)
    ensures t.columns == Statuses(rows)
    ensures NoDuplicates(TableKeys(t))
    ensures forall k | k in TableKeys(t) :: k in KeysOf(rows)
    ensures forall k | k in KeysOf(rows) :: k in TableKeys(t)
    ensures forall i, s | 0 <= i < |t.rows| && s in t.columns ::
              t.rows[i].counts[s] == Occurrences(rows, t.rows[i].key, s)
  {
    var ks := Distinct(KeysOf(rows));
    var cols := Statuses(rows);
    var t := StatusTable(cols, seq(|ks|, i requires 0 <= i < |ks| =>
                                        CountRow(ks[i], map s | s in cols :: Occurrences(rows, ks[i], s))));
    assert TableKeys(t) == ks;
    t
  }

  /** The count of status `c`, 0 when the row has no such column. */
  function CountOf(r: CountRow, c: string): nat {
    if c in r.counts then r.counts[c] else 0
  }

  /** The three disposition counts a classifier reads from a row. */
  function StatusCounts(r: CountRow): Counts {
    Counts(CountOf(r, FalseCallColumn), CountOf(r, OverriddenColumn), CountOf(r, ReworkableColumn))
  }

  /** Add the status column `c`, holding 0 in every row. */
  function AddZeroColumn(t: StatusTable, c: string): (u: StatusTable)
    requires WellFormed(t)
    ensures WellFormed(u) && u.columns == t.columns + {c}
  {
    StatusTable(t.columns + {c},
                seq(|t.rows|, i requires 0 <= i < |t.rows| => CountRow(t.rows[i].key, t.rows[i].counts[c := 0])))
  }

  /** Add each of `cols` that the table lacks, as an all-zero column. */
  function WithColumns(t: StatusTable, cols: seq<string>): (u: StatusTable)
    requires WellFormed(t)
    ensures WellFormed(u)
    ensures u.columns == t.columns + set c | c in cols
    ensures |u.rows| == |t.rows|
    ensures forall i | 0 <= i < |t.rows| :: u.rows[i].key == t.rows[i].key
    ensures forall i, s | 0 <= i < |t.rows| && s in t.columns ::
              u.rows[i].counts[s] == t.rows[i].counts[s]
    ensures forall i, s | 0 <= i < |t.rows| && s in u.columns && s !in t.columns ::
              u.rows[i].counts[s] == 0
    decreases |cols|
  {
    if cols == [] then t
    else
      var next := if cols[0] in t.columns then t else AddZeroColumn(t, cols[0]);
      var u := WithColumns(next, cols[1..]);
      assert (set c | c in cols) == {cols[0]} + set c | c in cols[1..];
      u
  }

  /** The collapsed table once the three disposition columns exist. */
  function WithStatusColumns(t: StatusTable): (u: StatusTable)
    requires WellFormed(t)
  {
    WithColumns(t, ReworkStatusColumns)
  }

  /** The loop that inserts each missing disposition column with value 0. */
  method EnsureStatusColumns(t: StatusTable) returns (u: StatusTable)
    requires WellFormed(t)
    ensures WellFormed(u)
    ensures u == WithStatusColumns(t)
  {
    u := t;
    var i := 0;
    while i < |ReworkStatusColumns|
      invariant 0 <= i <= |ReworkStatusColumns|
      invariant WellFormed(u)
      invariant WithColumns(u, ReworkStatusColumns[i..]) == WithStatusColumns(t)
    {
      var col := ReworkStatusColumns[i];
      assert ReworkStatusColumns[i..][1..] == ReworkStatusColumns[i + 1..];
      if col !in u.columns {
        u := AddZeroColumn(u, col);
      }
      i := i + 1;
    }
    assert ReworkStatusColumns[i..] == [];
  }

  /** After collapsing and adding the disposition columns, a row's three
      counts are the numbers of raw rows of its key with each disposition,
      0 for a disposition the export never mentions. */
  lemma CollapsedRowCounts(rows: seq<RawRow>, g: CountRow)
    requires g in WithStatusColumns(Collapse(rows)).rows
    ensures FalseCallColumn in g.counts && OverriddenColumn in g.counts && ReworkableColumn in g.counts
    ensures StatusCounts(g) == KeyCounts(rows, g.key)
  {
    var u := WithStatusColumns(Collapse(rows));
    var i :| 0 <= i < |u.rows| && u.rows[i] == g;
    CollapsedColumnCount(rows, i, FalseCallColumn);
    CollapsedColumnCount(rows, i, OverriddenColumn);
    CollapsedColumnCount(rows, i, ReworkableColumn);
  }

  /** One disposition column of one collapsed row. */
  lemma CollapsedColumnCount(rows: seq<RawRow>, i: int, c: string)
    requires 0 <= i < |WithStatusColumns(Collapse(rows)).rows|
    requires c in ReworkStatusColumns
    ensures c in WithStatusColumns(Collapse(rows)).rows[i].counts
    ensures WithStatusColumns(Collapse(rows)).rows[i].counts[c] ==
              Occurrences(rows, WithStatusColumns(Collapse(rows)).rows[i].key, c)
  {
    var t := Collapse(rows);
    var u := WithStatusColumns(t);
    var k := u.rows[i].key;
    assert k == t.rows[i].key;
    assert c in u.columns;
    if c !in t.columns {
      OccurrencesPositive(rows, k, c);
    }
  }

  /** Adding the disposition columns keeps the collapsed keys. */
  lemma CollapsedKeys(rows: seq<RawRow>)
    ensures TableKeys(WithStatusColumns(Collapse(rows))) == TableKeys(Collapse(rows))
  {
  }

  /** Some disposition count of a key is positive exactly when a raw row
      of that key carries one of the three dispositions. */
  lemma KeyCountsPositive(rows: seq<RawRow>, k: Key)
    ensures KeyCounts(rows, k) != Counts(0, 0, 0) <==>
              exists j :: 0 <= j < |rows| && rows[j].key == k && rows[j].status in ReworkStatusColumns
  {
    OccurrencesPositive(rows, k, FalseCallColumn);
    OccurrencesPositive(rows, k, OverriddenColumn);
    OccurrencesPositive(rows, k, ReworkableColumn);
  }

  /** The metadata pandas' `first()` gives a key: per column, the value of
      the first row of the group where that column is not null. */
  function FirstMeta(rows: seq<RawRow>, k: Key): map<string, string> {
    if rows == [] then map[]
    else FirstMeta(rows[1..], k) + (if rows[0].key == k then rows[0].meta else map[])
  }

  /** A column has a first value for a key exactly when some row of that
      key holds the column. */
  lemma {:induction false} FirstMetaDefined(rows: seq<RawRow>, k: Key, c: string)
    ensures c in FirstMeta(rows, k) <==>
              exists j :: 0 <= j < |rows| && rows[j].key == k && c in rows[j].meta
  {
    if rows != [] {
      FirstMetaDefined(rows[1..], k, c);
      if exists j :: 1 <= j < |rows| && rows[j].key == k && c in rows[j].meta {
        var j :| 1 <= j < |rows| && rows[j].key == k && c in rows[j].meta;
        assert rows[1..][j - 1] == rows[j];
      }
    }
  }

  /** The first value is that of the first row of the key holding the
      column. */
  lemma {:induction false} FirstMetaIsFirstNonNull(rows: seq<RawRow>, k: Key, c: string, j: int)
    requires 0 <= j < |rows| && rows[j].key == k && c in rows[j].meta
    requires forall i | 0 <= i < j :: !(rows[i].key == k && c in rows[i].meta)
    ensures c in FirstMeta(rows, k) && FirstMeta(rows, k)[c] == rows[j].meta[c]
  {
    if j > 0 {
      assert rows[1..][j - 1] == rows[j];
      forall i | 0 <= i < j - 1
        ensures !(rows[1..][i].key == k && c in rows[1..][i].meta)
      {
        assert rows[1..][i] == rows[i + 1];
      }
      FirstMetaIsFirstNonNull(rows[1..], k, c, j - 1);
      assert !(rows[0].key == k && c in rows[0].meta);
    }
  }
}
