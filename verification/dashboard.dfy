/** The selection logic of the main dashboard: the filter mask, the
    choices offered for a column, the top-N Ref_Id chart counts and the
    Daily / Weekly / Monthly date presets. */
module Dashboard {
  import opened SeqUtil
  import opened Dates
  import opened Frames
  import opened Ordering

  // ---------------------------------------------------------------------
  // get_unique_values
  // ---------------------------------------------------------------------

  function ColumnCells(rows: seq<Row>, col: string): (cs: seq<Cell>)
    ensures |cs| == |rows| && forall i | 0 <= i < |rows| :: cs[i] == Get(rows[i], col)
  {
    if rows == [] then [] else [Get(rows[0], col)] + ColumnCells(rows[1..], col)
  }

  /** The text values among `cs`, in order. */
  function Texts(cs: seq<Cell>): (ts: seq<string>)
    ensures forall t :: t in ts <==> Text(t) in cs
  {
    if cs == [] then []
    else
      assert forall c | c in cs :: c == cs[0] || c in cs[1..];
      (if cs[0].Text? then [cs[0].s] else []) + Texts(cs[1..])
  }

  /** `sorted(df[column].dropna().unique())`, or no values when the frame
      has no such column. */
  function GetUniqueValues(f: Frame, col: string): (r: seq<string>)
    ensures StrictlySorted(r)
    ensures col !in f.columns ==> r == []
    ensures col in f.columns ==>
              forall t :: t in r <==> exists i :: 0 <= i < |f.rows| && Get(f.rows[i], col) == Text(t)
  {
    if col in f.columns then
      var cs := ColumnCells(f.rows, col);
      assert forall t :: Text(t) in cs <==> exists i :: 0 <= i < |f.rows| && Get(f.rows[i], col) == Text(t);
      SortedUnique(Texts(cs))
    else []
  }

  /** The offered values are THE sorted list of the column's distinct
      values: any strictly increasing list of exactly those values is it. */
  lemma UniqueValuesAreTheSortedValues(f: Frame, col: string, s: seq<string>)
    requires col in f.columns && StrictlySorted(s)
    requires forall t :: t in s <==> exists i :: 0 <= i < |f.rows| && Get(f.rows[i], col) == Text(t)
    ensures GetUniqueValues(f, col) == s
  {
    StrictlySortedUnique(GetUniqueValues(f, col), s);
  }

  // ---------------------------------------------------------------------
  // apply_filters_cached
  // ---------------------------------------------------------------------

  /** The outcome selection: empty selects everything. */
  predicate OutcomeOk(row: Row, outcomeSel: seq<Cell>) {
    outcomeSel != [] ==> Get(row, "Outcome") in outcomeSel
  }

  /** Every non-empty column selection holds the row's value. */
  predicate ColumnsOk(row: Row, filters: seq<(string, seq<Cell>)>) {
    forall j | 0 <= j < |filters| :: filters[j].1 != [] ==> Get(row, filters[j].0) in filters[j].1
  }

  /** The datetime window is used only when a column is named and both
      ends are given. */
  predicate WindowApplies(datetimeCol: Option<string>, start: Option<DateTime>, end: Option<DateTime>) {
    datetimeCol.Some? && datetimeCol.value != "" && start.Some? && end.Some?
  }

  /** `Series.between(start, end)`: both ends included, null never inside. */
  predicate Between(c: Cell, start: DateTime, end: DateTime) {
    c.Moment? && MomentLe(start, c.t) && MomentLe(c.t, end)
  }

  predicate WindowOk(row: Row, datetimeCol: Option<string>, start: Option<DateTime>, end: Option<DateTime>) {
    WindowApplies(datetimeCol, start, end) ==> Between(Get(row, datetimeCol.value), start.value, end.value)
  }

  /** A row passes the dashboard filters. */
  predicate Selected(row: Row, filters: seq<(string, seq<Cell>)>, datetimeCol: Option<string>,
                     start: Option<DateTime>, end: Option<DateTime>, outcomeSel: seq<Cell>) {
    OutcomeOk(row, outcomeSel) && ColumnsOk(row, filters) && WindowOk(row, datetimeCol, start, end)
  }

  /** `df[mask]`: the rows whose mask entry is set, in order. */
  function Select(rows: seq<Row>, mask: seq<bool>): (r: seq<Row>)
    requires |mask| == |rows|
  {
    if rows == [] then []
    else (if mask[0] then [rows[0]] else []) + Select(rows[1..], mask[1..])
  }

  /** Selecting by a mask that holds `p` of each row is filtering by `p`. */
  lemma {:induction false} SelectIsFilter(rows: seq<Row>, mask: seq<bool>, p: Row -> bool)
    requires |mask| == |rows|
    requires forall i | 0 <= i < |rows| :: mask[i] == p(rows[i])
    ensures Select(rows, mask) == Filter(p, rows)
  {
    if rows != [] {
      SelectIsFilter(rows[1..], mask[1..], p);
    }
  }

  /** Builds the boolean mask filter by filter, then selects: the result is
      exactly the input rows, in order, that every non-empty selection
      admits, and with no selection at all every row is kept. */
  method ApplyFilters(f: Frame, filters: seq<(string, seq<Cell>)>, datetimeCol: Option<string>,
                      start: Option<DateTime>, end: Option<DateTime>, outcomeSel: seq<Cell>)
    returns (r: Frame)
    requires outcomeSel != [] ==> "Outcome" in f.columns
    requires forall j | 0 <= j < |filters| :: filters[j].1 != [] ==> filters[j].0 in f.columns
    requires WindowApplies(datetimeCol, start, end) ==> datetimeCol.value in f.columns
    ensures r.columns == f.columns
    ensures r.rows == Filter((row: Row) => Selected(row, filters, datetimeCol, start, end, outcomeSel), f.rows)
    ensures (outcomeSel == [] && (forall j | 0 <= j < |filters| :: filters[j].1 == []) &&
             !WindowApplies(datetimeCol, start, end)) ==> r.rows == f.rows
  {
    var n := |f.rows|;
    var mask := seq(n, i => true);
    if outcomeSel != [] {
      mask := seq(n, i requires 0 <= i < n => mask[i] && Get(f.rows[i], "Outcome") in outcomeSel);
    }
    var k := 0;
    while k < |filters|
      invariant 0 <= k <= |filters| && |mask| == n
      invariant forall i | 0 <= i < n :: mask[i] == (OutcomeOk(f.rows[i], outcomeSel) && ColumnsOk(f.rows[i], filters[..k]))
    {
      var col := filters[k].0;
      var sel := filters[k].1;
      if sel != [] {
        mask := seq(n, i requires 0 <= i < n => mask[i] && Get(f.rows[i], col) in sel);
      }
      forall i | 0 <= i < n
        ensures ColumnsOk(f.rows[i], filters[..k + 1]) == (ColumnsOk(f.rows[i], filters[..k]) &&
                                                           (sel != [] ==> Get(f.rows[i], col) in sel))
      {
        assert filters[..k + 1] == filters[..k] + [filters[k]];
      }
      k := k + 1;
    }
    assert filters[..k] == filters;
    if WindowApplies(datetimeCol, start, end) {
      var dc := datetimeCol.value;
      mask := seq(n, i requires 0 <= i < n => mask[i] && Between(Get(f.rows[i], dc), start.value, end.value));
    }
    var p := (row: Row) => Selected(row, filters, datetimeCol, start, end, outcomeSel);
    SelectIsFilter(f.rows, mask, p);
    r := Frame(f.columns, Select(f.rows, mask));
    if outcomeSel == [] && (forall j | 0 <= j < |filters| :: filters[j].1 == []) &&
       !WindowApplies(datetimeCol, start, end) {
      FilterAll(p, f.rows);
    }
  }

  // ---------------------------------------------------------------------
  // compute_chart_data
  // ---------------------------------------------------------------------

  /** The value a chart row is counted under: the base reference when
      pin-level references are merged, the Ref_Id itself otherwise. */
  function ChartKey(dedup: bool, row: Row): Cell {
    if dedup then BaseRef(Get(row, "Ref_Id")) else Get(row, "Ref_Id")
  }

  /** The duplicate key when merging pins: SerialNumber and base reference,
      then the event minute and the DefectCode when those columns exist. */
  function ChartDedupKey(columns: seq<string>, row: Row): seq<Cell> {
    [Get(row, "SerialNumber"), BaseRef(Get(row, "Ref_Id"))]
    + (if "EventDate" in columns then [FloorMinute(Get(row, "EventDate"))] else [])
    + (if "DefectCode" in columns then [Get(row, "DefectCode")] else [])
  }

  /** The rows that are counted. */
  function ChartRows(f: Frame, dedup: bool): seq<Row> {
    if dedup then DropDuplicates(f.rows, row => ChartDedupKey(f.columns, row)) else f.rows
  }

  function ChartKeys(rows: seq<Row>, dedup: bool): (ks: seq<Cell>)
    ensures |ks| == |rows| && forall i | 0 <= i < |rows| :: ks[i] == ChartKey(dedup, rows[i])
  {
    if rows == [] then [] else [ChartKey(dedup, rows[0])] + ChartKeys(rows[1..], dedup)
  }

  /** The size of the group of `k`. */
  function GroupSize(rows: seq<Row>, dedup: bool, k: Cell): nat {
    if rows == [] then 0
    else (if ChartKey(dedup, rows[0]) == k then 1 else 0) + GroupSize(rows[1..], dedup, k)
  }

  lemma {:induction false} GroupSizePositive(rows: seq<Row>, dedup: bool, k: Cell)
    requires k in ChartKeys(rows, dedup)
    ensures GroupSize(rows, dedup, k) > 0
  {
    if ChartKey(dedup, rows[0]) != k {
      assert ChartKeys(rows, dedup)[1..] == ChartKeys(rows[1..], dedup);
      GroupSizePositive(rows[1..], dedup, k);
    }
  }

  predicate NotNull(c: Cell) {
    !c.Null?
  }

  /** `groupby(key).size()`: one entry per non-null key with its group size. */
  function GroupSizes(rows: seq<Row>, dedup: bool): (g: seq<(Cell, nat)>)
    ensures NoDuplicates(g)
    ensures forall e | e in g :: !e.0.Null? && e.0 in ChartKeys(rows, dedup) && e.1 == GroupSize(rows, dedup, e.0)
    ensures forall k | k in ChartKeys(rows, dedup) && !k.Null? :: (k, GroupSize(rows, dedup, k)) in g
  {
    var ks := Distinct(Filter(NotNull, ChartKeys(rows, dedup)));
    var g := seq(|ks|, i requires 0 <= i < |ks| => (ks[i], GroupSize(rows, dedup, ks[i])));
    forall k | k in ChartKeys(rows, dedup) && !k.Null? ensures (k, GroupSize(rows, dedup, k)) in g {
      var i :| 0 <= i < |ks| && ks[i] == k;
      assert g[i] == (k, GroupSize(rows, dedup, k));
    }
    forall e | e in g ensures !e.0.Null? && e.0 in ChartKeys(rows, dedup) && e.1 == GroupSize(rows, dedup, e.0) {
      var i :| 0 <= i < |g| && g[i] == e;
      assert ks[i] in ks;
    }
    assert NoDuplicates(g) by {
      forall i, j | 0 <= i < j < |g| ensures g[i] != g[j] {
        assert ks[i] != ks[j];
      }
    }
    g
  }

  /** The chart table: the largest groups first, at most `topN` of them;
      nothing for an empty frame or one without Ref_Id. */
  function ChartData(f: Frame, topN: nat, dedup: bool): (r: seq<(Cell, nat)>)
    requires !Empty(f) && "Ref_Id" in f.columns && dedup ==> "SerialNumber" in f.columns
    ensures |r| <= topN
    ensures SortedByCountDesc(r)
  {
    if Empty(f) || "Ref_Id" !in f.columns then []
    else
      var sorted := SortByCountDesc(GroupSizes(ChartRows(f, dedup), dedup));
      sorted[..if topN < |sorted| then topN else |sorted|]
  }

  /** The groups sorted by size: each entry once, each a non-null key
      with its group size, every non-null key present. */
  lemma SortedGroups(rows: seq<Row>, dedup: bool)
    ensures NoDuplicates(SortByCountDesc(GroupSizes(rows, dedup)))
    ensures forall e | e in SortByCountDesc(GroupSizes(rows, dedup)) ::
              !e.0.Null? && e.1 == GroupSize(rows, dedup, e.0) && e.1 > 0
    ensures forall k | k in ChartKeys(rows, dedup) && !k.Null? ::
              (k, GroupSize(rows, dedup, k)) in SortByCountDesc(GroupSizes(rows, dedup))
  {
    var g := GroupSizes(rows, dedup);
    var sorted := SortByCountDesc(g);
    NoDuplicatesMultiset(g);
    NoDuplicatesMultiset(sorted);
    forall e | e in sorted ensures !e.0.Null? && e.1 == GroupSize(rows, dedup, e.0) && e.1 > 0 {
      assert e in multiset(sorted);
      assert e in g;
      GroupSizePositive(rows, dedup, e.0);
    }
    forall k | k in ChartKeys(rows, dedup) && !k.Null?
      ensures (k, GroupSize(rows, dedup, k)) in sorted
    {
      assert (k, GroupSize(rows, dedup, k)) in multiset(g);
    }
  }

  /** Each chart entry is a non-null key with the size of its group, and no
      key appears twice. */
  lemma ChartDataEntries(f: Frame, topN: nat, dedup: bool)
    requires !Empty(f) && "Ref_Id" in f.columns && dedup ==> "SerialNumber" in f.columns
    ensures Empty(f) || "Ref_Id" !in f.columns ==> ChartData(f, topN, dedup) == []
    ensures forall e | e in ChartData(f, topN, dedup) ::
              !e.0.Null? && e.1 == GroupSize(ChartRows(f, dedup), dedup, e.0) && e.1 > 0
    ensures forall i, j | 0 <= i < j < |ChartData(f, topN, dedup)| ::
              ChartData(f, topN, dedup)[i].0 != ChartData(f, topN, dedup)[j].0
  {
    if !Empty(f) && "Ref_Id" in f.columns {
      var rows := ChartRows(f, dedup);
      var sorted := SortByCountDesc(GroupSizes(rows, dedup));
      var r := ChartData(f, topN, dedup);
      assert r == sorted[..|r|];
      SortedGroups(rows, dedup);
      forall i, j | 0 <= i < j < |r| ensures r[i].0 != r[j].0 {
        assert r[i] == sorted[i] && r[j] == sorted[j];
        assert sorted[i] in sorted && sorted[j] in sorted;
      }
    }
  }

  /** The chart is the top `topN`: a non-null key is left off only when all
      `topN` places are taken, by groups at least as large as its own. */
  lemma ChartDataIsTopN(f: Frame, topN: nat, dedup: bool, k: Cell)
    requires !Empty(f) && "Ref_Id" in f.columns
    requires dedup ==> "SerialNumber" in f.columns
    requires k in ChartKeys(ChartRows(f, dedup), dedup) && !k.Null?
    requires forall e | e in ChartData(f, topN, dedup) :: e.0 != k
    ensures |ChartData(f, topN, dedup)| == topN
    ensures forall e | e in ChartData(f, topN, dedup) :: GroupSize(ChartRows(f, dedup), dedup, k) <= e.1
  {
    var rows := ChartRows(f, dedup);
    var sorted := SortByCountDesc(GroupSizes(rows, dedup));
    var r := ChartData(f, topN, dedup);
    assert r == sorted[..|r|];
    SortedGroups(rows, dedup);
    var e := (k, GroupSize(rows, dedup, k));
    var m :| 0 <= m < |sorted| && sorted[m] == e;
    forall i | 0 <= i < |r| ensures r[i] != e {
      assert r[i] in r;
    }
    assert |r| <= m;
    PrefixDominates(sorted, |r|, m);
  }

  /** In a list sorted by count, largest first, every entry before place `m`
      counts at least as much as the entry at `m`. */
  lemma PrefixDominates<K>(sorted: seq<(K, nat)>, n: nat, m: nat)
    requires SortedByCountDesc(sorted) && n <= m < |sorted|
    ensures forall x | x in sorted[..n] :: sorted[m].1 <= x.1
  {
    forall x | x in sorted[..n] ensures sorted[m].1 <= x.1 {
      var i :| 0 <= i < n && sorted[..n][i] == x;
      assert sorted[i] == x;
    }
  }

  /** With pins merged, every chart key is a base reference: text without
      a '.'. */
  lemma ChartKeysAreBaseRefs(f: Frame, topN: nat)
    requires !Empty(f) && "Ref_Id" in f.columns ==> "SerialNumber" in f.columns
    ensures forall i | 0 <= i < |ChartData(f, topN, true)| ::
              ChartData(f, topN, true)[i].0.Text? && '.' !in ChartData(f, topN, true)[i].0.s
  {
    ChartDataEntries(f, topN, true);
    var r := ChartData(f, topN, true);
    var rows := ChartRows(f, true);
    forall i | 0 <= i < |r| ensures r[i].0.Text? && '.' !in r[i].0.s {
      var k := r[i].0;
      assert r[i] in r;
      GroupSizeOfAbsentKey(rows, true, k);
      var j :| 0 <= j < |rows| && ChartKey(true, rows[j]) == k;
      BaseRefIsPrefixBeforeDot(Get(rows[j], "Ref_Id").s);
    }
  }

  /** A key with a non-empty group is the key of some row. */
  lemma {:induction false} GroupSizeOfAbsentKey(rows: seq<Row>, dedup: bool, k: Cell)
    ensures GroupSize(rows, dedup, k) > 0 ==> exists j :: 0 <= j < |rows| && ChartKey(dedup, rows[j]) == k
  {
    if rows != [] && ChartKey(dedup, rows[0]) != k {
      GroupSizeOfAbsentKey(rows[1..], dedup, k);
      if GroupSize(rows, dedup, k) > 0 {
        var j :| 0 <= j < |rows[1..]| && ChartKey(dedup, rows[1..][j]) == k;
        assert rows[j + 1] == rows[1..][j];
      }
    }
  }

  // ---------------------------------------------------------------------
  // Date presets
  // ---------------------------------------------------------------------

  datatype Preset = Daily | Weekly | Monthly

  /** The (start, end) dates a preset picks around the reference date; None
      where Python's date arithmetic overflows. */
  function PresetRange(p: Preset, ref: Date): Option<(Date, Date)>
    requires Valid(ref)
  {
    match p
    case Daily => Some((ref, ref))
    case Weekly =>
      (match SubDays(ref, 6)
       case None => None
       case Some(s) => Some((s, ref)))
    case Monthly =>
      var first := Date(ref.year, ref.month, 1);
      match AddDays(first, 32)
      case None => None
      case Some(later) =>
        match SubDays(Date(later.year, later.month, 1), 1)
        case None => None
        case Some(last) => Some((first, last))
  }

  /** Daily is the reference day; Weekly is the seven days ending with it. */
  lemma DailyAndWeekly(ref: Date)
    requires Valid(ref)
    ensures PresetRange(Daily, ref) == Some((ref, ref))
    ensures PresetRange(Weekly, ref).None? <==> Ordinal(ref) <= 6
    ensures PresetRange(Weekly, ref).Some? ==>
              PresetRange(Weekly, ref).value.1 == ref &&
              Ordinal(PresetRange(Weekly, ref).value.0) + 6 == Ordinal(ref)
  {
  }

  /** The first day of the month after (y, m). */
  function FirstOfNextMonth(y: int, m: int): Date
    requires 1 <= m <= 12
  {
    if m < 12 then Date(y, m + 1, 1) else Date(y + 1, 1, 1)
  }

  /** Thirty-two days after the first of a month fall in the next month. */
  lemma ThirtyTwoDaysLater(y: int, m: int)
    requires Valid(Date(y, m, 1))
    ensures y == MaxYear && m == 12 ==> AddDays(Date(y, m, 1), 32).None?
    ensures !(y == MaxYear && m == 12) ==>
              Valid(FirstOfNextMonth(y, m)) &&
              AddDays(Date(y, m, 1), 32) == Some(Date(FirstOfNextMonth(y, m).year, FirstOfNextMonth(y, m).month,
                                                      33 - DaysInMonth(y, m)))
  {
    if y == MaxYear && m == 12 {
      OrdinalBounds(Date(y, m, 31));
    } else {
      var next := FirstOfNextMonth(y, m);
      var target := Date(next.year, next.month, 33 - DaysInMonth(y, m));
      NextMonthOrdinal(y, m);
      AddDaysByOrdinal(Date(y, m, 1), 32, target);
    }
  }

  /** The first of the next month is a month's length after the first of
      this one, and day `33 - length` of it is 32 days after. */
  lemma NextMonthOrdinal(y: int, m: int)
    requires Valid(Date(y, m, 1)) && !(y == MaxYear && m == 12)
    ensures Valid(FirstOfNextMonth(y, m))
    ensures Valid(Date(FirstOfNextMonth(y, m).year, FirstOfNextMonth(y, m).month, 33 - DaysInMonth(y, m)))
    ensures Ordinal(Date(FirstOfNextMonth(y, m).year, FirstOfNextMonth(y, m).month, 33 - DaysInMonth(y, m))) ==
              Ordinal(Date(y, m, 1)) + 32
  {
    var last := Date(y, m, DaysInMonth(y, m));
    assert NextDay(last) == Some(FirstOfNextMonth(y, m));
  }

  /** The day before the first of the next month is the month's last day. */
  lemma DayBeforeNextMonth(y: int, m: int)
    requires Valid(Date(y, m, 1)) && !(y == MaxYear && m == 12)
    ensures Valid(FirstOfNextMonth(y, m))
    ensures SubDays(FirstOfNextMonth(y, m), 1) == Some(Date(y, m, DaysInMonth(y, m)))
  {
    var last := Date(y, m, DaysInMonth(y, m));
    assert NextDay(last) == Some(FirstOfNextMonth(y, m));
    SubDaysByOrdinal(FirstOfNextMonth(y, m), 1, last);
  }

  /** Monthly is the first to the last day of the reference month, and
      fails only in December 9999. */
  lemma MonthlyIsWholeMonth(ref: Date)
    requires Valid(ref)
    ensures ref.year == MaxYear && ref.month == 12 ==> PresetRange(Monthly, ref).None?
    ensures !(ref.year == MaxYear && ref.month == 12) ==>
              PresetRange(Monthly, ref) ==
                Some((Date(ref.year, ref.month, 1), Date(ref.year, ref.month, DaysInMonth(ref.year, ref.month))))
  {
    ThirtyTwoDaysLater(ref.year, ref.month);
    if !(ref.year == MaxYear && ref.month == 12) {
      DayBeforeNextMonth(ref.year, ref.month);
    }
  }

  /** Every preset range runs from a start no later than the reference date
      to an end no earlier than it. */
  lemma PresetContainsReference(p: Preset, ref: Date)
    requires Valid(ref)
    ensures PresetRange(p, ref).Some? ==>
              DateLe(PresetRange(p, ref).value.0, ref) && DateLe(ref, PresetRange(p, ref).value.1)
  {
    if p == Monthly {
      MonthlyIsWholeMonth(ref);
    } else if p == Weekly && PresetRange(p, ref).Some? {
      DateLeIffOrdinal(PresetRange(p, ref).value.0, ref);
    }
  }
}
