/** The Action Tracker page's view of the defects table: the date, machine,
    part and ISO-week slice, the outcome tallies over a date range, the
    pin-level de-duplication, and the default week range. */
module Tracker {
  import opened SeqUtil
  import opened Dates
  import opened Frames
  import opened Outcomes

  // ---------------------------------------------------------------------
  // slice_defects
  // ---------------------------------------------------------------------

  /** `dt.date.between(start, end)`: the cell's calendar date lies in
      [start, end]; a cell holding no moment (NaT) never does. */
  predicate OnDateIn(c: Cell, start: Date, end: Date) {
    c.Moment? && DateLe(start, c.t.date) && DateLe(c.t.date, end)
  }

  /** `Series.isin(sel)`: the cell equals one of the selected values,
      whatever their kind (the options are the column's own values). */
  predicate IsIn(c: Cell, sel: seq<Cell>) {
    c in sel
  }

  /** A selection constrains the slice only when the filters are enabled
      and it is not empty. */
  predicate Constrains(enable: bool, sel: seq<Cell>) {
    enable && sel != []
  }

  /** A row survives the slice: its event falls in [start, end] and every
      selection that constrains holds its value. */
  predicate SliceKeeps(row: Row, start: Date, end: Date, machines: seq<Cell>, parts: seq<Cell>,
                       weeks: seq<Cell>, enable: bool) {
    && OnDateIn(Get(row, "EventDate"), start, end)
    && (Constrains(enable, machines) ==> IsIn(Get(row, "MachineName"), machines))
    && (Constrains(enable, parts) ==> IsIn(Get(row, "PartNumber"), parts))
    && (Constrains(enable, weeks) ==> IsIn(Get(row, "ISO_Week"), weeks))
  }

  /** The columns the slice reads, which a non-empty frame must have. */
  predicate SliceColumnsPresent(f: Frame, machines: seq<Cell>, parts: seq<Cell>, weeks: seq<Cell>,
                                enable: bool) {
    !Empty(f) ==>
      && "EventDate" in f.columns
      && (Constrains(enable, machines) ==> "MachineName" in f.columns)
      && (Constrains(enable, parts) ==> "PartNumber" in f.columns)
      && (Constrains(enable, weeks) ==> "ISO_Week" in f.columns)
  }

  /** The event of the row falls in [start, end]. */
  function EventIn(start: Date, end: Date): Row -> bool {
    (row: Row) => OnDateIn(Get(row, "EventDate"), start, end)
  }

  /** The row's `col` is one of the selected values. */
  function HasIn(col: string, sel: seq<Cell>): Row -> bool {
    (row: Row) => IsIn(Get(row, col), sel)
  }

  /** The selection on `col`, when it constrains, holds the row's value. */
  function Admits(col: string, sel: seq<Cell>, enable: bool): Row -> bool {
    (row: Row) => Constrains(enable, sel) ==> IsIn(Get(row, col), sel)
  }

  /** An optional filter step: `rows[rows[col].isin(sel)]` when the
      selection constrains, the rows unchanged otherwise. */
  function IsInStep(rows: seq<Row>, col: string, sel: seq<Cell>, enable: bool): seq<Row> {
    if Constrains(enable, sel) then Filter(HasIn(col, sel), rows) else rows
  }

  /** An empty frame comes back as it is; otherwise the rows in the date
      range, narrowed by the machine, part and week selections in turn. */
  function SliceDefects(f: Frame, start: Date, end: Date, machines: seq<Cell>, parts: seq<Cell>,
                        weeks: seq<Cell>, enable: bool): (r: Frame)
    requires SliceColumnsPresent(f, machines, parts, weeks, enable)
    ensures r.columns == f.columns
  {
    if Empty(f) then f
    else
      var out := Filter(EventIn(start, end), f.rows);
      var out1 := IsInStep(out, "MachineName", machines, enable);
      var out2 := IsInStep(out1, "PartNumber", parts, enable);
      var out3 := IsInStep(out2, "ISO_Week", weeks, enable);
      Frame(f.columns, out3)
  }

  /** An optional filter step keeps exactly the rows for which the
      selection, when it constrains, holds. */
  lemma IsInStepIsFilter(rows: seq<Row>, col: string, sel: seq<Cell>, enable: bool)
    ensures IsInStep(rows, col, sel, enable) == Filter(Admits(col, sel, enable), rows)
  {
    if Constrains(enable, sel) {
      FilterSameOn(HasIn(col, sel), Admits(col, sel, enable), rows);
    } else {
      FilterAll(Admits(col, sel, enable), rows);
    }
  }

  /** The condition a row must meet to survive the slice. */
  function Keeps(start: Date, end: Date, machines: seq<Cell>, parts: seq<Cell>, weeks: seq<Cell>,
                 enable: bool): Row -> bool {
    (row: Row) => SliceKeeps(row, start, end, machines, parts, weeks, enable)
  }

  /** `slice_defects` keeps exactly the input rows, in their order, whose
      event date lies in [start, end] and that every enabled, non-empty
      selection admits; an empty frame is returned unchanged. */
  lemma SliceDefectsSelects(f: Frame, start: Date, end: Date, machines: seq<Cell>, parts: seq<Cell>,
                            weeks: seq<Cell>, enable: bool)
    requires SliceColumnsPresent(f, machines, parts, weeks, enable)
    ensures Empty(f) ==> SliceDefects(f, start, end, machines, parts, weeks, enable) == f
    ensures !Empty(f) ==>
              (SliceDefects(f, start, end, machines, parts, weeks, enable).rows ==
               Filter(Keeps(start, end, machines, parts, weeks, enable), f.rows))
  {
    if !Empty(f) {
      var p0 := EventIn(start, end);
      var pm := Admits("MachineName", machines, enable);
      var pp := Admits("PartNumber", parts, enable);
      var pw := Admits("ISO_Week", weeks, enable);
      IsInStepIsFilter(Filter(p0, f.rows), "MachineName", machines, enable);
      FilterFilter(p0, pm, f.rows);
      IsInStepIsFilter(Filter(Both(p0, pm), f.rows), "PartNumber", parts, enable);
      FilterFilter(Both(p0, pm), pp, f.rows);
      IsInStepIsFilter(Filter(Both(Both(p0, pm), pp), f.rows), "ISO_Week", weeks, enable);
      FilterFilter(Both(Both(p0, pm), pp), pw, f.rows);
      FilterSameOn(Both(Both(Both(p0, pm), pp), pw), Keeps(start, end, machines, parts, weeks, enable), f.rows);
    }
  }

  /** With the filters switched off, or every selection empty, only the
      date range applies. */
  lemma SliceWithoutSelections(f: Frame, start: Date, end: Date, machines: seq<Cell>, parts: seq<Cell>,
                               weeks: seq<Cell>, enable: bool)
    requires !enable || (machines == [] && parts == [] && weeks == [])
    requires !Empty(f) ==> "EventDate" in f.columns
    ensures forall row ::
              row in SliceDefects(f, start, end, machines, parts, weeks, enable).rows <==>
              row in f.rows && (Empty(f) || OnDateIn(Get(row, "EventDate"), start, end))
  {
    SliceDefectsSelects(f, start, end, machines, parts, weeks, enable);
  }

  // ---------------------------------------------------------------------
  // filter_defects_by_range
  // ---------------------------------------------------------------------

  /** ASCII lower case. */
  function Lower(s: string): (r: string)
    ensures |r| == |s|
  {
    if s == [] then []
    else [if 'A' <= s[0] <= 'Z' then (s[0] as int + 32) as char else s[0]] + Lower(s[1..])
  }

  /** `sub in s` for strings: `sub` starts at some position of `s`. */
  predicate Contains(s: string, sub: string) {
    |sub| <= |s| && (s[..|sub|] == sub || Contains(s[1..], sub))
  }

  /** A column whose lower-cased name mentions "date" or "time". */
  predicate IsDateName(c: string) {
    Contains(Lower(c), "date") || Contains(Lower(c), "time")
  }

  /** The first column whose name mentions a date or a time, if any. */
  function FirstDateColumn(cols: seq<string>): (r: Option<string>)
    ensures r.None? <==> forall c | c in cols :: !IsDateName(c)
    ensures r.Some? ==> exists i | 0 <= i < |cols| :: cols[i] == r.value && IsDateName(cols[i]) &&
                                                  forall j | 0 <= j < i :: !IsDateName(cols[j])
  {
    if cols == [] then None
    else if IsDateName(cols[0]) then Some(cols[0])
    else
      var r := FirstDateColumn(cols[1..]);
      assert forall c | c in cols[1..] :: c in cols;
      assert forall c | c in cols :: c == cols[0] || c in cols[1..];
      if r.Some? then
        var i :| 0 <= i < |cols[1..]| && cols[1..][i] == r.value && IsDateName(cols[1..][i]) &&
                 forall j | 0 <= j < i :: !IsDateName(cols[1..][j]);
        assert cols[i + 1] == r.value;
        assert forall j | 1 <= j < i + 1 :: cols[j] == cols[1..][j - 1];
        r
      else r
  }

  /** The search for the date column: the columns are scanned in order and
      the scan stops at the first whose name mentions a date or a time. */
  method FindDateColumn(cols: seq<string>) returns (r: Option<string>)
    ensures r == FirstDateColumn(cols)
  {
    r := None;
    var i := 0;
    while i < |cols|
      invariant 0 <= i <= |cols|
      invariant FirstDateColumn(cols) == FirstDateColumn(cols[i..])
    {
      if IsDateName(cols[i]) {
        r := Some(cols[i]);
        return;
      }
      assert cols[i..][1..] == cols[i + 1..];
      i := i + 1;
    }
  }

  /** A row lies in the date range of `filter_defects_by_range`: every row
      does when no column names a date or a time. */
  predicate InDateRange(cols: seq<string>, row: Row, start: Date, end: Date) {
    match FirstDateColumn(cols)
    case None => true
    case Some(c) => OnDateIn(Get(row, c), start, end)
  }

  /** The rows whose first date-like column falls in [start, end]; the
      frame itself when it is empty or has no such column. */
  function FilterDefectsByRange(f: Frame, start: Date, end: Date): (r: Frame)
    ensures r.columns == f.columns
  {
    if Empty(f) then f
    else match FirstDateColumn(f.columns)
      case None => f
      case Some(c) => Frame(f.columns, Filter((row: Row) => OnDateIn(Get(row, c), start, end), f.rows))
  }

  /** The ranged rows are the input rows in range, in their order. */
  lemma FilterDefectsByRangeSelects(f: Frame, start: Date, end: Date)
    ensures Subsequence(FilterDefectsByRange(f, start, end).rows, f.rows)
    ensures forall row :: row in FilterDefectsByRange(f, start, end).rows <==>
                          row in f.rows && InDateRange(f.columns, row, start, end)
  {
    if Empty(f) {
      assert f.rows == [] || forall row | row in f.rows :: InDateRange(f.columns, row, start, end);
      SubsequenceRefl(f.rows);
    } else {
      match FirstDateColumn(f.columns)
      case None =>
        SubsequenceRefl(f.rows);
      case Some(c) =>
        FilterIsSubsequence((row: Row) => OnDateIn(Get(row, c), start, end), f.rows);
    }
  }

  // ---------------------------------------------------------------------
  // get_defect_counts
  // ---------------------------------------------------------------------

  /** The four tallies the page shows. */
  const TallyKeys: set<string> := {"False", "Real", "Fixed", "Suspect"}

  /** The row's Outcome is the given label. */
  function HasOutcome(name: string): Row -> bool {
    (row: Row) => Get(row, "Outcome") == Text(name)
  }

  /** `value_counts().get(name, 0)`: the rows whose Outcome is `name`. */
  function LabelCount(rows: seq<Row>, name: string): nat {
    |Filter(HasOutcome(name), rows)|
  }

  /** The outcome counted under a tally key: "Fixed" counts the label
      "Fixed from previously caught". */
  function TalliedOutcome(k: string): (o: Outcome)
    requires k in TallyKeys
    ensures o != Unclassified
  {
    if k == "False" then False
    else if k == "Real" then Real
    else if k == "Fixed" then Fixed
    else Suspect
  }

  /** The outcome tallies over the rows in [start, end]; all zero when the
      frame is empty or has no Outcome column. */
  function DefectCounts(f: Frame, start: Date, end: Date): (r: map<string, nat>)
    ensures r.Keys == TallyKeys
  {
    if Empty(f) || "Outcome" !in f.columns then
      map k | k in TallyKeys :: 0
    else
      var rng := FilterDefectsByRange(f, start, end).rows;
      map k | k in TallyKeys :: LabelCount(rng, Label(TalliedOutcome(k)))
  }

  /** The tally a labelled outcome is counted in. */
  function TallyOf(o: Outcome): (k: string)
    requires o != Unclassified
    ensures k in TallyKeys && TalliedOutcome(k) == o
  {
    match o
    case False => "False"
    case Real => "Real"
    case Fixed => "Fixed"
    case Suspect => "Suspect"
  }

  /** A row carries one of the four counted labels. */
  predicate Tallied(row: Row) {
    exists o: Outcome | o != Unclassified :: Get(row, "Outcome") == Text(Label(o))
  }

  /** Each tally is the number of rows in the date range carrying its
      label, and zero when the frame is empty or lacks the Outcome column. */
  lemma DefectCountsAreLabelCounts(f: Frame, start: Date, end: Date, o: Outcome)
    requires o != Unclassified
    ensures Empty(f) || "Outcome" !in f.columns ==> DefectCounts(f, start, end)[TallyOf(o)] == 0
    ensures !Empty(f) && "Outcome" in f.columns ==>
              DefectCounts(f, start, end)[TallyOf(o)] ==
              |Filter(HasOutcome(Label(o)), FilterDefectsByRange(f, start, end).rows)|
  {
    var k := TallyOf(o);
    assert TalliedOutcome(k) == o;
  }

  /** The four tallies together count exactly the ranged rows with a
      counted label: a row labelled "None", or plain "Fixed", is in none. */
  lemma DefectCountsCoverTalliedRows(f: Frame, start: Date, end: Date)
    requires !Empty(f) && "Outcome" in f.columns
    ensures forall row | Get(row, "Outcome") in {Text("None"), Text("Fixed")} :: !Tallied(row)
    ensures DefectCounts(f, start, end)["False"] + DefectCounts(f, start, end)["Real"] +
            DefectCounts(f, start, end)["Fixed"] + DefectCounts(f, start, end)["Suspect"] ==
            |Filter(Tallied, FilterDefectsByRange(f, start, end).rows)|
  {
    var rng := FilterDefectsByRange(f, start, end).rows;
    var r := DefectCounts(f, start, end);
    DefectCountsAreLabelCounts(f, start, end, False);
    DefectCountsAreLabelCounts(f, start, end, Real);
    DefectCountsAreLabelCounts(f, start, end, Fixed);
    DefectCountsAreLabelCounts(f, start, end, Suspect);
    TallySum(rng);
    UncountedLabels();
  }

  /** Neither "None" nor the plain word "Fixed" is a counted label. */
  lemma UncountedLabels()
    ensures forall row | Get(row, "Outcome") in {Text("None"), Text("Fixed")} :: !Tallied(row)
  {
    forall row, o: Outcome | Get(row, "Outcome") in {Text("None"), Text("Fixed")} && o != Unclassified
      ensures Get(row, "Outcome") != Text(Label(o))
    {
      assert |Label(o)| != 4 || Label(o)[0] != 'N';
      assert Label(o) != "Fixed" by {
        if o == Fixed {
          assert |Label(o)| != 5;
        }
      }
    }
  }

  /** The four label counts add up to the count of tallied rows. */
  lemma TallySum(rows: seq<Row>)
    ensures LabelCount(rows, Label(False)) + LabelCount(rows, Label(Real)) +
            LabelCount(rows, Label(Fixed)) + LabelCount(rows, Label(Suspect)) ==
            |Filter(Tallied, rows)|
  {
    var pf := HasOutcome(Label(False));
    var pr := HasOutcome(Label(Real));
    var px := HasOutcome(Label(Fixed));
    var ps := HasOutcome(Label(Suspect));
    LabelInjective(False, Real);
    LabelInjective(Fixed, Suspect);
    LabelInjective(False, Fixed);
    LabelInjective(False, Suspect);
    LabelInjective(Real, Fixed);
    LabelInjective(Real, Suspect);
    FilterDisjoint(pf, pr, rows);
    FilterDisjoint(px, ps, rows);
    FilterDisjoint(Either(pf, pr), Either(px, ps), rows);
    forall row ensures Either(Either(pf, pr), Either(px, ps))(row) == Tallied(row) {
      TalliedIsACountedLabel(row);
    }
    FilterSameOn(Either(Either(pf, pr), Either(px, ps)), Tallied, rows);
  }

  /** A row is tallied exactly when its Outcome is one of the four counted
      labels. */
  lemma TalliedIsACountedLabel(row: Row)
    ensures Tallied(row) <==>
              HasOutcome(Label(False))(row) || HasOutcome(Label(Real))(row) ||
              HasOutcome(Label(Fixed))(row) || HasOutcome(Label(Suspect))(row)
  {
    var v := Get(row, "Outcome");
    if v == Text(Label(False)) {
      assert Tallied(row) by { assert False != Unclassified; }
    } else if v == Text(Label(Real)) {
      assert Tallied(row) by { assert Real != Unclassified; }
    } else if v == Text(Label(Fixed)) {
      assert Tallied(row) by { assert Fixed != Unclassified; }
    } else if v == Text(Label(Suspect)) {
      assert Tallied(row) by { assert Suspect != Unclassified; }
    } else {
      forall o: Outcome | o != Unclassified ensures v != Text(Label(o)) {
      }
    }
  }

  // ---------------------------------------------------------------------
  // deduplicate_pins
  // ---------------------------------------------------------------------

  /** `cols + [c]` unless `c` is already a column. */
  function AddColumn(cols: seq<string>, c: string): (r: seq<string>)
    ensures c in r && forall x | x in cols :: x in r
  {
    if c in cols then cols else cols + [c]
  }

  /** The row with its RF_Base column (the Ref_Id base) and, when the frame
      has event dates, its `_event_min` column (the event's minute). */
  function WithPinColumns(row: Row, hasEvent: bool): Row {
    var r := row["RF_Base" := BaseRef(Get(row, "Ref_Id"))];
    if hasEvent then r["_event_min" := FloorMinute(Get(row, "EventDate"))] else r
  }

  function PinRows(rows: seq<Row>, hasEvent: bool): (r: seq<Row>)
    ensures |r| == |rows| && forall i | 0 <= i < |rows| :: r[i] == WithPinColumns(rows[i], hasEvent)
  {
    seq(|rows|, i requires 0 <= i < |rows| => WithPinColumns(rows[i], hasEvent))
  }

  /** The de-duplication key: serial number and base reference, then the
      defect code and the event minute when the frame has them. */
  function PinKey(hasCode: bool, hasEvent: bool): Row -> seq<Cell> {
    (row: Row) => [Get(row, "SerialNumber"), Get(row, "RF_Base")]
                  + (if hasCode then [Get(row, "DefectCode")] else [])
                  + (if hasEvent then [Get(row, "_event_min")] else [])
  }

  /** An empty frame, or one without Ref_Id, comes back as it is;
      otherwise the rows with their pin columns, one per key, first
      occurrence kept. */
  function DeduplicatePins(f: Frame): (r: Frame)
    requires !Empty(f) && "Ref_Id" in f.columns ==> "SerialNumber" in f.columns
  {
    if Empty(f) || "Ref_Id" !in f.columns then f
    else
      var hasEvent := "EventDate" in f.columns;
      var cols := AddColumn(f.columns, "RF_Base");
      var cols' := if hasEvent then AddColumn(cols, "_event_min") else cols;
      Frame(cols', DropDuplicates(PinRows(f.rows, hasEvent), PinKey("DefectCode" in cols, hasEvent)))
  }

  /** The key `deduplicate_pins` uses for a frame. */
  function PinKeyOf(f: Frame): Row -> seq<Cell> {
    PinKey("DefectCode" in f.columns, "EventDate" in f.columns)
  }

  /** De-duplication keeps the frame's columns and adds RF_Base, and
      `_event_min` with event dates. */
  lemma DeduplicatePinsColumns(f: Frame)
    requires !Empty(f) && "Ref_Id" in f.columns
    requires "SerialNumber" in f.columns
    ensures forall c | c in f.columns :: c in DeduplicatePins(f).columns
    ensures "RF_Base" in DeduplicatePins(f).columns
    ensures "EventDate" in f.columns ==> "_event_min" in DeduplicatePins(f).columns
  {
  }

  /** Every kept row is an input row with its pin columns, RF_Base being
      the Ref_Id before its first '.'; the kept rows are in input order, no
      two share a key, and every input row's key is kept. */
  lemma DeduplicatePinsKeepsOnePerKey(f: Frame)
    requires !Empty(f) && "Ref_Id" in f.columns
    requires "SerialNumber" in f.columns
    ensures Subsequence(DeduplicatePins(f).rows, PinRows(f.rows, "EventDate" in f.columns))
    ensures forall row | row in DeduplicatePins(f).rows ::
              Get(row, "RF_Base") == BaseRef(Get(row, "Ref_Id")) &&
              exists i | 0 <= i < |f.rows| :: row == WithPinColumns(f.rows[i], "EventDate" in f.columns)
    ensures NoDuplicates(KeysBy(DeduplicatePins(f).rows, PinKeyOf(f)))
    ensures forall i | 0 <= i < |f.rows| ::
              PinKeyOf(f)(WithPinColumns(f.rows[i], "EventDate" in f.columns)) in
              KeysBy(DeduplicatePins(f).rows, PinKeyOf(f))
  {
    var hasEvent := "EventDate" in f.columns;
    var rows := PinRows(f.rows, hasEvent);
    var r := DeduplicatePins(f).rows;
    DeduplicatePinsRows(f);
    forall row | row in r
      ensures Get(row, "RF_Base") == BaseRef(Get(row, "Ref_Id"))
      ensures exists i | 0 <= i < |f.rows| :: row == WithPinColumns(f.rows[i], hasEvent)
    {
      KeptRowIsPinRow(f, row);
    }
    forall i | 0 <= i < |f.rows| ensures PinKeyOf(f)(WithPinColumns(f.rows[i], hasEvent)) in KeysBy(r, PinKeyOf(f)) {
      assert rows[i] in rows;
    }
  }

  /** The kept rows are `drop_duplicates` of the pin rows under the frame's key. */
  lemma DeduplicatePinsRows(f: Frame)
    requires !Empty(f) && "Ref_Id" in f.columns
    requires "SerialNumber" in f.columns
    ensures DeduplicatePins(f).rows == DropDuplicates(PinRows(f.rows, "EventDate" in f.columns), PinKeyOf(f))
  {
    assert "DefectCode" in AddColumn(f.columns, "RF_Base") <==> "DefectCode" in f.columns;
  }

  lemma KeptRowIsPinRow(f: Frame, row: Row)
    requires !Empty(f) && "Ref_Id" in f.columns
    requires "SerialNumber" in f.columns
    requires row in DeduplicatePins(f).rows
    ensures Get(row, "RF_Base") == BaseRef(Get(row, "Ref_Id"))
    ensures exists i | 0 <= i < |f.rows| :: row == WithPinColumns(f.rows[i], "EventDate" in f.columns)
  {
    var rows := PinRows(f.rows, "EventDate" in f.columns);
    DeduplicatePinsRows(f);
    SubsequenceMember(DeduplicatePins(f).rows, rows, row);
    var i :| 0 <= i < |rows| && rows[i] == row;
  }

  /** The first row of each key is the one kept. */
  lemma DeduplicatePinsKeepsFirst(f: Frame, j: int)
    requires !Empty(f) && "Ref_Id" in f.columns && "SerialNumber" in f.columns
    requires 0 <= j < |f.rows|
    requires FirstWithKey(PinRows(f.rows, "EventDate" in f.columns), PinKeyOf(f), j)
    ensures WithPinColumns(f.rows[j], "EventDate" in f.columns) in DeduplicatePins(f).rows
  {
    assert "DefectCode" in AddColumn(f.columns, "RF_Base") <==> "DefectCode" in f.columns;
    DropDuplicatesKeepsFirst(PinRows(f.rows, "EventDate" in f.columns), PinKeyOf(f), {}, j);
  }

  /** Pin-level references of one component share a key: a row with
      Ref_Id `C100.1` and the same row with `C100` count as one. */
  lemma PinLevelRefsShareKey(f: Frame, row: Row, base: string, pin: string)
    requires '.' !in base
    ensures PinKeyOf(f)(WithPinColumns(row["Ref_Id" := Text(base + "." + pin)], "EventDate" in f.columns)) ==
            PinKeyOf(f)(WithPinColumns(row["Ref_Id" := Text(base)], "EventDate" in f.columns))
  {
    BaseRefIgnoresPinSuffix(base, pin);
  }

  // ---------------------------------------------------------------------
  // latest_iso_week_dates
  // ---------------------------------------------------------------------

  /** `(start, start + 6 days)`; None when the end would pass 9999-12-31. */
  function WeekFrom(start: Date): (r: Option<(Date, Date)>)
    requires Valid(start)
  {
    match AddDays(start, 6)
    case None => None
    case Some(e) => Some((start, e))
  }

  /** The week of `today`: from its Monday to the Sunday after. */
  function CurrentWeek(today: Date): (r: Option<(Date, Date)>)
    requires Valid(today)
  {
    MondayOfWeek(today);
    WeekFrom(SubDays(today, Weekday(today)).value)
  }

  /** The default week: the current week when the frame is empty or has no
      ISO_Week column, otherwise the week starting on `latestMonday`, the
      Monday of the latest ISO week in the data. */
  function LatestIsoWeekDates(f: Frame, today: Date, latestMonday: Date): (r: Option<(Date, Date)>)
    requires Valid(today) && Valid(latestMonday)
  {
    if Empty(f) || "ISO_Week" !in f.columns then CurrentWeek(today) else WeekFrom(latestMonday)
  }

  /** A week range runs from its start to six days later, and fails only
      past 9999-12-31. */
  lemma WeekSpansSevenDays(start: Date)
    requires Valid(start)
    ensures WeekFrom(start).None? <==> Ordinal(start) + 6 > MaxOrdinal
    ensures WeekFrom(start).Some? ==>
              var (a, b) := WeekFrom(start).value;
              a == start && Valid(b) && Ordinal(b) == Ordinal(a) + 6 && DateLe(a, b)
  {
    if WeekFrom(start).Some? {
      DateLeIffOrdinal(start, WeekFrom(start).value.1);
    }
  }

  /** The Monday of today's week: today minus its weekday, which never
      precedes 0001-01-01 because that day is a Monday. */
  lemma MondayOfWeek(today: Date)
    requires Valid(today)
    ensures SubDays(today, Weekday(today)).Some?
    ensures Weekday(SubDays(today, Weekday(today)).value) == 0
  {
    WeekdayBelowOrdinal(today);
    var r := SubDays(today, Weekday(today));
    MondayBack(today, r.value);
  }

  /** Day 1 is a Monday, so a date's weekday is less than its ordinal. */
  lemma WeekdayBelowOrdinal(d: Date)
    requires Valid(d)
    ensures Weekday(d) <= Ordinal(d) - 1
  {
    OrdinalBounds(d);
    WeekdayStep(Ordinal(d), Weekday(d));
  }

  /** Stepping back a date's weekday lands on a Monday. */
  lemma MondayBack(d: Date, e: Date)
    requires Valid(d) && Valid(e) && Ordinal(e) + Weekday(d) == Ordinal(d)
    ensures Weekday(e) == 0
  {
    OrdinalBounds(d);
    WeekdayStep(Ordinal(d), Weekday(d));
  }

  /** Stepping back `w = (o + 6) % 7` days from day `o` stays at day 1 or
      later and lands on a day whose `(o - w + 6) % 7` is 0. */
  lemma WeekdayStep(o: int, w: int)
    requires o >= 1 && w == (o + 6) % 7
    ensures 0 <= w <= o - 1
    ensures (o - w + 6) % 7 == 0
  {
    var q := (o + 6) / 7;
    assert o + 6 == 7 * q + w;
    assert o - w + 6 == 7 * q;
  }

  /** The current week starts on a Monday, no later than today, and ends
      six days later, no earlier than today. */
  lemma CurrentWeekContainsToday(today: Date)
    requires Valid(today)
    ensures CurrentWeek(today).Some? ==>
              var (a, b) := CurrentWeek(today).value;
              Valid(a) && Valid(b) && Weekday(a) == 0 && Ordinal(a) + Weekday(today) == Ordinal(today) &&
              Ordinal(b) == Ordinal(a) + 6 && DateLe(a, today) && DateLe(today, b)
  {
    MondayOfWeek(today);
    var a := SubDays(today, Weekday(today)).value;
    WeekSpansSevenDays(a);
    if CurrentWeek(today).Some? {
      var b := CurrentWeek(today).value.1;
      DateLeIffOrdinal(a, today);
      DateLeIffOrdinal(today, b);
    }
  }

  /** Whichever branch is taken, a default week range spans seven days. */
  lemma LatestIsoWeekSpansSevenDays(f: Frame, today: Date, latestMonday: Date)
    requires Valid(today) && Valid(latestMonday)
    ensures LatestIsoWeekDates(f, today, latestMonday).Some? ==>
              var (a, b) := LatestIsoWeekDates(f, today, latestMonday).value;
              Valid(a) && Valid(b) && Ordinal(b) == Ordinal(a) + 6
    ensures !Empty(f) && "ISO_Week" in f.columns && LatestIsoWeekDates(f, today, latestMonday).Some? ==>
              LatestIsoWeekDates(f, today, latestMonday).value.0 == latestMonday
  {
    if Empty(f) || "ISO_Week" !in f.columns {
      CurrentWeekContainsToday(today);
    } else {
      WeekSpansSevenDays(latestMonday);
    }
  }
}
