/** The Action Tracker's issue records: cleaning the submitted values,
    saving an issue (an update that logs each changed field, or an insert
    that logs its creation), and the keep-original-if-blank merge of the
    edit form. */
module Issues {
  import opened SeqUtil

  /** A Python value handed to `save_issue`. */
  datatype Value =
    | NoneValue
    | BoolValue(b: bool)
    | IntValue(i: int)
    | FloatValue(repr: string)  // a float, by its `str()`
    | StrValue(s: string)
    | Other(repr: string)       // any other object, by its `str()`

  /** A submitted record: field names with their values, in dict order. */
  type Fields = seq<(string, Value)>

  /** A stored issue: column name to value. */
  type IssueRow = map<string, Value>

  /** One `issue_changelog` row. */
  datatype Change = Change(issue: Value, field: string, oldValue: string, newValue: string, changedBy: string)

  /** The ways SQLite refuses the statement `save_issue` builds. */
  datatype SqlError =
    | SyntaxError       // no column to set: `SET , ...` or `() VALUES ()`
    | NoSuchColumn      // a field that is not a column of `issues`
    | NotNullViolation  // a row left without `date_reported`

  /** What `save_issue` returns, or the error it raises. */
  datatype SaveResult = Saved(id: Value) | Failed(error: SqlError)

  // ---------------------------------------------------------------------
  // str() and truthiness
  // ---------------------------------------------------------------------

  function DigitChar(d: int): char
    requires 0 <= d < 10
  {
    "0123456789"[d]
  }

  /** The decimal digits of `n`. */
  function NatToString(n: nat): (s: string)
    ensures s != [] && forall i | 0 <= i < |s| :: '0' <= s[i] <= '9'
  {
    if n < 10 then [DigitChar(n)] else NatToString(n / 10) + [DigitChar(n % 10)]
  }

  /** `str()` of an `int`. */
  function IntToString(i: int): (s: string)
    ensures s != []
  {
    if i < 0 then "-" + NatToString(-i) else NatToString(i)
  }

  /** `str(value)`. */
  function StrOf(v: Value): string {
    match v
    case NoneValue => "None"
    case BoolValue(b) => if b then "True" else "False"
    case IntValue(i) => IntToString(i)
    case FloatValue(repr) => repr
    case StrValue(s) => s
    case Other(repr) => repr
  }

  /** Python truthiness of a cleaned value. */
  predicate Truthy(v: Value) {
    match v
    case NoneValue => false
    case BoolValue(b) => b
    case IntValue(i) => i != 0
    case FloatValue(repr) => repr != "0.0" && repr != "-0.0"
    case StrValue(s) => s != ""
    case Other(_) => true
  }

  // ---------------------------------------------------------------------
  // Cleaning
  // ---------------------------------------------------------------------

  /** None becomes "", numbers (booleans included) are kept, anything else
      becomes its `str()`; apart from None, the value reads the same. */
  function CleanValue(v: Value): (r: Value)
    ensures !r.NoneValue? && !r.Other?
    ensures v.NoneValue? ==> r == StrValue("")
    ensures v.BoolValue? || v.IntValue? || v.FloatValue? ==> r == v
    ensures !v.NoneValue? ==> StrOf(r) == StrOf(v)
  {
    match v
    case NoneValue => StrValue("")
    case Other(repr) => StrValue(repr)
    case _ => v
  }

  /** The field names of a record, in order. */
  function Keys(fields: Fields): (ks: seq<string>)
    ensures |ks| == |fields| && forall i | 0 <= i < |fields| :: ks[i] == fields[i].0
  {
    seq(|fields|, i requires 0 <= i < |fields| => fields[i].0)
  }

  /** Every value of the record cleaned. */
  function CleanAll(data: Fields): (r: Fields)
    ensures |r| == |data|
  {
    seq(|data|, i requires 0 <= i < |data| => (data[i].0, CleanValue(data[i].1)))
  }

  /** Cleaning keeps every field name, in order, and changes each value as
      `CleanValue` does. */
  lemma CleanKeepsKeys(data: Fields)
    ensures Keys(CleanAll(data)) == Keys(data)
    ensures NoDuplicates(Keys(data)) ==> NoDuplicates(Keys(CleanAll(data)))
    ensures forall i | 0 <= i < |data| :: CleanAll(data)[i].1 == CleanValue(data[i].1)
  {
  }

  /** The value of a field, when the record has it. */
  function Lookup(fields: Fields, k: string): (r: Option<Value>)
    ensures r.None? <==> k !in Keys(fields)
    ensures r.Some? ==> exists i | 0 <= i < |fields| :: fields[i] == (k, r.value)
  {
    if fields == [] then None
    else if fields[0].0 == k then Some(fields[0].1)
    else
      var r := Lookup(fields[1..], k);
      assert Keys(fields) == [fields[0].0] + Keys(fields[1..]);
      if r.Some? then
        var i :| 0 <= i < |fields[1..]| && fields[1..][i] == (k, r.value);
        assert fields[i + 1] == (k, r.value);
        r
      else r
  }

  // ---------------------------------------------------------------------
  // The issues table
  // ---------------------------------------------------------------------

  /** The columns of `issues`, in schema order. */
  const IssueColumns: seq<string> := [
    "id", "date_reported", "line_name", "shift", "serial_number", "component_pn", "ref_id",
    "issue_category", "issue_type", "description",
    "what_issue", "where_occurred", "why_preliminary", "when_happened", "who_detected",
    "how_detected", "how_much_impact",
    "short_term_fix", "long_term_action", "responsible_person", "due_date", "status",
    "rca_completed", "rca_method", "root_cause_final", "effectiveness_check",
    "disposition", "rework_time_mins", "rework_cost",
    "aoi_false", "aoi_real", "aoi_fixed", "aoi_suspect",
    "created_at", "updated_at"]

  /** The columns declared `INTEGER DEFAULT 0`. */
  const ZeroColumns: set<string> :=
    {"rca_completed", "effectiveness_check", "aoi_false", "aoi_real", "aoi_fixed", "aoi_suspect"}

  /** The columns declared `REAL`. */
  const RealColumns: set<string> := {"rework_time_mins", "rework_cost"}

  /** The type affinity SQLite derives from a column's declared type. */
  datatype Affinity = IntegerAffinity | RealAffinity | TextAffinity

  /** `id` and the `INTEGER DEFAULT 0` columns are INTEGER, the two costs
      REAL, every other column TEXT. */
  function AffinityOf(c: string): Affinity {
    if c == "id" || c in ZeroColumns then IntegerAffinity
    else if c in RealColumns then RealAffinity
    else TextAffinity
  }

  predicate IsColumn(c: string) {
    c in IssueColumns
  }

  /** A column's default: 0, the current timestamp for the two time
      stamps, NULL otherwise. */
  function DefaultOf(c: string, now: string): Value {
    if c in ZeroColumns then IntValue(0)
    else if c == "created_at" || c == "updated_at" then StrValue(now)
    else NoneValue
  }

  /** The row an insert starts from. */
  function DefaultRow(now: string): (row: IssueRow)
    ensures forall c :: c in row <==> IsColumn(c)
  {
    map c | c in IssueColumns :: DefaultOf(c, now)
  }

  /** A stored issue: exactly the schema's columns, and its own id. */
  ghost predicate WellFormedRow(id: int, row: IssueRow) {
    (forall c :: c in row <==> IsColumn(c)) && "id" in row && row["id"] == IntValue(id)
  }

  /** The value the driver binds: a boolean as 1 or 0, anything else as
      it is. */
  function Bind(v: Value): (r: Value)
    ensures !v.BoolValue? ==> r == v
    ensures v.BoolValue? ==> r == IntValue(if v.b then 1 else 0)
  {
    match v
    case BoolValue(b) => IntValue(if b then 1 else 0)
    case _ => v
  }

  /** The conversions of SQLite and of Python's `float` that the model does
      not compute itself: `realText` is the text SQLite stores for a float
      bound to a TEXT column (given the float's `str()`), `realInteger` the
      integer a float becomes in an INTEGER column when it converts without
      loss, `intReal` the `str()` of the float an integer becomes in a REAL
      column, and `textNumber` the number a text becomes in an INTEGER or
      REAL column when it reads as one. */
  datatype Engine = Engine(
    realText: string -> string,
    realInteger: string -> Option<int>,
    intReal: int -> string,
    textNumber: (Affinity, string) -> Option<Value>)

  /** 2^53: every integer up to this magnitude is a float exactly. */
  const MaxExactInt: int := 0x20_0000_0000_0000
  const MinInt64: int := -0x8000_0000_0000_0000
  const MaxInt64: int := 0x7FFF_FFFF_FFFF_FFFF

  predicate HasDigit(s: string) {
    exists i | 0 <= i < |s| :: '0' <= s[i] <= '9'
  }

  /** What is known of those conversions: a text without a digit is no
      number; the decimal text of a 64-bit integer is that integer in an
      INTEGER column; an integer up to 2^53 in magnitude becomes a float
      whose `str()` is its digits and ".0", and that float is the integer
      again in an INTEGER column. */
  ghost predicate SoundEngine(e: Engine) {
    && (forall a, s | !HasDigit(s) :: e.textNumber(a, s) == None)
    && (forall n | MinInt64 <= n <= MaxInt64 :: e.textNumber(IntegerAffinity, IntToString(n)) == Some(IntValue(n)))
    && (forall n | -MaxExactInt <= n <= MaxExactInt :: e.intReal(n) == IntToString(n) + ".0")
    && (forall n | -MaxExactInt <= n <= MaxExactInt :: e.realInteger(IntToString(n) + ".0") == Some(n))
  }

  /** The value column `c` holds, as Python reads it back, once the driver
      has bound `v` and SQLite has applied the column's affinity. */
  function Store(e: Engine, c: string, v: Value): Value {
    var b := Bind(v);
    if b.FloatValue? && b.repr == "nan" then NoneValue
    else
      match AffinityOf(c)
      case TextAffinity =>
        if b.IntValue? then StrValue(IntToString(b.i))
        else if b.FloatValue? then StrValue(e.realText(b.repr))
        else b
      case IntegerAffinity =>
        if b.FloatValue? && e.realInteger(b.repr).Some? then IntValue(e.realInteger(b.repr).value)
        else if b.StrValue? && e.textNumber(IntegerAffinity, b.s).Some? then e.textNumber(IntegerAffinity, b.s).value
        else b
      case RealAffinity =>
        if b.IntValue? then FloatValue(e.intReal(b.i))
        else if b.StrValue? && e.textNumber(RealAffinity, b.s).Some? then e.textNumber(RealAffinity, b.s).value
        else b
  }

  /** A value reads back with the same `str()` when it is a text in a TEXT
      column, a text without a digit in any column, or an integer in a TEXT
      or INTEGER column: what the issue forms submit. */
  lemma StoreKeepsStr(e: Engine, c: string, v: Value)
    requires SoundEngine(e)
    requires || (v.StrValue? && (AffinityOf(c) == TextAffinity || !HasDigit(v.s)))
             || (v.IntValue? && AffinityOf(c) != RealAffinity)
    ensures StrOf(Store(e, c, v)) == StrOf(v)
  {
  }

  /** A boolean, and an integer in a REAL column, read back with a
      different `str()`: "True" is stored as 1, and 5 as 5.0. */
  lemma StoreChangesStr(e: Engine, c: string, v: Value)
    requires SoundEngine(e)
    requires v.BoolValue? || (v.IntValue? && AffinityOf(c) == RealAffinity && -MaxExactInt <= v.i <= MaxExactInt)
    ensures StrOf(Store(e, c, v)) != StrOf(v)
  {
    if v.IntValue? {
      assert |StrOf(Store(e, c, v))| == |IntToString(v.i)| + 2;
    } else {
      var n := if v.b then 1 else 0;
      assert IntToString(n) == [DigitChar(n)];
      assert -MaxExactInt <= n <= MaxExactInt;
    }
  }

  /** The fields a statement writes: every one but `id`. */
  function Written(clean: Fields): Fields {
    Filter((p: (string, Value)) => p.0 != "id", clean)
  }

  /** Why an UPDATE or INSERT of these fields fails to compile, if it does. */
  function WriteError(cols: Fields): (e: Option<SqlError>)
    ensures e.None? <==> cols != [] && forall p | p in cols :: IsColumn(p.0)
  {
    if cols == [] then Some(SyntaxError)
    else if exists p | p in cols :: !IsColumn(p.0) then Some(NoSuchColumn)
    else None
  }

  /** Why an INSERT of these fields fails: the compile errors, then the
      NOT NULL constraint on `date_reported`. */
  function InsertError(cols: Fields): (e: Option<SqlError>)
    ensures e.None? <==> WriteError(cols).None? && "date_reported" in Keys(cols)
  {
    if WriteError(cols).Some? then WriteError(cols)
    else if "date_reported" !in Keys(cols) then Some(NotNullViolation)
    else None
  }

  /** The row holds no `date_reported`, which its NOT NULL constraint refuses. */
  predicate NullDate(row: IssueRow) {
    "date_reported" in row && row["date_reported"] == NoneValue
  }

  /** The row with each field set, a later field overriding an earlier one
      of the same name. */
  function SetFields(e: Engine, row: IssueRow, cols: Fields): IssueRow
    decreases |cols|
  {
    if cols == [] then row else SetFields(e, row[cols[0].0 := Store(e, cols[0].0, cols[0].1)], cols[1..])
  }

  /** The new row of an insert: the defaults, overridden by the fields. */
  function NewRow(e: Engine, id: int, cols: Fields, now: string): IssueRow {
    SetFields(e, DefaultRow(now), cols)["id" := IntValue(id)]
  }

  /** The row an UPDATE leaves: the fields set and `updated_at` stamped. */
  function UpdatedRow(e: Engine, row: IssueRow, cols: Fields, now: string): IssueRow {
    SetFields(e, row, cols)["updated_at" := StrValue(now)]
  }

  /** The stored row `WHERE id = ?` finds for a submitted id. */
  function IdKey(v: Value): Option<int> {
    match v
    case IntValue(i) => Some(i)
    case BoolValue(b) => Some(if b then 1 else 0)
    case _ => None
  }

  // ---------------------------------------------------------------------
  // The change log
  // ---------------------------------------------------------------------

  /** The log entry for one submitted field: one when it is not `id`, the
      stored row has it, and its `str()` differs from the stored one's. */
  function EntryFor(issue: Value, existing: IssueRow, p: (string, Value)): seq<Change> {
    if p.0 != "id" && p.0 in existing && StrOf(existing[p.0]) != StrOf(p.1) then
      [Change(issue, p.0, StrOf(existing[p.0]), StrOf(p.1), "System")]
    else []
  }

  /** The entries of an update, field by field in submitted order. */
  function ChangeEntries(issue: Value, existing: IssueRow, fields: Fields): seq<Change> {
    if fields == [] then []
    else ChangeEntries(issue, existing, fields[..|fields| - 1]) + EntryFor(issue, existing, fields[|fields| - 1])
  }

  /** The fields the entries name, in order. */
  function LoggedFields(log: seq<Change>): (fs: seq<string>)
    ensures |fs| == |log| && forall i | 0 <= i < |log| :: fs[i] == log[i].field
  {
    seq(|log|, i requires 0 <= i < |log| => log[i].field)
  }

  /** The field is logged on an update. */
  predicate Differs(existing: IssueRow, p: (string, Value)) {
    p.0 != "id" && p.0 in existing && StrOf(existing[p.0]) != StrOf(p.1)
  }

  // ---------------------------------------------------------------------
  // save_issue
  // ---------------------------------------------------------------------

  /** The state a save leaves: the issues, the next AUTOINCREMENT id, the
      entries appended to the change log, and the result. */
  datatype SaveStep = SaveStep(issues: map<int, IssueRow>, nextId: int, logged: seq<Change>, result: SaveResult)

  /** The submitted record is an update: it has a truthy `id`. */
  predicate IsUpdate(clean: Fields) {
    Lookup(clean, "id").Some? && Truthy(Lookup(clean, "id").value)
  }

  /** The update branch: every changed field of the stored row is logged
      (the log is written even when the UPDATE then fails), then the
      fields are set and `updated_at` stamped, unless the row would be left
      without `date_reported`; the submitted id is returned whether or not
      a row has it. */
  function SaveUpdate(e: Engine, issues: map<int, IssueRow>, nextId: int, clean: Fields, now: string): SaveStep
    requires IsUpdate(clean)
  {
    var cols := Written(clean);
    var idv := Lookup(clean, "id").value;
    var key := IdKey(idv);
    var found := key.Some? && key.value in issues;
    var logged := if found then ChangeEntries(idv, issues[key.value], clean) else [];
    if WriteError(cols).Some? then SaveStep(issues, nextId, logged, Failed(WriteError(cols).value))
    else if found && NullDate(UpdatedRow(e, issues[key.value], cols, now)) then
      SaveStep(issues, nextId, logged, Failed(NotNullViolation))
    else if found then SaveStep(issues[key.value := UpdatedRow(e, issues[key.value], cols, now)], nextId, logged, Saved(idv))
    else SaveStep(issues, nextId, logged, Saved(idv))
  }

  /** The insert branch: a row under a fresh id, and one creation entry,
      unless the row would be left without `date_reported`. */
  function SaveInsert(e: Engine, issues: map<int, IssueRow>, nextId: int, clean: Fields, now: string): SaveStep {
    var cols := Written(clean);
    if InsertError(cols).Some? then SaveStep(issues, nextId, [], Failed(InsertError(cols).value))
    else if NullDate(NewRow(e, nextId, cols, now)) then SaveStep(issues, nextId, [], Failed(NotNullViolation))
    else
      SaveStep(issues[nextId := NewRow(e, nextId, cols, now)], nextId + 1,
               [Change(IntValue(nextId), "status", "", "Created", "System")], Saved(IntValue(nextId)))
  }

  /** `save_issue` on the tables: clean, then update or insert. */
  function SaveSpec(e: Engine, issues: map<int, IssueRow>, nextId: int, data: Fields, now: string): SaveStep {
    var clean := CleanAll(data);
    if IsUpdate(clean) then SaveUpdate(e, issues, nextId, clean, now) else SaveInsert(e, issues, nextId, clean, now)
  }

  /** The cleaning loop. */
  method CleanData(data: Fields) returns (clean: Fields)
    ensures clean == CleanAll(data)
  {
    clean := [];
    for i := 0 to |data|
      invariant clean == CleanAll(data[..i])
    {
      clean := clean + [(data[i].0, CleanValue(data[i].1))];
    }
    assert data[..|data|] == data;
  }

  /** The issues table, its AUTOINCREMENT counter and the change log, on
      a connection whose SQLite converts values as `engine` says. */
  class IssueStore {
    const engine: Engine
    var issues: map<int, IssueRow>
    var nextId: int
    var changelog: seq<Change>

    /** Every stored row is well formed under an id below the counter, and
        holds a `date_reported`. */
    ghost predicate Valid()
      reads this
    {
      nextId >= 1 && forall id | id in issues :: 1 <= id < nextId && WellFormedRow(id, issues[id]) && !NullDate(issues[id])
    }

    constructor (engine: Engine)
      ensures Valid() && issues == map[] && nextId == 1 && changelog == []
      ensures this.engine == engine
    {
      this.engine := engine;
      issues := map[];
      nextId := 1;
      changelog := [];
    }

    /** Cleans the record, then updates or inserts it, logging as it goes. */
    method SaveIssue(data: Fields, now: string) returns (r: SaveResult)
      requires Valid()
      modifies this
      ensures Valid()
      ensures issues == SaveSpec(engine, old(issues), old(nextId), data, now).issues
      ensures nextId == SaveSpec(engine, old(issues), old(nextId), data, now).nextId
      ensures changelog == old(changelog) + SaveSpec(engine, old(issues), old(nextId), data, now).logged
      ensures r == SaveSpec(engine, old(issues), old(nextId), data, now).result
    {
      var clean := CleanData(data);
      if IsUpdate(clean) {
        r := Update(clean, now);
      } else {
        r := Insert(clean, now);
      }
    }

    /** The comparison loop: one entry per changed field, in order. */
    method LogChanges(idv: Value, existing: IssueRow, clean: Fields)
      modifies this
      ensures changelog == old(changelog) + ChangeEntries(idv, existing, clean)
      ensures issues == old(issues) && nextId == old(nextId)
    {
      for i := 0 to |clean|
        invariant changelog == old(changelog) + ChangeEntries(idv, existing, clean[..i])
        invariant issues == old(issues) && nextId == old(nextId)
      {
        var (k, v) := clean[i];
        assert clean[..i + 1][..i] == clean[..i];
        if k != "id" && k in existing && StrOf(existing[k]) != StrOf(v) {
          changelog := changelog + [Change(idv, k, StrOf(existing[k]), StrOf(v), "System")];
        }
      }
      assert clean[..|clean|] == clean;
    }

    /** The update branch of `save_issue`. */
    method Update(clean: Fields, now: string) returns (r: SaveResult)
      requires Valid() && IsUpdate(clean)
      modifies this
      ensures Valid()
      ensures issues == SaveUpdate(engine, old(issues), old(nextId), clean, now).issues
      ensures nextId == SaveUpdate(engine, old(issues), old(nextId), clean, now).nextId
      ensures changelog == old(changelog) + SaveUpdate(engine, old(issues), old(nextId), clean, now).logged
      ensures r == SaveUpdate(engine, old(issues), old(nextId), clean, now).result
    {
      var cols := Written(clean);
      var idv := Lookup(clean, "id").value;
      var key := IdKey(idv);
      if key.Some? && key.value in issues {
        LogChanges(idv, issues[key.value], clean);
      }
      var err := WriteError(cols);
      if err.Some? {
        return Failed(err.value);
      }
      if key.Some? && key.value in issues {
        var row := UpdatedRow(engine, issues[key.value], cols, now);
        if NullDate(row) {
          return Failed(NotNullViolation);
        }
        UpdateKeepsRowWellFormed(engine, key.value, issues[key.value], clean, now);
        issues := issues[key.value := row];
      }
      r := Saved(idv);
    }

    /** The insert branch of `save_issue`. */
    method Insert(clean: Fields, now: string) returns (r: SaveResult)
      requires Valid()
      modifies this
      ensures Valid()
      ensures issues == SaveInsert(engine, old(issues), old(nextId), clean, now).issues
      ensures nextId == SaveInsert(engine, old(issues), old(nextId), clean, now).nextId
      ensures changelog == old(changelog) + SaveInsert(engine, old(issues), old(nextId), clean, now).logged
      ensures r == SaveInsert(engine, old(issues), old(nextId), clean, now).result
    {
      var cols := Written(clean);
      var err := InsertError(cols);
      if err.Some? {
        return Failed(err.value);
      }
      var id := nextId;
      var row := NewRow(engine, id, cols, now);
      if NullDate(row) {
        return Failed(NotNullViolation);
      }
      InsertMakesRowWellFormed(engine, id, cols, now);
      issues := issues[id := row];
      nextId := nextId + 1;
      changelog := changelog + [Change(IntValue(id), "status", "", "Created", "System")];
      r := Saved(IntValue(id));
    }
  }

  // ---------------------------------------------------------------------
  // Properties
  // ---------------------------------------------------------------------

  /** Setting fields adds exactly their names to the row; a column no field
      names keeps its value; a field not overridden later holds its bound
      value. */
  lemma SetFieldsEffect(e: Engine, row: IssueRow, cols: Fields)
    ensures forall c :: c in SetFields(e, row, cols) <==> c in row || c in Keys(cols)
    ensures forall c | c in row && c !in Keys(cols) :: SetFields(e, row, cols)[c] == row[c]
    ensures forall i | 0 <= i < |cols| && (forall j | i < j < |cols| :: cols[j].0 != cols[i].0) ::
              cols[i].0 in SetFields(e, row, cols) && SetFields(e, row, cols)[cols[i].0] == Store(e, cols[i].0, cols[i].1)
  {
    SetFieldsDomain(e, row, cols);
    SetFieldsKeeps(e, row, cols);
    SetFieldsLastWins(e, row, cols);
  }

  lemma {:induction false} SetFieldsDomain(e: Engine, row: IssueRow, cols: Fields)
    ensures forall c :: c in SetFields(e, row, cols) <==> c in row || c in Keys(cols)
    decreases |cols|
  {
    if cols != [] {
      SetFieldsDomain(e, row[cols[0].0 := Store(e, cols[0].0, cols[0].1)], cols[1..]);
      assert Keys(cols) == [cols[0].0] + Keys(cols[1..]);
    }
  }

  lemma {:induction false} SetFieldsKeeps(e: Engine, row: IssueRow, cols: Fields)
    ensures forall c | c in row && c !in Keys(cols) :: c in SetFields(e, row, cols) && SetFields(e, row, cols)[c] == row[c]
    decreases |cols|
  {
    if cols != [] {
      SetFieldsKeeps(e, row[cols[0].0 := Store(e, cols[0].0, cols[0].1)], cols[1..]);
      assert Keys(cols) == [cols[0].0] + Keys(cols[1..]);
    }
  }

  lemma {:induction false} SetFieldsLastWins(e: Engine, row: IssueRow, cols: Fields)
    ensures forall i | 0 <= i < |cols| && (forall j | i < j < |cols| :: cols[j].0 != cols[i].0) ::
              cols[i].0 in SetFields(e, row, cols) && SetFields(e, row, cols)[cols[i].0] == Store(e, cols[i].0, cols[i].1)
    decreases |cols|
  {
    if cols != [] {
      var row' := row[cols[0].0 := Store(e, cols[0].0, cols[0].1)];
      SetFieldsLastWins(e, row', cols[1..]);
      forall i | 0 <= i < |cols| && (forall j | i < j < |cols| :: cols[j].0 != cols[i].0)
        ensures cols[i].0 in SetFields(e, row, cols) && SetFields(e, row, cols)[cols[i].0] == Store(e, cols[i].0, cols[i].1)
      {
        if i > 0 {
          assert cols[1..][i - 1] == cols[i];
          assert forall j | i - 1 < j < |cols[1..]| :: cols[1..][j].0 != cols[1..][i - 1].0 by {
            forall j | i - 1 < j < |cols[1..]| ensures cols[1..][j].0 != cols[1..][i - 1].0 {
              assert cols[1..][j] == cols[j + 1];
            }
          }
        } else {
          assert cols[0].0 !in Keys(cols[1..]) by {
            forall j | 0 <= j < |cols[1..]| ensures Keys(cols[1..])[j] != cols[0].0 {
              assert cols[1..][j] == cols[j + 1];
            }
          }
          SetFieldsKeeps(e, row', cols[1..]);
        }
      }
    }
  }

  /** An update that compiles keeps a stored row well formed. */
  lemma UpdateKeepsRowWellFormed(e: Engine, id: int, row: IssueRow, clean: Fields, now: string)
    requires WellFormedRow(id, row) && WriteError(Written(clean)).None?
    ensures WellFormedRow(id, UpdatedRow(e, row, Written(clean), now))
  {
    var cols := Written(clean);
    WrittenFields(clean);
    SetFieldsEffect(e, row, cols);
    assert "id" !in Keys(cols) by {
      forall i | 0 <= i < |cols| ensures Keys(cols)[i] != "id" {
        assert cols[i] in cols;
      }
    }
    forall c | c in Keys(cols) ensures IsColumn(c) {
      var i :| 0 <= i < |cols| && Keys(cols)[i] == c;
      assert cols[i] in cols;
    }
  }

  /** An insert with schema columns builds a well-formed row. */
  lemma InsertMakesRowWellFormed(e: Engine, id: int, cols: Fields, now: string)
    requires forall p | p in cols :: IsColumn(p.0)
    ensures WellFormedRow(id, NewRow(e, id, cols, now))
  {
    SetFieldsEffect(e, DefaultRow(now), cols);
    forall c | c in Keys(cols) ensures IsColumn(c) {
      var i :| 0 <= i < |cols| && Keys(cols)[i] == c;
      assert cols[i] in cols;
    }
  }

  /** Every update entry records a changed field: not `id`, a column of the
      stored row, by "System", holding the stored and the submitted
      `str()`, which differ. */
  lemma {:induction false} ChangeEntriesAreChanges(issue: Value, existing: IssueRow, fields: Fields)
    ensures forall e | e in ChangeEntries(issue, existing, fields) ::
              && e.issue == issue && e.changedBy == "System"
              && e.field != "id" && e.field in existing
              && e.oldValue == StrOf(existing[e.field]) && e.oldValue != e.newValue
              && (e.field, e.newValue) in SubmittedStrings(fields)
  {
    if fields != [] {
      var init := fields[..|fields| - 1];
      ChangeEntriesAreChanges(issue, existing, init);
      assert SubmittedStrings(fields) == SubmittedStrings(init) + [(fields[|fields| - 1].0, StrOf(fields[|fields| - 1].1))];
    }
  }

  /** Each field name with the `str()` of its submitted value. */
  function SubmittedStrings(fields: Fields): (r: seq<(string, string)>)
    ensures |r| == |fields| && forall i | 0 <= i < |fields| :: r[i] == (fields[i].0, StrOf(fields[i].1))
  {
    seq(|fields|, i requires 0 <= i < |fields| => (fields[i].0, StrOf(fields[i].1)))
  }

  /** A field is logged exactly when it differs from the stored row. */
  lemma ChangeEntriesLogChangedFields(issue: Value, existing: IssueRow, fields: Fields)
    ensures forall p | p in fields :: Differs(existing, p) ==> p.0 in LoggedFields(ChangeEntries(issue, existing, fields))
    ensures forall k | k in LoggedFields(ChangeEntries(issue, existing, fields)) ::
              exists p | p in fields :: p.0 == k && Differs(existing, p)
  {
    ChangedFieldsLogged(issue, existing, fields);
    LoggedFieldsChanged(issue, existing, fields);
  }

  lemma {:induction false} ChangedFieldsLogged(issue: Value, existing: IssueRow, fields: Fields)
    ensures forall p | p in fields :: Differs(existing, p) ==> p.0 in LoggedFields(ChangeEntries(issue, existing, fields))
  {
    if fields != [] {
      var init := fields[..|fields| - 1];
      var last := fields[|fields| - 1];
      ChangedFieldsLogged(issue, existing, init);
      var log := ChangeEntries(issue, existing, fields);
      var logInit := ChangeEntries(issue, existing, init);
      assert log == logInit + EntryFor(issue, existing, last);
      forall p | p in fields && Differs(existing, p)
        ensures p.0 in LoggedFields(log)
      {
        if p != last {
          var i :| 0 <= i < |fields| && fields[i] == p;
          assert i < |fields| - 1;
          assert init[i] == p;
          assert p.0 in LoggedFields(logInit);
          var m :| 0 <= m < |logInit| && LoggedFields(logInit)[m] == p.0;
          assert LoggedFields(log)[m] == p.0;
        } else {
          assert LoggedFields(log)[|log| - 1] == p.0;
        }
      }
    }
  }

  lemma {:induction false} LoggedFieldsChanged(issue: Value, existing: IssueRow, fields: Fields)
    ensures forall k | k in LoggedFields(ChangeEntries(issue, existing, fields)) ::
              exists p | p in fields :: p.0 == k && Differs(existing, p)
  {
    if fields != [] {
      var init := fields[..|fields| - 1];
      var last := fields[|fields| - 1];
      LoggedFieldsChanged(issue, existing, init);
      var log := ChangeEntries(issue, existing, fields);
      var logInit := ChangeEntries(issue, existing, init);
      assert log == logInit + EntryFor(issue, existing, last);
      forall k | k in LoggedFields(log)
        ensures exists p | p in fields :: p.0 == k && Differs(existing, p)
      {
        var i :| 0 <= i < |log| && LoggedFields(log)[i] == k;
        if i < |logInit| {
          assert LoggedFields(logInit)[i] == k;
          assert k in LoggedFields(logInit);
          var p :| p in init && p.0 == k && Differs(existing, p);
          assert p in fields;
        } else {
          assert log[i] == EntryFor(issue, existing, last)[0];
          assert last in fields;
        }
      }
    }
  }

  /** With distinct field names, no field is logged twice. */
  lemma {:induction false} ChangeEntriesOnePerField(issue: Value, existing: IssueRow, fields: Fields)
    requires NoDuplicates(Keys(fields))
    ensures NoDuplicates(LoggedFields(ChangeEntries(issue, existing, fields)))
  {
    if fields != [] {
      var init := fields[..|fields| - 1];
      var last := fields[|fields| - 1];
      assert NoDuplicates(Keys(init)) by {
        forall i, j | 0 <= i < j < |init| ensures Keys(init)[i] != Keys(init)[j] {
          assert Keys(init)[i] == Keys(fields)[i] && Keys(init)[j] == Keys(fields)[j];
        }
      }
      ChangeEntriesOnePerField(issue, existing, init);
      ChangeEntriesLogChangedFields(issue, existing, init);
      var log := ChangeEntries(issue, existing, fields);
      var logInit := ChangeEntries(issue, existing, init);
      assert log == logInit + EntryFor(issue, existing, last);
      if EntryFor(issue, existing, last) != [] {
        assert last.0 !in LoggedFields(logInit);
        forall i, j | 0 <= i < j < |log| ensures LoggedFields(log)[i] != LoggedFields(log)[j] {
          if j < |logInit| {
            assert LoggedFields(logInit)[i] == LoggedFields(log)[i];
            assert LoggedFields(logInit)[j] == LoggedFields(log)[j];
          } else {
            assert LoggedFields(logInit)[i] == LoggedFields(log)[i];
          }
        }
      } else {
        assert log == logInit;
      }
    }
  }

  /** An update logs the changed fields of the stored row it finds and
      nothing when it finds none; it never touches the id counter; it fails
      when the statement does not compile or would leave the found row
      without `date_reported`; and it changes no stored row but the one it
      finds, and that one only when it succeeds. */
  lemma UpdateSpec(e: Engine, issues: map<int, IssueRow>, nextId: int, data: Fields, now: string)
    requires IsUpdate(CleanAll(data))
    ensures var s := SaveSpec(e, issues, nextId, data, now);
            var idv := Lookup(CleanAll(data), "id").value;
            var key := IdKey(idv);
            && s.nextId == nextId
            && s.logged == (if key.Some? && key.value in issues
                            then ChangeEntries(idv, issues[key.value], CleanAll(data)) else [])
            && (s.result.Saved? <==>
                  && WriteError(Written(CleanAll(data))).None?
                  && !(key.Some? && key.value in issues &&
                       NullDate(UpdatedRow(e, issues[key.value], Written(CleanAll(data)), now))))
            && (s.result.Saved? ==> s.result.id == idv)
            && (forall id | id in issues && (key.None? || id != key.value) :: id in s.issues && s.issues[id] == issues[id])
            && s.issues.Keys == issues.Keys
            && (s.result.Failed? ==> s.issues == issues)
  {
  }

  /** An UPDATE sets each submitted field but `id` to its bound value,
      stamps `updated_at`, and leaves every other column. */
  lemma UpdatedRowSets(e: Engine, row: IssueRow, clean: Fields, now: string)
    requires NoDuplicates(Keys(clean))
    ensures "updated_at" in UpdatedRow(e, row, Written(clean), now)
    ensures UpdatedRow(e, row, Written(clean), now)["updated_at"] == StrValue(now)
    ensures forall i | 0 <= i < |clean| && clean[i].0 != "id" && clean[i].0 != "updated_at" ::
              clean[i].0 in UpdatedRow(e, row, Written(clean), now) &&
              UpdatedRow(e, row, Written(clean), now)[clean[i].0] == Store(e, clean[i].0, clean[i].1)
    ensures forall c | c in row && c !in Keys(clean) && c != "updated_at" ::
              c in UpdatedRow(e, row, Written(clean), now) && UpdatedRow(e, row, Written(clean), now)[c] == row[c]
  {
    var cols := Written(clean);
    WrittenFields(clean);
    SetFieldsEffect(e, row, cols);
    forall i | 0 <= i < |clean| && clean[i].0 != "id" && clean[i].0 != "updated_at"
      ensures clean[i].0 in SetFields(e, row, cols) && SetFields(e, row, cols)[clean[i].0] == Store(e, clean[i].0, clean[i].1)
    {
      var j := WrittenIndex(clean, i);
    }
  }

  /** A successful update of a stored row sets each submitted field, cleaned
      and bound, stamps `updated_at`, and leaves every other column. */
  lemma UpdateSetsFields(e: Engine, issues: map<int, IssueRow>, nextId: int, data: Fields, now: string, id: int)
    requires NoDuplicates(Keys(data))
    requires IsUpdate(CleanAll(data)) && IdKey(Lookup(CleanAll(data), "id").value) == Some(id) && id in issues
    requires SaveSpec(e, issues, nextId, data, now).result.Saved?
    ensures id in SaveSpec(e, issues, nextId, data, now).issues
    ensures var row := SaveSpec(e, issues, nextId, data, now).issues[id];
            && "updated_at" in row && row["updated_at"] == StrValue(now)
            && (forall i | 0 <= i < |data| && data[i].0 != "id" && data[i].0 != "updated_at" ::
                  data[i].0 in row && row[data[i].0] == Store(e, data[i].0, CleanValue(data[i].1)))
            && (forall c | c in issues[id] && c !in Keys(data) && c != "updated_at" ::
                  c in row && row[c] == issues[id][c])
  {
    var clean := CleanAll(data);
    CleanKeepsKeys(data);
    assert SaveSpec(e, issues, nextId, data, now).issues[id] == UpdatedRow(e, issues[id], Written(clean), now);
    UpdatedRowSets(e, issues[id], clean, now);
  }

  /** The written fields are the submitted ones but `id`, with their names
      still distinct. */
  lemma WrittenFields(clean: Fields)
    ensures forall p :: p in Written(clean) <==> p in clean && p.0 != "id"
    ensures forall k | k in Keys(Written(clean)) :: k in Keys(clean)
    ensures NoDuplicates(Keys(clean)) ==> NoDuplicates(Keys(Written(clean)))
  {
    var w := Written(clean);
    forall k | k in Keys(w) ensures k in Keys(clean) {
      var i :| 0 <= i < |w| && Keys(w)[i] == k;
      assert w[i] in clean;
      var j :| 0 <= j < |clean| && clean[j] == w[i];
      assert Keys(clean)[j] == k;
    }
    if NoDuplicates(Keys(clean)) {
      FilterIsSubsequence((p: (string, Value)) => p.0 != "id", clean);
      SubsequenceKeysDistinct(w, clean);
    }
  }

  /** A field of distinct-named fields, other than `id`, is written and no
      later written field has its name. */
  lemma WrittenIndex(clean: Fields, i: int) returns (j: int)
    requires NoDuplicates(Keys(clean)) && 0 <= i < |clean| && clean[i].0 != "id"
    ensures 0 <= j < |Written(clean)| && Written(clean)[j] == clean[i]
    ensures forall m | j < m < |Written(clean)| :: Written(clean)[m].0 != clean[i].0
  {
    var w := Written(clean);
    WrittenFields(clean);
    assert clean[i] in w;
    j :| 0 <= j < |w| && w[j] == clean[i];
    forall m | j < m < |w| ensures w[m].0 != clean[i].0 {
      assert Keys(w)[m] != Keys(w)[j];
    }
  }

  /** A subsequence of fields with distinct names has distinct names. */
  lemma {:induction false} SubsequenceKeysDistinct(a: Fields, b: Fields)
    requires Subsequence(a, b) && NoDuplicates(Keys(b))
    ensures NoDuplicates(Keys(a))
    decreases |b|
  {
    if a != [] {
      assert Keys(b) == [b[0].0] + Keys(b[1..]);
      assert NoDuplicates(Keys(b[1..])) by {
        forall i, j | 0 <= i < j < |b[1..]| ensures Keys(b[1..])[i] != Keys(b[1..])[j] {
          assert Keys(b)[i + 1] != Keys(b)[j + 1];
        }
      }
      if a[0] == b[0] {
        SubsequenceKeysDistinct(a[1..], b[1..]);
        forall j | 0 < j < |a| ensures a[j].0 != a[0].0 {
          assert a[j] in a[1..];
          SubsequenceMember(a[1..], b[1..], a[j]);
          var m :| 0 <= m < |b[1..]| && b[1..][m] == a[j];
          assert Keys(b)[m + 1] != Keys(b)[0];
        }
        forall i, j | 0 <= i < j < |a| ensures Keys(a)[i] != Keys(a)[j] {
          if i > 0 {
            assert Keys(a[1..])[i - 1] != Keys(a[1..])[j - 1];
          }
        }
      } else {
        SubsequenceKeysDistinct(a, b[1..]);
      }
    }
  }

  /** An insert that compiles and leaves `date_reported` set stores a
      well-formed row under the counter's id, which no row had, logs
      exactly its creation, and moves the counter on; a failed insert
      changes and logs nothing. */
  lemma InsertSpec(e: Engine, issues: map<int, IssueRow>, nextId: int, data: Fields, now: string)
    requires forall id | id in issues :: id < nextId
    requires !IsUpdate(CleanAll(data))
    ensures var s := SaveSpec(e, issues, nextId, data, now);
            if InsertError(Written(CleanAll(data))).None? && !NullDate(NewRow(e, nextId, Written(CleanAll(data)), now)) then
              && nextId !in issues
              && s.issues == issues[nextId := NewRow(e, nextId, Written(CleanAll(data)), now)]
              && WellFormedRow(nextId, s.issues[nextId])
              && s.nextId == nextId + 1
              && s.logged == [Change(IntValue(nextId), "status", "", "Created", "System")]
              && s.result == Saved(IntValue(nextId))
            else
              s.issues == issues && s.nextId == nextId && s.logged == [] && s.result.Failed?
  {
    var cols := Written(CleanAll(data));
    if InsertError(cols).None? && !NullDate(NewRow(e, nextId, cols, now)) {
      InsertMakesRowWellFormed(e, nextId, cols, now);
    }
  }

  /** A TEXT column holds NULL exactly when the value bound is None or a
      NaN. */
  lemma StoreNullInText(e: Engine, c: string, v: Value)
    requires AffinityOf(c) == TextAffinity
    ensures Store(e, c, v) == NoneValue <==> v == NoneValue || v == FloatValue("nan")
  {
  }

  /** Setting fields with distinct names leaves `date_reported` NULL exactly
      when one of them sets it to None or NaN, or none sets it and it was
      NULL. */
  lemma SetFieldsNullDate(e: Engine, row: IssueRow, cols: Fields)
    requires NoDuplicates(Keys(cols)) && "date_reported" in row
    ensures NullDate(SetFields(e, row, cols)) <==>
            || (exists p | p in cols :: p.0 == "date_reported" && (p.1 == NoneValue || p.1 == FloatValue("nan")))
            || ("date_reported" !in Keys(cols) && row["date_reported"] == NoneValue)
  {
    var d := "date_reported";
    SetFieldsEffect(e, row, cols);
    if d in Keys(cols) {
      var i :| 0 <= i < |cols| && Keys(cols)[i] == d;
      forall j | i < j < |cols| ensures cols[j].0 != cols[i].0 {
        assert Keys(cols)[i] != Keys(cols)[j];
      }
      StoreNullInText(e, d, cols[i].1);
      forall p | p in cols && p.0 == d ensures p == cols[i] {
        var j :| 0 <= j < |cols| && cols[j] == p;
        assert Keys(cols)[j] == Keys(cols)[i];
      }
    } else {
      forall p | p in cols ensures p.0 != d {
        var j :| 0 <= j < |cols| && cols[j] == p;
        assert Keys(cols)[j] == p.0;
      }
    }
  }

  /** The written fields set `date_reported` to None or NaN exactly when the
      submitted record sets it to NaN, since cleaning turns None into "";
      and they name `date_reported` exactly when the record does. */
  lemma WrittenNullDate(data: Fields)
    ensures (exists p | p in Written(CleanAll(data)) :: p.0 == "date_reported" && (p.1 == NoneValue || p.1 == FloatValue("nan")))
            <==> exists p | p in data :: p.0 == "date_reported" && p.1 == FloatValue("nan")
    ensures "date_reported" in Keys(Written(CleanAll(data))) <==> "date_reported" in Keys(data)
  {
    WrittenNaNDate(data);
    SubmittedNaNDate(data);
    WrittenNamesDate(data);
  }

  lemma WrittenNaNDate(data: Fields)
    ensures (exists p | p in Written(CleanAll(data)) :: p.0 == "date_reported" && (p.1 == NoneValue || p.1 == FloatValue("nan")))
            ==> exists p | p in data :: p.0 == "date_reported" && p.1 == FloatValue("nan")
  {
    var clean := CleanAll(data);
    var cols := Written(clean);
    if p :| p in cols && p.0 == "date_reported" && (p.1 == NoneValue || p.1 == FloatValue("nan")) {
      WrittenFields(clean);
      var i :| 0 <= i < |clean| && clean[i] == p;
      assert data[i] in data;
    }
  }

  lemma SubmittedNaNDate(data: Fields)
    ensures (exists p | p in data :: p.0 == "date_reported" && p.1 == FloatValue("nan"))
            ==> exists p | p in Written(CleanAll(data)) :: p.0 == "date_reported" && p.1 == FloatValue("nan")
  {
    var clean := CleanAll(data);
    if q :| q in data && q.0 == "date_reported" && q.1 == FloatValue("nan") {
      WrittenFields(clean);
      var i :| 0 <= i < |data| && data[i] == q;
      assert clean[i] in clean;
      assert clean[i] in Written(clean);
    }
  }

  lemma WrittenNamesDate(data: Fields)
    ensures "date_reported" in Keys(Written(CleanAll(data))) <==> "date_reported" in Keys(data)
  {
    var clean := CleanAll(data);
    var cols := Written(clean);
    CleanKeepsKeys(data);
    WrittenFields(clean);
    if "date_reported" in Keys(data) {
      var i :| 0 <= i < |data| && Keys(data)[i] == "date_reported";
      assert Keys(clean)[i] == "date_reported";
      assert clean[i] in clean && clean[i] in cols;
      var j :| 0 <= j < |cols| && cols[j] == clean[i];
      assert Keys(cols)[j] == "date_reported";
    }
  }

  /** An update of a stored issue that has a date fails on the NOT NULL
      constraint exactly when the statement compiles and the record sets
      `date_reported` to NaN. */
  lemma UpdateNotNull(e: Engine, issues: map<int, IssueRow>, nextId: int, data: Fields, now: string, id: int)
    requires NoDuplicates(Keys(data))
    requires IsUpdate(CleanAll(data)) && IdKey(Lookup(CleanAll(data), "id").value) == Some(id) && id in issues
    requires "date_reported" in issues[id] && !NullDate(issues[id])
    ensures SaveSpec(e, issues, nextId, data, now).result == Failed(NotNullViolation) <==>
            && WriteError(Written(CleanAll(data))).None?
            && exists p | p in data :: p.0 == "date_reported" && p.1 == FloatValue("nan")
  {
    UpdateFailsOnNullDate(e, issues, nextId, data, now, id);
    UpdatedRowNullDate(e, issues[id], data, now);
  }

  /** A found row's update fails on the NOT NULL constraint exactly when
      the statement compiles and the updated row has no `date_reported`. */
  lemma UpdateFailsOnNullDate(e: Engine, issues: map<int, IssueRow>, nextId: int, data: Fields, now: string, id: int)
    requires IsUpdate(CleanAll(data)) && IdKey(Lookup(CleanAll(data), "id").value) == Some(id) && id in issues
    ensures SaveSpec(e, issues, nextId, data, now).result == Failed(NotNullViolation) <==>
            WriteError(Written(CleanAll(data))).None? && NullDate(UpdatedRow(e, issues[id], Written(CleanAll(data)), now))
  {
  }

  /** The updated row of a stored issue with a date has none exactly when
      the record sets `date_reported` to NaN. */
  lemma UpdatedRowNullDate(e: Engine, row: IssueRow, data: Fields, now: string)
    requires NoDuplicates(Keys(data))
    requires "date_reported" in row && !NullDate(row)
    ensures NullDate(UpdatedRow(e, row, Written(CleanAll(data)), now)) <==>
            exists p | p in data :: p.0 == "date_reported" && p.1 == FloatValue("nan")
  {
    var clean := CleanAll(data);
    var cols := Written(clean);
    CleanKeepsKeys(data);
    WrittenFields(clean);
    SetFieldsNullDate(e, row, cols);
    WrittenNullDate(data);
    assert NullDate(UpdatedRow(e, row, cols, now)) == NullDate(SetFields(e, row, cols));
  }

  /** An insert that compiles fails on the NOT NULL constraint exactly when
      the record has no `date_reported` or sets it to NaN. */
  lemma InsertNotNull(e: Engine, issues: map<int, IssueRow>, nextId: int, data: Fields, now: string)
    requires NoDuplicates(Keys(data))
    requires !IsUpdate(CleanAll(data))
    ensures SaveSpec(e, issues, nextId, data, now).result == Failed(NotNullViolation) <==>
            && WriteError(Written(CleanAll(data))).None?
            && ("date_reported" !in Keys(data) || exists p | p in data :: p.0 == "date_reported" && p.1 == FloatValue("nan"))
  {
    var clean := CleanAll(data);
    var cols := Written(clean);
    CleanKeepsKeys(data);
    WrittenFields(clean);
    assert IsColumn("date_reported");
    SetFieldsNullDate(e, DefaultRow(now), cols);
    WrittenNullDate(data);
    assert NullDate(NewRow(e, nextId, cols, now)) == NullDate(SetFields(e, DefaultRow(now), cols));
  }

  /** A falsy `id` (0, "", or None, which cleans to "") makes the save an
      insert, whatever else the record holds. */
  lemma FalsyIdInserts(data: Fields, v: Value)
    requires Lookup(data, "id") == Some(v)
    requires v in {NoneValue, IntValue(0), StrValue(""), BoolValue(false)}
    ensures !IsUpdate(CleanAll(data))
  {
    CleanLookup(data, "id");
  }

  /** Looking a field up after cleaning finds its cleaned value. */
  lemma {:induction false} CleanLookup(data: Fields, k: string)
    ensures Lookup(CleanAll(data), k) ==
            (if Lookup(data, k).Some? then Some(CleanValue(Lookup(data, k).value)) else None)
  {
    if data != [] {
      CleanLookup(data[1..], k);
      assert CleanAll(data)[1..] == CleanAll(data[1..]);
    }
  }

  /** No entry when no field differs. */
  lemma {:induction false} ChangeEntriesEmpty(issue: Value, existing: IssueRow, fields: Fields)
    requires forall p | p in fields :: !Differs(existing, p)
    ensures ChangeEntries(issue, existing, fields) == []
  {
    if fields != [] {
      var init := fields[..|fields| - 1];
      assert fields[|fields| - 1] in fields;
      assert forall p | p in init :: p in fields;
      ChangeEntriesEmpty(issue, existing, init);
    }
  }

  /** A field reads back as submitted: its cleaned value, stored in its
      column, has the same `str()`. */
  predicate ReadsBack(e: Engine, p: (string, Value)) {
    StrOf(Store(e, p.0, CleanValue(p.1))) == StrOf(CleanValue(p.1))
  }

  /** Saving the same update twice logs nothing the second time, when every
      written field reads back as submitted and the record does not set
      `updated_at` itself. */
  lemma ResaveLogsNothing(e: Engine, issues: map<int, IssueRow>, nextId: int, data: Fields, now: string, later: string,
                          id: int)
    requires NoDuplicates(Keys(data))
    requires IsUpdate(CleanAll(data)) && IdKey(Lookup(CleanAll(data), "id").value) == Some(id) && id in issues
    requires SaveSpec(e, issues, nextId, data, now).result.Saved?
    requires forall p | p in data :: p.0 != "updated_at" && (p.0 != "id" ==> ReadsBack(e, p))
    ensures var s := SaveSpec(e, issues, nextId, data, now);
            SaveSpec(e, s.issues, s.nextId, data, later).logged == []
  {
    var clean := CleanAll(data);
    var row := UpdatedRow(e, issues[id], Written(clean), now);
    var s := SaveSpec(e, issues, nextId, data, now);
    UpdateStoresRow(e, issues, nextId, data, now, id);
    UpdateLogsAgainst(e, s.issues, s.nextId, data, later, id);
    UpdatedRowMatchesClean(e, issues[id], data, now);
    ChangeEntriesEmpty(Lookup(clean, "id").value, row, clean);
  }

  /** Saving the same update twice logs, the second time, every written
      column whose value does not read back as submitted. */
  lemma ResaveLogsUnreadable(e: Engine, issues: map<int, IssueRow>, nextId: int, data: Fields, now: string, later: string,
                             id: int, i: int)
    requires NoDuplicates(Keys(data))
    requires IsUpdate(CleanAll(data)) && IdKey(Lookup(CleanAll(data), "id").value) == Some(id) && id in issues
    requires WellFormedRow(id, issues[id])
    requires SaveSpec(e, issues, nextId, data, now).result.Saved?
    requires 0 <= i < |data| && data[i].0 != "id" && data[i].0 != "updated_at" && !ReadsBack(e, data[i])
    ensures var s := SaveSpec(e, issues, nextId, data, now);
            data[i].0 in LoggedFields(SaveSpec(e, s.issues, s.nextId, data, later).logged)
  {
    var clean := CleanAll(data);
    var row := UpdatedRow(e, issues[id], Written(clean), now);
    var s := SaveSpec(e, issues, nextId, data, now);
    CleanKeepsKeys(data);
    UpdateStoresRow(e, issues, nextId, data, now, id);
    UpdateLogsAgainst(e, s.issues, s.nextId, data, later, id);
    UpdatedRowSets(e, issues[id], clean, now);
    assert clean[i] in clean;
    assert Differs(row, clean[i]);
    ChangedFieldsLogged(Lookup(clean, "id").value, row, clean);
  }

  /** Saving the same update twice logs, the second time, every boolean
      field (stored as 1 or 0) and every integer in a REAL column (stored
      as a float: `rework_time_mins` = 5 reads back as 5.0). */
  lemma ResaveLogsConverted(e: Engine, issues: map<int, IssueRow>, nextId: int, data: Fields, now: string, later: string,
                            id: int, i: int)
    requires SoundEngine(e)
    requires NoDuplicates(Keys(data))
    requires IsUpdate(CleanAll(data)) && IdKey(Lookup(CleanAll(data), "id").value) == Some(id) && id in issues
    requires WellFormedRow(id, issues[id])
    requires SaveSpec(e, issues, nextId, data, now).result.Saved?
    requires 0 <= i < |data| && data[i].0 != "id" && data[i].0 != "updated_at"
    requires || data[i].1.BoolValue?
             || (data[i].1.IntValue? && AffinityOf(data[i].0) == RealAffinity && -MaxExactInt <= data[i].1.i <= MaxExactInt)
    ensures var s := SaveSpec(e, issues, nextId, data, now);
            data[i].0 in LoggedFields(SaveSpec(e, s.issues, s.nextId, data, later).logged)
  {
    StoreChangesStr(e, data[i].0, CleanValue(data[i].1));
    ResaveLogsUnreadable(e, issues, nextId, data, now, later, id, i);
  }

  /** A successful update of a found row stores the updated row there. */
  lemma UpdateStoresRow(e: Engine, issues: map<int, IssueRow>, nextId: int, data: Fields, now: string, id: int)
    requires IsUpdate(CleanAll(data)) && IdKey(Lookup(CleanAll(data), "id").value) == Some(id) && id in issues
    requires SaveSpec(e, issues, nextId, data, now).result.Saved?
    ensures SaveSpec(e, issues, nextId, data, now).issues == issues[id := UpdatedRow(e, issues[id], Written(CleanAll(data)), now)]
  {
  }

  /** An update that finds a row logs against that row. */
  lemma UpdateLogsAgainst(e: Engine, issues: map<int, IssueRow>, nextId: int, data: Fields, now: string, id: int)
    requires IsUpdate(CleanAll(data)) && IdKey(Lookup(CleanAll(data), "id").value) == Some(id) && id in issues
    ensures SaveSpec(e, issues, nextId, data, now).logged ==
            ChangeEntries(Lookup(CleanAll(data), "id").value, issues[id], CleanAll(data))
  {
  }

  /** Right after an UPDATE, no submitted field that reads back as
      submitted differs from the row. */
  lemma UpdatedRowMatchesClean(e: Engine, row0: IssueRow, data: Fields, now: string)
    requires NoDuplicates(Keys(data))
    requires forall p | p in data :: p.0 != "updated_at" && (p.0 != "id" ==> ReadsBack(e, p))
    ensures forall p | p in CleanAll(data) :: !Differs(UpdatedRow(e, row0, Written(CleanAll(data)), now), p)
  {
    var clean := CleanAll(data);
    var row := UpdatedRow(e, row0, Written(clean), now);
    CleanKeepsKeys(data);
    UpdatedRowSets(e, row0, clean, now);
    forall p | p in clean ensures !Differs(row, p) {
      var i :| 0 <= i < |clean| && clean[i] == p;
      assert data[i] in data;
      if p.0 != "id" {
        assert ReadsBack(e, data[i]);
      }
    }
  }

  // ---------------------------------------------------------------------
  // keep(original, new)
  // ---------------------------------------------------------------------

  /** `str.isspace()` for one character. */
  predicate IsSpace(c: char) {
    var n := c as int;
    n == 32 || 9 <= n <= 13 || 28 <= n <= 31 || n == 0x85 || n == 0xA0 || n == 0x1680 ||
    0x2000 <= n <= 0x200A || n == 0x2028 || n == 0x2029 || n == 0x202F || n == 0x205F || n == 0x3000
  }

  /** The text without its leading white space. */
  function TrimStart(s: string): (r: string)
    ensures |r| <= |s| && r == s[|s| - |r|..]
    ensures r != [] ==> !IsSpace(r[0])
    ensures forall i | 0 <= i < |s| - |r| :: IsSpace(s[i])
  {
    if s != [] && IsSpace(s[0]) then TrimStart(s[1..]) else s
  }

  /** The text without its trailing white space. */
  function TrimEnd(s: string): (r: string)
    ensures |r| <= |s| && r == s[..|r|]
    ensures r != [] ==> !IsSpace(r[|r| - 1])
    ensures forall i | |r| <= i < |s| :: IsSpace(s[i])
  {
    if s != [] && IsSpace(s[|s| - 1]) then TrimEnd(s[..|s| - 1]) else s
  }

  /** `str.strip()`. */
  function Strip(s: string): string {
    TrimEnd(TrimStart(s))
  }

  /** Stripping leaves nothing exactly when the text is all white space;
      otherwise it is a slice of the text that starts and ends with a
      character that is not. */
  lemma StripBlankIffAllSpace(s: string)
    ensures Strip(s) == "" <==> forall i | 0 <= i < |s| :: IsSpace(s[i])
    ensures Strip(s) != "" ==> exists a, b | 0 <= a < b <= |s| :: Strip(s) == s[a..b] &&
                                 !IsSpace(s[a]) && !IsSpace(s[b - 1])
  {
    var t := TrimStart(s);
    var u := TrimEnd(t);
    if u == "" {
      assert t == [];
    } else {
      var a := |s| - |t|;
      assert u == s[a..a + |u|];
      assert s[a] == u[0] && s[a + |u| - 1] == u[|u| - 1];
      assert !IsSpace(s[a]);
    }
  }

  /** `keep(original, new)`: the new value unless its `str()` is blank. */
  function Keep(original: Value, edited: Value): Value {
    if Strip(StrOf(edited)) != "" then edited else original
  }

  /** The edit form keeps the stored value exactly when the new one reads
      as white space only; a number is never blank, and None reads as
      "None", so it replaces the stored value. */
  lemma KeepBlank(original: Value, edited: Value)
    ensures (exists i | 0 <= i < |StrOf(edited)| :: !IsSpace(StrOf(edited)[i])) ==> Keep(original, edited) == edited
    ensures (forall i | 0 <= i < |StrOf(edited)| :: IsSpace(StrOf(edited)[i])) ==> Keep(original, edited) == original
    ensures edited.IntValue? || edited.NoneValue? ==> Keep(original, edited) == edited
  {
    StripBlankIffAllSpace(StrOf(edited));
    if edited.IntValue? {
      IntStringNotBlank(edited.i);
    }
    if edited.NoneValue? {
      assert !IsSpace(StrOf(edited)[0]);
    }
  }

  /** The decimal form of an integer holds a character that is not space. */
  lemma IntStringNotBlank(i: int)
    ensures exists k | 0 <= k < |IntToString(i)| :: !IsSpace(IntToString(i)[k])
  {
    var s := IntToString(i);
    var d := NatToString(if i < 0 then -i else i);
    if i < 0 {
      assert s == "-" + d;
    }
    assert !IsSpace(s[0]);
  }
}
