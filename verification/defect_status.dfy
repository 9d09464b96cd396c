/** The three-outcome status script: the same loop collapse, then the
    first-match table False > Real > Suspect, then the "None" rows dropped. */
module DefectStatus {
  import opened SeqUtil
  import opened Outcomes
  import opened Loops

  /** Keeps a collapsed row when the three-way table gives it a real label. */
  predicate HasThreeWayLabel(r: CountRow) {
    ClassifyThree(StatusCounts(r)) != Unclassified
  }

  function FirstsOf(out: seq<(CountRow, Outcome)>): (rs: seq<CountRow>)
    ensures |rs| == |out| && forall i | 0 <= i < |out| :: rs[i] == out[i].0
  {
    if out == [] then [] else [out[0].0] + FirstsOf(out[1..])
  }

  /** Write the Outcome column with the three-way table, then keep the rows
      whose label is not "None", in their original order. */
  function AssignOutcome(t: StatusTable): (out: seq<(CountRow, Outcome)>)
    ensures Subsequence(FirstsOf(out), t.rows)
    ensures forall i | 0 <= i < |out| ::
              out[i].1 == ClassifyThree(StatusCounts(out[i].0)) && out[i].1 != Unclassified
    ensures forall r | r in t.rows && ClassifyThree(StatusCounts(r)) != Unclassified :: r in FirstsOf(out)
  {
    var kept := Filter(HasThreeWayLabel, t.rows);
    var out := seq(|kept|, i requires 0 <= i < |kept| => (kept[i], ClassifyThree(StatusCounts(kept[i]))));
    assert FirstsOf(out) == kept;
    forall i | 0 <= i < |kept|
      ensures HasThreeWayLabel(kept[i])
    {
      assert kept[i] in kept;
    }
    FilterIsSubsequence(HasThreeWayLabel, t.rows);
    out
  }

  /** What the status script writes for one export. */
  function StatusReport(rows: seq<RawRow>): seq<(CountRow, Outcome)> {
    AssignOutcome(WithStatusColumns(Collapse(rows)))
  }

  /** Each reported row carries all three disposition columns, and its
      label is the three-way label of its key's disposition counts. */
  lemma StatusReportRow(rows: seq<RawRow>, p: (CountRow, Outcome))
    requires p in StatusReport(rows)
    ensures forall c | c in ReworkStatusColumns :: c in p.0.counts
    ensures p.1 == ClassifyThree(KeyCounts(rows, p.0.key)) && p.1 != Unclassified
  {
    var grp := WithStatusColumns(Collapse(rows));
    var out := AssignOutcome(grp);
    var i :| 0 <= i < |out| && out[i] == p;
    assert FirstsOf(out)[i] == p.0;
    assert FirstsOf(out)[i] in FirstsOf(out);
    SubsequenceMember(FirstsOf(out), grp.rows, FirstsOf(out)[i]);
    CollapsedRowCounts(rows, p.0);
  }

  /** The status script yields one row per distinct key at most. */
  lemma StatusReportKeysUnique(rows: seq<RawRow>)
    ensures NoDuplicates(RowKeys(FirstsOf(StatusReport(rows))))
  {
    var grp := WithStatusColumns(Collapse(rows));
    var kept := Filter(HasThreeWayLabel, grp.rows);
    var out := AssignOutcome(grp);
    assert FirstsOf(out) == kept;
    CollapsedKeys(rows);
    assert RowKeys(grp.rows) == TableKeys(Collapse(rows));
    FilterKeepsKeysDistinct(HasThreeWayLabel, grp.rows);
  }

  /** A "Suspect" row has neither false calls nor overrides, and a "Real"
      row has no false calls. */
  lemma SuspectAndRealGuards(p: (CountRow, Outcome), t: StatusTable)
    requires p in AssignOutcome(t)
    ensures p.1 == Suspect ==> CountOf(p.0, FalseCallColumn) == 0 && CountOf(p.0, OverriddenColumn) == 0
    ensures p.1 == Real ==> CountOf(p.0, FalseCallColumn) == 0
  {
  }
}
