/** The two decision tables that turn the per-location disposition counts
    of an AOI inspection into an outcome label. */
module Outcomes {

  /** How many inspection rows of one (serial, location, defect code)
      carried each of the three dispositions. */
  datatype Counts = Counts(falseCall: nat, overridden: nat, reworkable: nat)

  /** The outcome labels; `Unclassified` is the fallback label "None". */
  datatype Outcome = False | Real | Fixed | Suspect | Unclassified

  /** The text stored in the `Outcome` column for each label. */
  function Label(o: Outcome): (s: string)
    ensures s != ""
  {
    match o
    case False => "False"
    case Real => "Real"
    case Fixed => "Fixed from previously caught"
    case Suspect => "Suspect"
    case Unclassified => "None"
  }

  lemma LabelInjective(a: Outcome, b: Outcome)
    ensures Label(a) == Label(b) ==> a == b
  {
    if Label(a) == Label(b) {
      assert Label(a)[0] == Label(b)[0];
      if a == Real || b == Real {
        assert |Label(a)| == |Label(b)|;
      }
    }
  }

  /** The four-outcome table of the classify helper: any false call wins;
      otherwise the Overridden / Reworkable sign pattern decides. */
  function ClassifyFour(c: Counts): (o: Outcome)
    ensures o == False <==> c.falseCall > 0
    ensures o == Fixed <==> c.falseCall == 0 && c.reworkable == 0 && c.overridden > 0
    ensures o == Suspect <==> c.falseCall == 0 && c.reworkable > 0 && c.overridden == 0
    ensures o == Real <==> c.falseCall == 0 && c.reworkable > 0 && c.overridden > 0
    ensures o == Unclassified <==> c.falseCall == 0 && c.overridden == 0 && c.reworkable == 0
  {
    if c.falseCall > 0 then False
    else if c.reworkable == 0 && c.overridden > 0 then Fixed
    else if c.reworkable > 0 && c.overridden == 0 then Suspect
    else if c.reworkable > 0 && c.overridden > 0 then Real
    else Unclassified
  }

  /** The three-outcome first-match table of the status script:
      False before Real before Suspect, "None" when nothing matches. */
  function ClassifyThree(c: Counts): (o: Outcome)
    ensures o != Fixed
    ensures o == False <==> c.falseCall > 0
    ensures o == Real <==> c.falseCall == 0 && c.overridden > 0
    ensures o == Suspect <==> c.falseCall == 0 && c.overridden == 0 && c.reworkable > 0
    ensures o == Unclassified <==> c.falseCall == 0 && c.overridden == 0 && c.reworkable == 0
  {
    if c.falseCall > 0 then False
    else if c.overridden > 0 then Real
    else if c.reworkable > 0 then Suspect
    else Unclassified
  }

  /** Both tables fall back to "None" on exactly the all-zero counts. */
  lemma UnclassifiedExactlyWhenNoDisposition(c: Counts)
    ensures ClassifyFour(c) == Unclassified <==> c == Counts(0, 0, 0)
    ensures ClassifyThree(c) == Unclassified <==> c == Counts(0, 0, 0)
  {
  }

  /** The two tables disagree on exactly one sign pattern: no false call,
      some Overridden and no Reworkable, where the three-way table says
      Real and the four-way table says Fixed from previously caught. */
  lemma TablesDisagreeOnlyOnOverriddenOnly(c: Counts)
    ensures ClassifyThree(c) != ClassifyFour(c) <==>
              c.falseCall == 0 && c.overridden > 0 && c.reworkable == 0
    ensures ClassifyThree(c) != ClassifyFour(c) ==>
              ClassifyThree(c) == Real && ClassifyFour(c) == Fixed
  {
  }
}
