/** The dashboard's section layout: cleaning a saved section order, and
    packing the sections left to right into rows of a 12-column grid. */
module Layout {
  import opened SeqUtil

  /** The dashboard's sections, in their default order. */
  const Sections: seq<string> := ["summary", "chart_ref", "chart_comp", "table"]

  /** The width a section takes when none is saved for it. */
  const DefaultWidth := 6

  /** The width of a grid row. */
  const GridColumns := 12

  predicate IsSection(s: string) {
    s in Sections
  }

  // ---------------------------------------------------------------------
  // Section-order sanitisation
  // ---------------------------------------------------------------------

  /** The saved entries that name a section, in their saved order. */
  function KnownSections(order: seq<string>): seq<string> {
    Filter(IsSection, order)
  }

  /** The sanitised order: the known saved entries, then every section they
      lack, in the default order. */
  function Sanitized(order: seq<string>): seq<string> {
    var kept := KnownSections(order);
    kept + Missing(kept, Sections)
  }

  /** The entries of `secs` that `kept` lacks. */
  function Missing(kept: seq<string>, secs: seq<string>): seq<string> {
    Filter(NotIn(kept), secs)
  }

  /** Not among `kept`. */
  function NotIn(kept: seq<string>): string -> bool {
    s => s !in kept
  }

  /** One more default section adds it to the missing ones exactly when it
      is not kept; it was not among them before. */
  lemma MissingStep(kept: seq<string>, i: int)
    requires 0 <= i < |Sections|
    ensures Sections[i] !in Missing(kept, Sections[..i])
    ensures Missing(kept, Sections[..i + 1]) ==
              Missing(kept, Sections[..i]) + (if Sections[i] in kept then [] else [Sections[i]])
  {
    assert Sections[..i + 1] == Sections[..i] + [Sections[i]];
    FilterAppend(NotIn(kept), Sections[..i], [Sections[i]]);
    assert Sections[i] !in Sections[..i];
  }

  /** Keeps the saved entries that name a section, then appends each section
      still missing. */
  method SanitizeLayout(order: seq<string>) returns (r: seq<string>)
    ensures r == Sanitized(order)
  {
    var kept := KnownSections(order);
    r := kept;
    for i := 0 to |Sections|
      invariant r == kept + Missing(kept, Sections[..i])
    {
      var sec := Sections[i];
      MissingStep(kept, i);
      if sec !in r {
        r := r + [sec];
      }
    }
    assert Sections[..|Sections|] == Sections;
  }

  /** The sanitised order holds only sections and every section. */
  lemma SanitizedMembers(order: seq<string>)
    ensures forall s | s in Sanitized(order) :: s in Sections
    ensures forall s | s in Sections :: s in Sanitized(order)
  {
  }

  /** The known saved entries come first, in their saved order; the missing
      sections follow in the default order, each once. */
  lemma SanitizedOrder(order: seq<string>)
    ensures Sanitized(order)[..|KnownSections(order)|] == KnownSections(order)
    ensures Subsequence(KnownSections(order), order)
    ensures Subsequence(Sanitized(order)[|KnownSections(order)|..], Sections)
    ensures forall s | s in Sanitized(order)[|KnownSections(order)|..] :: s !in order
  {
    var kept := KnownSections(order);
    FilterIsSubsequence(IsSection, order);
    assert Sanitized(order)[|kept|..] == Missing(kept, Sections);
    FilterIsSubsequence(NotIn(kept), Sections);
  }

  /** Sanitising a sanitised order changes nothing. */
  lemma SanitizedIdempotent(order: seq<string>)
    ensures Sanitized(Sanitized(order)) == Sanitized(order)
  {
    var r := Sanitized(order);
    SanitizedMembers(order);
    FilterAll(IsSection, r);
    assert KnownSections(r) == r;
    assert forall s | s in Sections :: s in r;
    FilterNone(NotIn(r), Sections);
    assert Missing(r, Sections) == [];
    assert Sanitized(r) == r + [];
  }

  // ---------------------------------------------------------------------
  // Packing into 12-column rows
  // ---------------------------------------------------------------------

  /** A section's saved width, or the default. */
  function WidthOf(widths: map<string, int>, sec: string): int {
    if sec in widths then widths[sec] else DefaultWidth
  }

  /** The sections of `order`, each with its width. */
  function Placed(order: seq<string>, widths: map<string, int>): (p: seq<(string, int)>)
    ensures |p| == |order|
    ensures forall i | 0 <= i < |order| :: p[i] == (order[i], WidthOf(widths, order[i]))
  {
    if order == [] then []
    else Placed(order[..|order| - 1], widths) + [(order[|order| - 1], WidthOf(widths, order[|order| - 1]))]
  }

  lemma PlacedStep(order: seq<string>, widths: map<string, int>, j: int)
    requires 0 <= j < |order|
    ensures Placed(order[..j + 1], widths) == Placed(order[..j], widths) + [(order[j], WidthOf(widths, order[j]))]
  {
    assert order[..j + 1][..j] == order[..j];
  }

  /** The total width of a row. */
  function Sum(row: seq<(string, int)>): int {
    if row == [] then 0 else Sum(row[..|row| - 1]) + row[|row| - 1].1
  }

  /** The rows laid end to end. */
  function Flatten<T>(rows: seq<seq<T>>): seq<T> {
    if rows == [] then [] else Flatten(rows[..|rows| - 1]) + rows[|rows| - 1]
  }

  /** Every prefix of the row with two sections or more fits the grid, so
      a row overflows only when it is a single section wider than 12. */
  predicate Fits(row: seq<(string, int)>) {
    forall k | 2 <= k <= |row| :: PrefixSum(row, k) <= GridColumns
  }

  /** The width of the first `k` sections of a row. */
  function PrefixSum(row: seq<(string, int)>, k: int): int
    requires 0 <= k <= |row|
  {
    Sum(row[..k])
  }

  /** No row is empty, every row fits, and each row ends only because the
      first section of the next would push it past 12 columns. */
  predicate GoodRows(rows: seq<seq<(string, int)>>) {
    && (forall i | 0 <= i < |rows| :: rows[i] != [] && Fits(rows[i]))
    && (forall i | 0 <= i < |rows| - 1 :: Sum(rows[i]) + rows[i + 1][0].1 > GridColumns)
  }

  /** What the packing loop keeps: the emitted rows and the open row lay
      out the sections seen so far, the rows are good, and the open row
      fits and is not empty once a row has been emitted, having been opened
      because its first section overflowed the last emitted row. */
  predicate PackInv(rows: seq<seq<(string, int)>>, cur: seq<(string, int)>, placed: seq<(string, int)>) {
    && Flatten(rows) + cur == placed
    && Fits(cur)
    && GoodRows(rows)
    && (rows != [] ==> cur != [] && Sum(rows[|rows| - 1]) + cur[0].1 > GridColumns)
  }

  /** A section that would push the open row past 12 columns: the open row
      is emitted, if not empty, and a new row opened with the section. */
  lemma PackClose(rows: seq<seq<(string, int)>>, cur: seq<(string, int)>, placed: seq<(string, int)>,
                  x: (string, int))
    requires PackInv(rows, cur, placed) && Sum(cur) + x.1 > GridColumns
    ensures PackInv(if cur != [] then rows + [cur] else rows, [x], placed + [x])
    ensures Sum([x]) == x.1
  {
    var rows' := if cur != [] then rows + [cur] else rows;
    if cur != [] {
      CloseRow(rows, cur);
      assert rows'[|rows'| - 1] == cur;
    }
    assert [x][..0] == [];
    assert Flatten(rows') + [x] == placed + [x];
    assert Fits([x]);
  }

  /** A section that fits joins the open row. */
  lemma PackExtend(rows: seq<seq<(string, int)>>, cur: seq<(string, int)>, placed: seq<(string, int)>,
                   x: (string, int))
    requires PackInv(rows, cur, placed) && Sum(cur) + x.1 <= GridColumns
    ensures PackInv(rows, cur + [x], placed + [x])
    ensures Sum(cur + [x]) == Sum(cur) + x.1
  {
    FitsAppend(cur, x, true);
    if cur != [] {
      assert (cur + [x])[0] == cur[0];
    }
  }

  /** Starts a new row exactly when the next section would push the current
      row past 12 columns; emits no empty row. */
  method PackRows(order: seq<string>, widths: map<string, int>) returns (rows: seq<seq<(string, int)>>)
    ensures Flatten(rows) == Placed(order, widths)
    ensures forall i | 0 <= i < |rows| :: rows[i] != [] && Fits(rows[i])
    ensures forall i | 0 <= i < |rows| - 1 :: Sum(rows[i]) + rows[i + 1][0].1 > GridColumns
  {
    rows := [];
    var cur: seq<(string, int)> := [];
    var acc := 0;
    for j := 0 to |order|
      invariant PackInv(rows, cur, Placed(order[..j], widths)) && acc == Sum(cur)
    {
      var sec := order[j];
      var w := WidthOf(widths, sec);
      ghost var placed := Placed(order[..j], widths);
      PlacedStep(order, widths, j);
      assert Placed(order[..j + 1], widths) == placed + [(sec, w)];
      if acc + w > GridColumns {
        PackClose(rows, cur, placed, (sec, w));
        rows := if cur != [] then rows + [cur] else rows;
        cur, acc := [(sec, w)], w;
      } else {
        PackExtend(rows, cur, placed, (sec, w));
        cur := cur + [(sec, w)];
        acc := acc + w;
      }
    }
    assert order[..|order|] == order;
    PackFinish(rows, cur, Placed(order, widths));
    rows := if cur != [] then rows + [cur] else rows;
  }

  /** After the last section the open row, if not empty, is emitted too. */
  lemma PackFinish(rows: seq<seq<(string, int)>>, cur: seq<(string, int)>, placed: seq<(string, int)>)
    requires PackInv(rows, cur, placed)
    ensures var out := if cur != [] then rows + [cur] else rows;
            GoodRows(out) && Flatten(out) == placed
  {
    if cur != [] {
      CloseRow(rows, cur);
    }
  }

  /** Closing a non-empty fitting row keeps the rows good. */
  lemma CloseRow(rows: seq<seq<(string, int)>>, cur: seq<(string, int)>)
    requires GoodRows(rows) && cur != [] && Fits(cur)
    requires rows != [] ==> Sum(rows[|rows| - 1]) + cur[0].1 > GridColumns
    ensures GoodRows(rows + [cur])
    ensures Flatten(rows + [cur]) == Flatten(rows) + cur
  {
    var r: seq<seq<(string, int)>> := rows + [cur];
    FlattenSnoc(rows, cur);
    forall i | 0 <= i < |r| ensures r[i] != [] && Fits(r[i]) {
      if i < |rows| {
        assert r[i] == rows[i];
      }
    }
    forall i | 0 <= i < |r| - 1 ensures Sum(r[i]) + r[i + 1][0].1 > GridColumns {
      assert r[i] == rows[i];
      if i + 1 < |rows| {
        assert r[i + 1] == rows[i + 1];
      }
    }
  }

  lemma FlattenSnoc<T>(rows: seq<seq<T>>, last: seq<T>)
    ensures Flatten(rows + [last]) == Flatten(rows) + last
  {
    var r := rows + [last];
    assert r[..|r| - 1] == rows;
    assert r[|r| - 1] == last;
  }

  /** Appending a section keeps a row fitting when it was empty or the
      section fits in the columns left. */
  lemma FitsAppend(row: seq<(string, int)>, x: (string, int), roomLeft: bool)
    requires Fits(row)
    requires roomLeft == (Sum(row) + x.1 <= GridColumns)
    requires row == [] || roomLeft
    ensures Fits(row + [x])
    ensures Sum(row + [x]) == Sum(row) + x.1
  {
    var r := row + [x];
    assert r[..|r| - 1] == row;
    forall k | 2 <= k <= |r| ensures PrefixSum(r, k) <= GridColumns {
      assert PrefixSum(r, k) == Sum(r[..k]);
      if k < |r| {
        assert r[..k] == row[..k];
        assert PrefixSum(row, k) == Sum(row[..k]);
      } else {
        assert r[..k] == r;
      }
    }
  }
}
