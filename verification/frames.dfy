/** The data frames the dashboards work on: rows of named cells, the
    pin-level Ref_Id base, and pandas' `drop_duplicates` (keep the first
    row of each key). */
module Frames {
  import opened SeqUtil
  import opened Dates

  /** One cell: null (None / NaN / NaT), text, an integer, or a moment. */
  datatype Cell = Null | Text(s: string) | Number(n: int) | Moment(t: DateTime)

  /** One row; a column the map lacks holds null. */
  type Row = map<string, Cell>

  /** A frame: its column names in order and its rows in order. */
  datatype Frame = Frame(columns: seq<string>, rows: seq<Row>)

  function Get(r: Row, c: string): Cell {
    if c in r then r[c] else Null
  }

  /** `DataFrame.empty`: no rows or no columns. */
  predicate Empty(f: Frame) {
    f.rows == [] || f.columns == []
  }

  /** The text before the first '.', all of it when there is none. */
  function BeforeDot(s: string): (p: string)
    ensures |p| <= |s| && p == s[..|p|]
    ensures '.' !in p
    ensures |p| < |s| ==> s[|p|] == '.'
  {
    if s == [] || s[0] == '.' then [] else [s[0]] + BeforeDot(s[1..])
  }

  /** `Ref_Id.str.split(".").str[0]`: the base reference of a pin-level
      Ref_Id; null for a cell that is not text. */
  function BaseRef(c: Cell): (b: Cell)
    ensures b.Null? || b.Text?
    ensures b.Text? <==> c.Text?
  {
    match c
    case Text(s) => Text(BeforeDot(s))
    case _ => Null
  }

  /** A base reference is the Ref_Id up to, not including, its first '.':
      a Ref_Id without '.' is its own base, and taking the base twice
      changes nothing. */
  lemma BaseRefIsPrefixBeforeDot(s: string)
    ensures BaseRef(Text(s)).s == s[..|BaseRef(Text(s)).s|]
    ensures '.' !in BaseRef(Text(s)).s
    ensures |BaseRef(Text(s)).s| < |s| ==> s[|BaseRef(Text(s)).s|] == '.'
    ensures '.' !in s ==> BaseRef(Text(s)) == Text(s)
    ensures BaseRef(BaseRef(Text(s))) == BaseRef(Text(s))
  {
    var p := BeforeDot(s);
    if '.' !in s {
      assert p == s;
    }
  }

  /** A pin-level reference shares its base with the component reference:
      `C100.1` and `C100` both count as `C100`. */
  lemma BaseRefIgnoresPinSuffix(s: string, pin: string)
    requires '.' !in s
    ensures BaseRef(Text(s + "." + pin)) == BaseRef(Text(s)) == Text(s)
  {
    assert s + "." + pin == s + ("." + pin);
    BeforeDotStopsAtDot(s, "." + pin);
    BaseRefIsPrefixBeforeDot(s);
  }

  lemma {:induction false} BeforeDotStopsAtDot(s: string, rest: string)
    requires '.' !in s && rest != [] && rest[0] == '.'
    ensures BeforeDot(s + rest) == s
  {
    if s != [] {
      assert (s + rest)[1..] == s[1..] + rest;
      BeforeDotStopsAtDot(s[1..], rest);
    } else {
      assert s + rest == rest;
    }
  }

  /** `dt.floor("T")`: the moment truncated to its minute; null for a cell
      that holds no moment. */
  function FloorMinute(c: Cell): (m: Cell)
    ensures m.Null? || m.Moment?
    ensures m.Moment? ==> c.Moment? && m.t.date == c.t.date && m.t.second % 60 == 0 &&
                          m.t.second <= c.t.second < m.t.second + 60
  {
    match c
    case Moment(t) => Moment(DateTime(t.date, t.second / 60 * 60))
    case _ => Null
  }

  function KeysBy(rows: seq<Row>, key: Row -> seq<Cell>): (ks: seq<seq<Cell>>)
    ensures |ks| == |rows| && forall i | 0 <= i < |rows| :: ks[i] == key(rows[i])
  {
    if rows == [] then [] else [key(rows[0])] + KeysBy(rows[1..], key)
  }

  /** The rows whose key does not occur in `seen` or earlier in `rows`. */
  function DropDuplicatesFrom(rows: seq<Row>, key: Row -> seq<Cell>, seen: set<seq<Cell>>): (r: seq<Row>)
    ensures |r| <= |rows|
  {
    if rows == [] then []
    else if key(rows[0]) in seen then DropDuplicatesFrom(rows[1..], key, seen)
    else [rows[0]] + DropDuplicatesFrom(rows[1..], key, seen + {key(rows[0])})
  }

  /** `drop_duplicates(cols)` with `keep="first"`: the rows in their order,
      one per key, and every key of the input is kept. */
  function DropDuplicates(rows: seq<Row>, key: Row -> seq<Cell>): (r: seq<Row>)
    ensures Subsequence(r, rows)
    ensures NoDuplicates(KeysBy(r, key))
    ensures forall x | x in rows :: key(x) in KeysBy(r, key)
  {
    DropDuplicatesFromShape(rows, key, {});
    DropDuplicatesFrom(rows, key, {})
  }

  /** The kept rows are a subsequence of the input, their keys are new and
      distinct, and every key of the input is already seen or kept. */
  lemma {:induction false} DropDuplicatesFromShape(rows: seq<Row>, key: Row -> seq<Cell>, seen: set<seq<Cell>>)
    ensures Subsequence(DropDuplicatesFrom(rows, key, seen), rows)
    ensures NoDuplicates(KeysBy(DropDuplicatesFrom(rows, key, seen), key))
    ensures forall x | x in DropDuplicatesFrom(rows, key, seen) :: key(x) !in seen
    ensures forall x | x in rows :: key(x) in seen || key(x) in KeysBy(DropDuplicatesFrom(rows, key, seen), key)
  {
    if rows != [] {
      if key(rows[0]) in seen {
        var rest := DropDuplicatesFrom(rows[1..], key, seen);
        DropDuplicatesFromShape(rows[1..], key, seen);
        SubsequenceSkip(rest, rows);
        forall x | x in rows ensures key(x) in seen || key(x) in KeysBy(rest, key) {
          if x != rows[0] {
            assert x in rows[1..];
          }
        }
      } else {
        var seen' := seen + {key(rows[0])};
        var rest := DropDuplicatesFrom(rows[1..], key, seen');
        DropDuplicatesFromShape(rows[1..], key, seen');
        var r := [rows[0]] + rest;
        assert r[1..] == rest;
        assert KeysBy(r, key)[1..] == KeysBy(rest, key);
        forall x | x in rows ensures key(x) in seen || key(x) in KeysBy(r, key) {
          if x != rows[0] {
            assert x in rows[1..];
            if key(x) !in seen' {
              var i :| 0 <= i < |rest| && KeysBy(rest, key)[i] == key(x);
              assert KeysBy(r, key)[i + 1] == key(x);
            }
          } else {
            assert KeysBy(r, key)[0] == key(x);
          }
        }
        forall j | 0 < j < |r| ensures KeysBy(r, key)[j] != key(rows[0]) {
          assert r[j] in rest;
        }
      }
    }
  }

  /** Row `j` is the first row with its key. */
  predicate FirstWithKey(rows: seq<Row>, key: Row -> seq<Cell>, j: int)
    requires 0 <= j < |rows|
  {
    forall k | 0 <= k < j :: key(rows[k]) != key(rows[j])
  }

  /** The first row of each key not already seen is kept. */
  lemma {:induction false} DropDuplicatesKeepsFirst(rows: seq<Row>, key: Row -> seq<Cell>, seen: set<seq<Cell>>, j: int)
    requires 0 <= j < |rows| && FirstWithKey(rows, key, j) && key(rows[j]) !in seen
    ensures rows[j] in DropDuplicatesFrom(rows, key, seen)
  {
    if j > 0 {
      var seen' := if key(rows[0]) in seen then seen else seen + {key(rows[0])};
      assert key(rows[0]) != key(rows[j]);
      assert rows[1..][j - 1] == rows[j];
      assert FirstWithKey(rows[1..], key, j - 1) by {
        forall k | 0 <= k < j - 1 ensures key(rows[1..][k]) != key(rows[1..][j - 1]) {
          assert rows[1..][k] == rows[k + 1];
        }
      }
      DropDuplicatesKeepsFirst(rows[1..], key, seen', j - 1);
    }
  }

  /** Every kept row is the first row of its key, and its key was not
      already seen. */
  lemma {:induction false} DropDuplicatesOnlyFirst(rows: seq<Row>, key: Row -> seq<Cell>, seen: set<seq<Cell>>, x: Row)
    returns (j: int)
    requires x in DropDuplicatesFrom(rows, key, seen)
    ensures 0 <= j < |rows| && rows[j] == x && FirstWithKey(rows, key, j) && key(x) !in seen
  {
    if key(rows[0]) !in seen && x == rows[0] {
      j := 0;
    } else {
      var seen' := seen + {key(rows[0])};
      if key(rows[0]) in seen {
        assert seen' == seen;
      }
      var i := DropDuplicatesOnlyFirst(rows[1..], key, seen', x);
      j := i + 1;
      assert rows[j] == x;
      forall k | 0 < k < j ensures key(rows[k]) != key(rows[j]) {
        assert rows[k] == rows[1..][k - 1];
      }
    }
  }
}
