/** The orders the dashboards sort by: Python's `<` on strings (code point
    by code point, a proper prefix first) for `sorted(...unique())`, and
    counts from largest to smallest for `sort_values(ascending=False)`. */
module Ordering {

  /** Python's `a < b` on `str`. */
  predicate StrLt(a: string, b: string) {
    if a == [] then b != []
    else if b == [] then false
    else if a[0] != b[0] then a[0] < b[0]
    else StrLt(a[1..], b[1..])
  }

  lemma {:induction false} StrLtIrreflexive(a: string)
    ensures !StrLt(a, a)
  {
    if a != [] {
      StrLtIrreflexive(a[1..]);
    }
  }

  /** Two different strings are always ordered one way. */
  lemma {:induction false} StrLtTotal(a: string, b: string)
    ensures a == b || StrLt(a, b) || StrLt(b, a)
  {
    if a != [] && b != [] && a[0] == b[0] {
      StrLtTotal(a[1..], b[1..]);
      if a[1..] == b[1..] {
        assert a == [a[0]] + a[1..] && b == [b[0]] + b[1..];
      }
    }
  }

  lemma {:induction false} StrLtAsymmetric(a: string, b: string)
    requires StrLt(a, b)
    ensures !StrLt(b, a)
  {
    if a != [] && b != [] && a[0] == b[0] {
      StrLtAsymmetric(a[1..], b[1..]);
    }
  }

  lemma {:induction false} StrLtTransitive(a: string, b: string, c: string)
    requires StrLt(a, b) && StrLt(b, c)
    ensures StrLt(a, c)
  {
    if a != [] && a[0] == b[0] && b[0] == c[0] {
      StrLtTransitive(a[1..], b[1..], c[1..]);
    }
  }

  /** Each string comes strictly before every later one. */
  predicate StrictlySorted(s: seq<string>) {
    forall i, j | 0 <= i < j < |s| :: StrLt(s[i], s[j])
  }

  /** Strictly sorted strings hold no duplicate. */
  lemma StrictlySortedDistinct(s: seq<string>, i: int, j: int)
    requires StrictlySorted(s) && 0 <= i < j < |s|
    ensures s[i] != s[j]
  {
    StrLtIrreflexive(s[i]);
  }

  /** Insert `x` into a strictly sorted sequence unless it is already there. */
  function InsertUnique(x: string, s: seq<string>): (r: seq<string>)
    requires StrictlySorted(s)
    ensures StrictlySorted(r)
    ensures forall y :: y in r <==> y == x || y in s
  {
    if s == [] then [x]
    else if x == s[0] then s
    else if StrLt(x, s[0]) then
      var r := [x] + s;
      assert forall j | 1 <= j < |r| :: r[j] == s[j - 1];
      forall j | 1 <= j < |r| ensures StrLt(x, r[j]) {
        if j > 1 {
          StrLtTransitive(x, s[0], s[j - 1]);
        }
      }
      r
    else
      StrLtTotal(x, s[0]);
      var rest := InsertUnique(x, s[1..]);
      var r := [s[0]] + rest;
      assert forall y | y in s[1..] :: StrLt(s[0], y);
      assert forall j | 1 <= j < |r| :: r[j] == rest[j - 1] && r[j] in rest;
      r
  }

  /** `sorted(set(xs))`: the distinct strings of `xs`, strictly increasing. */
  function SortedUnique(xs: seq<string>): (r: seq<string>)
    ensures StrictlySorted(r)
    ensures forall y :: y in r <==> y in xs
  {
    if xs == [] then []
    else InsertUnique(xs[0], SortedUnique(xs[1..]))
  }

  /** The sorted order of a set of strings is unique: two strictly sorted
      sequences with the same elements are equal. */
  lemma {:induction false} StrictlySortedUnique(a: seq<string>, b: seq<string>)
    requires StrictlySorted(a) && StrictlySorted(b)
    requires forall y :: y in a <==> y in b
    ensures a == b
  {
    assert a != [] ==> a[0] in b;
    assert b != [] ==> b[0] in a;
    if a != [] && b != [] {
      assert a[0] in b && b[0] in a;
      if a[0] != b[0] {
        var i :| 0 <= i < |b| && b[i] == a[0];
        var j :| 0 <= j < |a| && a[j] == b[0];
        StrLtAsymmetric(a[0], a[j]);
      }
      forall y ensures y in a[1..] <==> y in b[1..] {
        assert b == [b[0]] + b[1..] && a == [a[0]] + a[1..];
        if y in a[1..] {
          var i :| 1 <= i < |a| && a[i] == y;
          StrLtIrreflexive(a[0]);
          assert y != b[0] && y in b;
        }
        if y in b[1..] {
          var i :| 1 <= i < |b| && b[i] == y;
          StrLtIrreflexive(b[0]);
          assert y != a[0] && y in a;
        }
      }
      StrictlySortedUnique(a[1..], b[1..]);
      assert a == [a[0]] + a[1..] && b == [b[0]] + b[1..];
    }
  }

  /** Each count is at least every later one. */
  predicate SortedByCountDesc<K>(s: seq<(K, nat)>) {
    forall i, j | 0 <= i < j < |s| :: s[i].1 >= s[j].1
  }

  /** Insert `p` before the first entry with a count not above its own. */
  function InsertByCount<K>(p: (K, nat), s: seq<(K, nat)>): (r: seq<(K, nat)>)
    requires SortedByCountDesc(s)
    ensures SortedByCountDesc(r)
    ensures multiset(r) == multiset(s) + multiset{p}
  {
    if s == [] || p.1 >= s[0].1 then
      ConsSorted(p, s);
      [p] + s
    else
      var rest := InsertByCount(p, s[1..]);
      assert s == [s[0]] + s[1..];
      HeadBoundsInsert(p, s, rest);
      assert rest != [] ==> rest[0] in rest;
      ConsSorted(s[0], rest);
      [s[0]] + rest
  }

  /** An entry counting at least as much as the head of a sorted list can go
      in front of it. */
  lemma ConsSorted<K>(h: (K, nat), s: seq<(K, nat)>)
    requires SortedByCountDesc(s) && (s == [] || h.1 >= s[0].1)
    ensures SortedByCountDesc([h] + s)
  {
    var r := [h] + s;
    forall i, j | 0 <= i < j < |r| ensures r[i].1 >= r[j].1 {
      assert r[j] == s[j - 1];
      if i > 0 {
        assert r[i] == s[i - 1];
      }
    }
  }

  /** The head of a sorted list bounds every count inserted after it. */
  lemma HeadBoundsInsert<K>(p: (K, nat), s: seq<(K, nat)>, rest: seq<(K, nat)>)
    requires SortedByCountDesc(s) && s != [] && p.1 < s[0].1
    requires multiset(rest) == multiset(s[1..]) + multiset{p}
    ensures forall x | x in rest :: x.1 <= s[0].1
  {
    forall x | x in rest ensures x.1 <= s[0].1 {
      assert x in multiset(rest);
      if x != p {
        assert x in multiset(s[1..]);
        var j :| 0 <= j < |s[1..]| && s[1..][j] == x;
        assert s[j + 1] == x;
      }
    }
  }

  /** `sort_values("count", ascending=False)`: the same entries, counts
      never increasing. */
  function SortByCountDesc<K>(s: seq<(K, nat)>): (r: seq<(K, nat)>)
    ensures SortedByCountDesc(r)
    ensures multiset(r) == multiset(s)
  {
    if s == [] then []
    else
      assert s == [s[0]] + s[1..];
      InsertByCount(s[0], SortByCountDesc(s[1..]))
  }
}
