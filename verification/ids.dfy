/** Identifiers and the text handling answer grading relies on: the text form of a UUID,
    Java's `String.split(",")`, and the order `ORDER BY id` sorts by. */
module Ids {

  /** A UUID's text form (`UUID.toString()`) is non-empty and holds no comma. */
  predicate IsIdText(s: string) {
    |s| > 0 && ',' !in s
  }

  type Id = s: string | IsIdText(s) witness "0"

  /** Position of the first occurrence of `c` in `s`. */
  function IndexOf(s: string, c: char): (i: nat)
    requires c in s
    ensures i < |s| && s[i] == c && c !in s[..i]
  {
    if s[0] == c then 0 else 1 + IndexOf(s[1..], c)
  }

  /** Cuts `s` at every comma, keeping every piece, empty ones included. */
  function SplitAll(s: string): (r: seq<string>)
    ensures |r| > 0
    ensures forall k :: 0 <= k < |r| ==> ',' !in r[k]
    decreases |s|
  {
    if ',' !in s then [s]
    else
      var i := IndexOf(s, ',');
      [s[..i]] + SplitAll(s[i + 1..])
  }

  /** Drops the empty pieces at the end, as `String.split` with limit 0 does. */
  function DropTrailingEmpty(xs: seq<string>): (r: seq<string>)
    ensures |r| <= |xs| && r == xs[..|r|]
    ensures |r| > 0 ==> r[|r| - 1] != ""
    ensures forall k :: |r| <= k < |xs| ==> xs[k] == ""
  {
    if |xs| > 0 && xs[|xs| - 1] == "" then DropTrailingEmpty(xs[..|xs| - 1]) else xs
  }

  /** Java's `s.split(",")`: an input without a comma comes back whole (so `""` gives
      `[""]`); otherwise the pieces between commas, minus trailing empty pieces. */
  function Split(s: string): (r: seq<string>)
    ensures forall k :: 0 <= k < |r| ==> ',' !in r[k]
  {
    if ',' !in s then [s] else DropTrailingEmpty(SplitAll(s))
  }

  /** The pieces written back with a comma between neighbours (`Collectors.joining(",")`). */
  function Join(xs: seq<string>): string
  {
    if |xs| == 0 then ""
    else if |xs| == 1 then xs[0]
    else xs[0] + "," + Join(xs[1..])
  }

  lemma {:induction false} JoinSplitAll(s: string)
    ensures Join(SplitAll(s)) == s
    decreases |s|
  {
    if ',' in s {
      var i := IndexOf(s, ',');
      var rest := SplitAll(s[i + 1..]);
      JoinSplitAll(s[i + 1..]);
      assert SplitAll(s) == [s[..i]] + rest;
      assert ([s[..i]] + rest)[1..] == rest;
      assert s == s[..i] + "," + s[i + 1..];
    }
  }

  lemma {:induction false} SplitAllJoin(xs: seq<string>)
    requires |xs| > 0
    requires forall k :: 0 <= k < |xs| ==> ',' !in xs[k]
    ensures SplitAll(Join(xs)) == xs
  {
    if |xs| > 1 {
      var s := Join(xs);
      assert s == xs[0] + "," + Join(xs[1..]);
      assert ',' in s by { assert s[|xs[0]|] == ','; }
      assert s[..|xs[0]|] == xs[0];
      IndexOfPrefix(xs[0], Join(xs[1..]));
      assert s[|xs[0]| + 1..] == Join(xs[1..]);
      SplitAllJoin(xs[1..]);
    }
  }

  lemma IndexOfPrefix(a: string, b: string)
    requires ',' !in a
    ensures ',' in a + "," + b && IndexOf(a + "," + b, ',') == |a|
  {
    var s := a + "," + b;
    assert s[|a|] == ',';
  }

  /** Splitting the comma-joined text of some ids gives those ids back. */
  lemma SplitJoinIds(xs: seq<Id>)
    requires |xs| > 0
    ensures Split(Join(xs)) == xs
  {
    SplitAllJoin(xs);
    if |xs| == 1 {
      assert Join(xs) == xs[0];
    } else {
      assert Join(xs) == xs[0] + "," + Join(xs[1..]);
      assert (xs[0] + "," + Join(xs[1..]))[|xs[0]|] == ',';
      assert xs[|xs| - 1] != "";
      assert DropTrailingEmpty(xs) == xs;
    }
  }

  /** Character-wise comparison, the order of `ORDER BY id` on UUID text. */
  predicate Below(a: string, b: string)
    decreases |a|
  {
    if |a| == 0 then |b| > 0
    else if |b| == 0 then false
    else a[0] < b[0] || (a[0] == b[0] && Below(a[1..], b[1..]))
  }

  lemma BelowIrreflexive(a: string)
    ensures !Below(a, a)
  {
  }

  lemma BelowTransitive(a: string, b: string, c: string)
    requires Below(a, b) && Below(b, c)
    ensures Below(a, c)
  {
  }

  lemma BelowTotal(a: string, b: string)
    ensures a == b || Below(a, b) || Below(b, a)
  {
    if |a| > 0 && |b| > 0 && a[0] == b[0] {
      BelowTotal(a[1..], b[1..]);
      if a[1..] == b[1..] {
        assert a == [a[0]] + a[1..] && b == [b[0]] + b[1..];
      }
    }
  }

  predicate IsLeast(m: Id, s: set<Id>) {
    m in s && forall x :: x in s ==> !Below(x, m)
  }

  /** Every non-empty finite set of ids has a least element. */
  lemma {:induction false} LeastExists(s: set<Id>)
    requires s != {}
    ensures exists m: Id :: IsLeast(m, s)
    decreases |s|
  {
    var y :| y in s;
    if s == {y} {
      BelowIrreflexive(y);
      assert IsLeast(y, s);
    } else {
      LeastExists(s - {y});
      var m: Id :| IsLeast(m, s - {y});
      if Below(y, m) {
        forall x | x in s
          ensures !Below(x, y)
        {
          BelowIrreflexive(y);
          if Below(x, y) {
            BelowTransitive(x, y, m);
          }
        }
        BelowIrreflexive(y);
        assert IsLeast(y, s);
      } else {
        assert IsLeast(m, s);
      }
    }
  }

  /** No element occurs twice. */
  predicate Distinct<T(==)>(xs: seq<T>) {
    forall i, j :: 0 <= i < j < |xs| ==> xs[i] != xs[j]
  }

  /** A list has as many distinct entries as entries exactly when none repeats. */
  lemma {:induction false} DistinctCount<T>(cats: seq<T>)
    ensures |set c | c in cats| <= |cats|
    ensures |set c | c in cats| == |cats| <==> Distinct(cats)
  {
    if cats != [] {
      var rest := cats[1..];
      DistinctCount(rest);
      assert (set c | c in cats) == {cats[0]} + (set c | c in rest);
      if cats[0] in rest {
        assert (set c | c in cats) == (set c | c in rest);
        var j :| 0 <= j < |rest| && rest[j] == cats[0];
        assert cats[0] == cats[j + 1];
      } else {
        assert Distinct(cats) <==> Distinct(rest) by {
          if Distinct(rest) {
            forall i, j | 0 <= i < j < |cats|
              ensures cats[i] != cats[j]
            {
              if i > 0 {
                assert cats[i] == rest[i - 1] && cats[j] == rest[j - 1];
              } else {
                assert cats[j] in rest;
              }
            }
          }
          if Distinct(cats) {
            forall i, j | 0 <= i < j < |rest|
              ensures rest[i] != rest[j]
            {
              assert rest[i] == cats[i + 1] && rest[j] == cats[j + 1];
            }
          }
        }
      }
    }
  }

  /** A subset is no larger than its superset. */
  lemma SubsetSize<T>(a: set<T>, b: set<T>)
    requires a <= b
    ensures |a| <= |b|
  {
    assert b == (b - a) + a;
    assert |b| == |b - a| + |a|;
  }

  /** A subset as large as its superset is the superset. */
  lemma SameSizeSubset<T>(a: set<T>, b: set<T>)
    requires a <= b && |a| == |b|
    ensures a == b
  {
    assert |b - a| == |b| - |a|;
    assert b - a == {};
  }

  predicate StrictlySorted(r: seq<Id>) {
    forall i, j :: 0 <= i < j < |r| ==> Below(r[i], r[j])
  }

  /** The ids of `s` in ascending order, each exactly once. */
  function SortIds(s: set<Id>): (r: seq<Id>)
    ensures |r| == |s|
    ensures forall x :: x in s <==> x in r
    ensures StrictlySorted(r)
    decreases |s|
  {
    if s == {} then []
    else
      LeastExists(s);
      LeastUnique(s);
      var m: Id :| IsLeast(m, s);
      var rest := SortIds(s - {m});
      SortedCons(m, rest);
      [m] + rest
  }

  /** A set of ids has at most one least element. */
  lemma LeastUnique(s: set<Id>)
    ensures forall a: Id, b: Id :: IsLeast(a, s) && IsLeast(b, s) ==> a == b
  {
    forall a: Id, b: Id | IsLeast(a, s) && IsLeast(b, s)
      ensures a == b
    {
      BelowTotal(a, b);
    }
  }

  /** The least of a set followed by the rest of it in order is in order. */
  lemma SortedCons(m: Id, rest: seq<Id>)
    requires StrictlySorted(rest) && forall x :: x in rest ==> x != m && !Below(x, m)
    ensures StrictlySorted([m] + rest)
  {
    var r := [m] + rest;
    forall i, j | 0 <= i < j < |r|
      ensures Below(r[i], r[j])
    {
      if i == 0 {
        assert r[j] == rest[j - 1] && r[j] in rest;
        BelowTotal(m, r[j]);
      } else {
        assert r[i] == rest[i - 1] && r[j] == rest[j - 1];
      }
    }
  }
}
