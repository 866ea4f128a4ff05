/** Stands for `Array.prototype.sort` with a numeric comparator. Only the order of the result
    and that it is a rearrangement are stated, so nothing depends on how ties are resolved. */
module Sorting {

  predicate OrderedBy<T>(s: seq<T>, key: T --> int)
    requires forall x | x in s :: key.requires(x)
  {
    forall i, j | 0 <= i < j < |s| :: key(s[i]) <= key(s[j])
  }

  function InsertBy<T>(x: T, s: seq<T>, key: T --> int): (r: seq<T>)
    requires key.requires(x) && forall y | y in s :: key.requires(y)
    ensures x in r && (forall y | y in s :: y in r) && (forall y | y in r :: y == x || y in s)
  {
    if s == [] then [x]
    else if key(x) <= key(s[0]) then [x] + s
    else [s[0]] + InsertBy(x, s[1..], key)
  }

  function SortBy<T>(s: seq<T>, key: T --> int): (r: seq<T>)
    requires forall x | x in s :: key.requires(x)
    ensures (forall y | y in s :: y in r) && (forall y | y in r :: y in s)
  {
    if s == [] then [] else InsertBy(s[0], SortBy(s[1..], key), key)
  }

  lemma {:induction false} InsertOrdered<T>(x: T, s: seq<T>, key: T --> int)
    requires key.requires(x) && forall y | y in s :: key.requires(y)
    requires OrderedBy(s, key)
    ensures OrderedBy(InsertBy(x, s, key), key)
  {
    if s != [] && key(x) > key(s[0]) {
      InsertOrdered(x, s[1..], key);
      var r := InsertBy(x, s[1..], key);
      forall j | 0 <= j < |r|
        ensures key(s[0]) <= key(r[j])
      {
        assert r[j] in r;
        if r[j] != x {
          var k :| 0 <= k < |s[1..]| && s[1..][k] == r[j];
          assert s[k + 1] == r[j];
        }
      }
    }
  }

  lemma {:induction false} InsertRearranges<T>(x: T, s: seq<T>, key: T --> int)
    requires key.requires(x) && forall y | y in s :: key.requires(y)
    ensures multiset(InsertBy(x, s, key)) == multiset{x} + multiset(s)
  {
    if s != [] && key(x) > key(s[0]) {
      InsertRearranges(x, s[1..], key);
      assert s == [s[0]] + s[1..];
    }
  }

  /** The contract of sorting. */
  lemma {:induction false} Sorted<T>(s: seq<T>, key: T --> int)
    requires forall x | x in s :: key.requires(x)
    ensures OrderedBy(SortBy(s, key), key)
    ensures multiset(SortBy(s, key)) == multiset(s)
  {
    if s != [] {
      var rest := SortBy(s[1..], key);
      Sorted(s[1..], key);
      InsertOrdered(s[0], rest, key);
      InsertRearranges(s[0], rest, key);
      assert s == [s[0]] + s[1..];
    }
  }

  predicate Distinct<T(==)>(s: seq<T>) {
    forall i, j | 0 <= i < j < |s| :: s[i] != s[j]
  }

  lemma {:induction false} DistinctCount<T>(s: seq<T>, x: T)
    requires Distinct(s)
    ensures multiset(s)[x] <= 1
  {
    if s != [] {
      assert s == [s[0]] + s[1..];
      DistinctCount(s[1..], x);
      assert s[0] !in s[1..];
    }
  }

  /** A rearrangement keeps the members, the length and their distinctness. */
  lemma Rearranged<T>(s: seq<T>, t: seq<T>)
    requires multiset(s) == multiset(t)
    ensures |s| == |t|
    ensures forall x :: x in s <==> x in t
    ensures Distinct(s) <==> Distinct(t)
  {
    assert |multiset(s)| == |s| && |multiset(t)| == |t|;
    forall x
      ensures x in s <==> x in t
    {
      assert x in s <==> x in multiset(s);
    }
    if Distinct(s) {
      DistinctKept(s, t);
    }
    if Distinct(t) {
      DistinctKept(t, s);
    }
  }

  lemma DistinctKept<T>(s: seq<T>, t: seq<T>)
    requires multiset(s) == multiset(t) && Distinct(s)
    ensures Distinct(t)
  {
    forall i, j | 0 <= i < j < |t|
      ensures t[i] != t[j]
    {
      DistinctCount(s, t[i]);
      assert t == t[..j] + [t[j]] + t[j + 1..];
      assert t[i] in t[..j];
    }
  }
}
