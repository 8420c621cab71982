/** An insertion sort driven by a JavaScript-style comparator (negative:
    first argument first; positive: second argument first), as
    `Array.prototype.sort(cmp)` and a query's `.sort(...)` use it. Each
    element goes in front of the first element it does not compare above. */
module Sorting {

  function Insert<T>(x: T, s: seq<T>, cmp: (T, T) -> int): (r: seq<T>)
    ensures multiset(r) == multiset(s) + multiset{x}
  {
    if s == [] || cmp(x, s[0]) <= 0 then [x] + s
    else
      assert s == [s[0]] + s[1..];
      [s[0]] + Insert(x, s[1..], cmp)
  }

  /** The sorted copy; whatever the comparator, it is a permutation of the input. */
  function SortBy<T>(s: seq<T>, cmp: (T, T) -> int): (r: seq<T>)
    ensures multiset(r) == multiset(s)
  {
    if s == [] then []
    else
      assert s == [s[0]] + s[1..];
      Insert(s[0], SortBy(s[1..], cmp), cmp)
  }

  ghost predicate Sorted<T>(s: seq<T>, cmp: (T, T) -> int) {
    forall i, j :: 0 <= i < j < |s| ==> cmp(s[i], s[j]) <= 0
  }

  /** `cmp` orders the values in `xs` as a total preorder: any two compare one
      way or the other, and "not above" is transitive. */
  ghost predicate TotalPreorderOn<T(!new)>(xs: set<T>, cmp: (T, T) -> int) {
    && (forall a, b :: a in xs && b in xs ==> cmp(a, b) <= 0 || cmp(b, a) <= 0)
    && (forall a, b, c :: a in xs && b in xs && c in xs && cmp(a, b) <= 0 && cmp(b, c) <= 0
          ==> cmp(a, c) <= 0)
  }

  lemma Transitive<T(!new)>(xs: set<T>, cmp: (T, T) -> int, a: T, b: T, c: T)
    requires TotalPreorderOn(xs, cmp)
    requires a in xs && b in xs && c in xs && cmp(a, b) <= 0 && cmp(b, c) <= 0
    ensures cmp(a, c) <= 0
  {}

  lemma InsertElements<T>(x: T, s: seq<T>, cmp: (T, T) -> int, j: int)
    requires 0 <= j < |Insert(x, s, cmp)|
    ensures Insert(x, s, cmp)[j] == x || Insert(x, s, cmp)[j] in s
  {
    var r := Insert(x, s, cmp);
    assert r[j] in multiset(r);
  }

  /** Putting x in front of a sorted sequence whose head x does not exceed
      keeps it sorted. */
  lemma PrependSorted<T(!new)>(x: T, s: seq<T>, cmp: (T, T) -> int, xs: set<T>)
    requires TotalPreorderOn(xs, cmp)
    requires x in xs && forall k :: 0 <= k < |s| ==> s[k] in xs
    requires Sorted(s, cmp)
    requires s == [] || cmp(x, s[0]) <= 0
    ensures Sorted([x] + s, cmp)
  {
    var r := [x] + s;
    forall j | 0 < j < |r| ensures cmp(x, r[j]) <= 0 {
      assert r[j] == s[j - 1];
      if j > 1 {
        Transitive(xs, cmp, x, s[0], s[j - 1]);
      }
    }
    forall i, j | 0 <= i < j < |r| ensures cmp(r[i], r[j]) <= 0 {
      if i > 0 {
        assert r[i] == s[i - 1] && r[j] == s[j - 1];
      }
    }
  }

  lemma {:induction false} InsertSorted<T(!new)>(x: T, s: seq<T>, cmp: (T, T) -> int, xs: set<T>)
    requires TotalPreorderOn(xs, cmp)
    requires x in xs && forall k :: 0 <= k < |s| ==> s[k] in xs
    requires Sorted(s, cmp)
    ensures Sorted(Insert(x, s, cmp), cmp)
  {
    if s == [] || cmp(x, s[0]) <= 0 {
      PrependSorted(x, s, cmp, xs);
    } else {
      var t := Insert(x, s[1..], cmp);
      InsertSorted(x, s[1..], cmp, xs);
      assert cmp(s[0], x) <= 0;
      forall j | 0 <= j < |t| ensures t[j] in xs && cmp(s[0], t[j]) <= 0 {
        InsertElements(x, s[1..], cmp, j);
        if t[j] != x {
          var m :| 0 <= m < |s[1..]| && s[1..][m] == t[j];
          assert s[m + 1] == t[j];
        }
      }
      PrependSorted(s[0], t, cmp, xs);
    }
  }

  /** When the comparator is a total preorder on the elements, the result is
      sorted: every element compares not above every later one. */
  lemma {:induction false} SortBySorted<T(!new)>(s: seq<T>, cmp: (T, T) -> int, xs: set<T>)
    requires TotalPreorderOn(xs, cmp)
    requires forall k :: 0 <= k < |s| ==> s[k] in xs
    ensures Sorted(SortBy(s, cmp), cmp)
  {
    if s != [] {
      SortBySorted(s[1..], cmp, xs);
      var t := SortBy(s[1..], cmp);
      forall k | 0 <= k < |t| ensures t[k] in xs {
        assert t[k] in multiset(s[1..]);
        var m :| 0 <= m < |s[1..]| && s[1..][m] == t[k];
        assert s[m + 1] == t[k];
      }
      InsertSorted(s[0], t, cmp, xs);
    }
  }
}
