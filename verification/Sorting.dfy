/** A stable sort, the one `sorted` promises: `before(a, b)` says a may stand ahead of b. */
module Sorting {

  ghost predicate Preorder<T(!new)>(before: (T, T) -> bool)
  {
    && (forall a, b :: before(a, b) || before(b, a))
    && (forall a, b, c :: before(a, b) && before(b, c) ==> before(a, c))
  }

  ghost predicate SortedBy<T>(s: seq<T>, before: (T, T) -> bool)
  {
    forall i, j :: 0 <= i < j < |s| ==> before(s[i], s[j])
  }

  function Insert<T>(x: T, s: seq<T>, before: (T, T) -> bool): (t: seq<T>)
    ensures multiset(t) == multiset{x} + multiset(s)
  {
    if s == [] || before(x, s[0]) then [x] + s
    else
      assert s == [s[0]] + s[1..];
      [s[0]] + Insert(x, s[1..], before)
  }

  function Sorted<T>(s: seq<T>, before: (T, T) -> bool): (t: seq<T>)
    ensures multiset(t) == multiset(s)
  {
    if s == [] then []
    else
      assert s == [s[0]] + s[1..];
      Insert(s[0], Sorted(s[1..], before), before)
  }

  lemma {:induction false} InsertSorted<T(!new)>(x: T, s: seq<T>, before: (T, T) -> bool)
    requires Preorder(before) && SortedBy(s, before)
    ensures SortedBy(Insert(x, s, before), before)
  {
    if s == [] {
    } else if before(x, s[0]) {
      var t := [x] + s;
      forall i, j | 0 <= i < j < |t| ensures before(t[i], t[j]) {
        if i == 0 && j > 1 { assert before(s[0], s[j - 1]); }
      }
    } else {
      var u := Insert(x, s[1..], before);
      InsertSorted(x, s[1..], before);
      forall k | 0 <= k < |u| ensures before(s[0], u[k]) {
        assert u[k] in multiset(u);
        if u[k] != x {
          assert u[k] in s[1..];
        }
      }
    }
  }

  lemma {:induction false} SortedIsSorted<T(!new)>(s: seq<T>, before: (T, T) -> bool)
    requires Preorder(before)
    ensures SortedBy(Sorted(s, before), before)
  {
    if s != [] {
      SortedIsSorted(s[1..], before);
      InsertSorted(s[0], Sorted(s[1..], before), before);
    }
  }

  lemma SameElements<T>(s: seq<T>, t: seq<T>)
    requires multiset(s) == multiset(t)
    ensures |s| == |t| && forall x :: x in s <==> x in t
  {
    assert |s| == |multiset(s)| && |t| == |multiset(t)|;
    forall x ensures x in s <==> x in t {
      assert (x in s <==> x in multiset(s)) && (x in t <==> x in multiset(t));
    }
  }
}
