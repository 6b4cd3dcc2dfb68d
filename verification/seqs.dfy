/** Generic facts about sequences used by the grouping and aggregation stages. */
module Seqs {

  /** No value occurs twice. */
  predicate NoDuplicates<T(==)>(s: seq<T>) {
    forall i, j :: 0 <= i < j < |s| ==> s[i] != s[j]
  }

  /** The distinct values of `s` in order of first occurrence: the behaviour of
      appending a value to a Python list only `if value not in list`. */
  function Distinct<T(==,!new)>(s: seq<T>): (d: seq<T>)
    ensures NoDuplicates(d)
    ensures forall x :: x in d <==> x in s
    ensures |d| <= |s|
    decreases |s|
  {
    if |s| == 0 then []
    else
      var p := Distinct(s[..|s| - 1]);
      var x := s[|s| - 1];
      assert forall y :: y in s <==> y in s[..|s| - 1] || y == x by {
        assert s == s[..|s| - 1] + [x];
      }
      if x in p then p else p + [x]
  }

  /** The integers 0, 1, ..., n - 1 in ascending order. */
  function Range(n: nat): (r: seq<nat>)
    ensures |r| == n
    ensures forall i :: 0 <= i < n ==> r[i] == i
  {
    if n == 0 then [] else Range(n - 1) + [n - 1]
  }

  /** Appending a value already present leaves the distinct values unchanged;
      a new one goes at the end. */
  lemma DistinctSnoc<T(!new)>(s: seq<T>, x: T)
    ensures Distinct(s + [x]) == if x in s then Distinct(s) else Distinct(s) + [x]
  {
    assert (s + [x])[..|s|] == s;
  }

  /** The position of the first occurrence of `x` in `s`. */
  function FirstIndex<T(==)>(s: seq<T>, x: T): (r: nat)
    requires x in s
    ensures r < |s| && s[r] == x
    ensures forall k :: 0 <= k < r ==> s[k] != x
  {
    if s[0] == x then 0 else 1 + FirstIndex(s[1..], x)
  }

  /** Appending a value does not move the first occurrence of a value already present. */
  lemma FirstIndexSnoc<T>(t: seq<T>, x: T, y: T)
    requires y in t
    ensures y in t + [x] && FirstIndex(t + [x], y) == FirstIndex(t, y)
  {
    var a, b := FirstIndex(t + [x], y), FirstIndex(t, y);
    assert (t + [x])[b] == y;
    assert a <= b;
    assert t[a] == (t + [x])[a];
  }

  /** The distinct values keep the order of their first occurrences in `s`. */
  lemma {:induction false} DistinctKeepsFirstOccurrenceOrder<T(!new)>(s: seq<T>)
    ensures forall i, j :: 0 <= i < j < |Distinct(s)| ==>
      FirstIndex(s, Distinct(s)[i]) < FirstIndex(s, Distinct(s)[j])
    decreases |s|
  {
    if |s| > 0 {
      var t, x := s[..|s| - 1], s[|s| - 1];
      assert s == t + [x];
      DistinctSnoc(t, x);
      DistinctKeepsFirstOccurrenceOrder(t);
      var d, p := Distinct(s), Distinct(t);
      forall i, j | 0 <= i < j < |d|
        ensures FirstIndex(s, d[i]) < FirstIndex(s, d[j])
      {
        FirstIndexSnoc(t, x, d[i]);
        if j < |p| {
          FirstIndexSnoc(t, x, d[j]);
        } else {
          assert d[j] == x && x !in t;
          assert FirstIndex(s, d[j]) == |t|;
        }
      }
    }
  }

  /** No duplicates means every value has multiplicity at most one, so the
      property survives any permutation. */
  lemma {:induction false} NoDuplicatesMultiset<T>(s: seq<T>)
    ensures NoDuplicates(s) <==> forall x :: multiset(s)[x] <= 1
    decreases |s|
  {
    if |s| > 0 {
      var t := s[..|s| - 1];
      var y := s[|s| - 1];
      assert s == t + [y];
      NoDuplicatesMultiset(t);
      if NoDuplicates(s) {
        assert forall i :: 0 <= i < |t| ==> t[i] == s[i] != s[|s| - 1];
      }
      if forall x :: multiset(s)[x] <= 1 {
        assert forall x :: multiset(t)[x] <= 1 by {
          forall x ensures multiset(t)[x] <= 1 {
            assert multiset(s)[x] == multiset(t)[x] + (if x == y then 1 else 0);
          }
        }
        assert multiset(s)[y] == multiset(t)[y] + 1;
        assert y !in t;
        forall i, j | 0 <= i < j < |s| ensures s[i] != s[j] {
          if j == |s| - 1 {
            assert s[i] in t by { assert s[i] == t[i]; }
          } else {
            assert s[i] == t[i] && s[j] == t[j];
          }
        }
      }
    }
  }

  lemma NoDuplicatesPermutation<T>(a: seq<T>, b: seq<T>)
    requires multiset(a) == multiset(b) && NoDuplicates(a)
    ensures NoDuplicates(b)
  {
    NoDuplicatesMultiset(a);
    NoDuplicatesMultiset(b);
  }
}
