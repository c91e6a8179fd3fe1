/**
  Sorting by a total order. The program sorts with Go's sort.Slice, sort.Strings and
  sort.Ints; which sorting algorithm those run does not matter, because under a total
  order the sorted permutation of a list is unique (`SortedPermutationIsUnique`).
  `Sort` is that permutation.
 */
module Sorting {

  ghost predicate TotalOrder<T(!new)>(leq: (T, T) -> bool) {
    && (forall a, b :: leq(a, b) || leq(b, a))
    && (forall a, b :: leq(a, b) && leq(b, a) ==> a == b)
    && (forall a, b, c :: leq(a, b) && leq(b, c) ==> leq(a, c))
  }

  ghost predicate Sorted<T>(leq: (T, T) -> bool, s: seq<T>) {
    forall i, j :: 0 <= i < j < |s| ==> leq(s[i], s[j])
  }

  function Insert<T>(leq: (T, T) -> bool, x: T, s: seq<T>): seq<T> {
    if s == [] || leq(x, s[0]) then [x] + s else [s[0]] + Insert(leq, x, s[1..])
  }

  function Sort<T>(leq: (T, T) -> bool, s: seq<T>): seq<T> {
    if s == [] then [] else Insert(leq, s[0], Sort(leq, s[1..]))
  }

  lemma {:induction false} InsertMultiset<T>(leq: (T, T) -> bool, x: T, s: seq<T>)
    ensures multiset(Insert(leq, x, s)) == multiset{x} + multiset(s)
  {
    if s == [] || leq(x, s[0]) {
    } else {
      InsertMultiset(leq, x, s[1..]);
      assert s == [s[0]] + s[1..];
    }
  }

  lemma {:induction false} InsertSorted<T(!new)>(leq: (T, T) -> bool, x: T, s: seq<T>)
    requires TotalOrder(leq) && Sorted(leq, s)
    ensures Sorted(leq, Insert(leq, x, s))
  {
    if s == [] || leq(x, s[0]) {
    } else {
      InsertSorted(leq, x, s[1..]);
      var r := Insert(leq, x, s[1..]);
      InsertMultiset(leq, x, s[1..]);
      forall k | 0 <= k < |r| ensures leq(s[0], r[k]) {
        assert r[k] in multiset(r);
        assert r[k] == x || r[k] in s[1..];
      }
    }
  }

  /** `Sort` is a sorted permutation. */
  lemma {:induction false} SortIsSortedPermutation<T(!new)>(leq: (T, T) -> bool, s: seq<T>)
    requires TotalOrder(leq)
    ensures Sorted(leq, Sort(leq, s))
    ensures multiset(Sort(leq, s)) == multiset(s)
    ensures |Sort(leq, s)| == |s|
  {
    if s == [] {
    } else {
      SortIsSortedPermutation(leq, s[1..]);
      InsertSorted(leq, s[0], Sort(leq, s[1..]));
      InsertMultiset(leq, s[0], Sort(leq, s[1..]));
      assert s == [s[0]] + s[1..];
    }
    assert |multiset(Sort(leq, s))| == |Sort(leq, s)|;
  }

  lemma LeastComesFirst<T(!new)>(leq: (T, T) -> bool, s: seq<T>, x: T)
    requires TotalOrder(leq) && Sorted(leq, s) && x in s
    ensures leq(s[0], x)
  {
    var k :| 0 <= k < |s| && s[k] == x;
    assert leq(s[0], s[0]);
  }

  lemma TailMultiset<T>(s: seq<T>)
    requires s != []
    ensures multiset(s[1..]) == multiset(s) - multiset{s[0]}
  {
    assert s == [s[0]] + s[1..];
  }

  /** Two sorted lists with the same elements are the same list. */
  lemma {:induction false} SortedPermutationIsUnique<T(!new)>(leq: (T, T) -> bool, s: seq<T>, t: seq<T>)
    requires TotalOrder(leq)
    requires Sorted(leq, s) && Sorted(leq, t) && multiset(s) == multiset(t)
    ensures s == t
  {
    assert |s| == |multiset(s)| == |multiset(t)| == |t|;
    if s != [] {
      hide TotalOrder;
      assert s[0] in multiset(t) && t[0] in multiset(s);
      LeastComesFirst(leq, s, t[0]);
      LeastComesFirst(leq, t, s[0]);
      FirstAgree(leq, s[0], t[0]);
      TailMultiset(s);
      TailMultiset(t);
      SortedPermutationIsUnique(leq, s[1..], t[1..]);
      assert s == [s[0]] + s[1..] && t == [t[0]] + t[1..];
    }
  }

  lemma FirstAgree<T(!new)>(leq: (T, T) -> bool, a: T, b: T)
    requires TotalOrder(leq) && leq(a, b) && leq(b, a)
    ensures a == b
  {
  }

  /** Sorting forgets the order of its input and nothing else. */
  lemma SortEqualIffPermutation<T(!new)>(leq: (T, T) -> bool, s: seq<T>, t: seq<T>)
    requires TotalOrder(leq)
    ensures Sort(leq, s) == Sort(leq, t) <==> multiset(s) == multiset(t)
  {
    SortIsSortedPermutation(leq, s);
    SortIsSortedPermutation(leq, t);
    if multiset(s) == multiset(t) {
      SortedPermutationIsUnique(leq, Sort(leq, s), Sort(leq, t));
    }
  }
}
