/**
 Python's stable `sorted`, as an insertion sort over an order given as a function, and the two facts
 the reports rest on: the result is a sorted permutation, and there is only one when the order tells
 the elements apart.
 */
module Sorting {

  ghost predicate TotalPreorder<T(!new)>(leq: (T, T) -> bool) {
    && (forall x, y :: leq(x, y) || leq(y, x))
    && (forall x, y, z :: leq(x, y) && leq(y, z) ==> leq(x, z))
  }

  ghost predicate Sorted<T>(leq: (T, T) -> bool, s: seq<T>) {
    forall i, j :: 0 <= i < j < |s| ==> leq(s[i], s[j])
  }

  /** The order tells the elements of `s` apart. */
  ghost predicate Discriminates<T>(leq: (T, T) -> bool, s: seq<T>) {
    forall x, y :: x in s && y in s && leq(x, y) && leq(y, x) ==> x == y
  }

  function Insert<T>(leq: (T, T) -> bool, x: T, s: seq<T>): seq<T> {
    if s == [] || leq(x, s[0]) then [x] + s else [s[0]] + Insert(leq, x, s[1..])
  }

  function Sort<T>(leq: (T, T) -> bool, s: seq<T>): seq<T> {
    if s == [] then [] else Insert(leq, s[0], Sort(leq, s[1..]))
  }

  lemma {:induction false} InsertPermutes<T>(leq: (T, T) -> bool, x: T, s: seq<T>)
    ensures multiset(Insert(leq, x, s)) == multiset{x} + multiset(s)
    ensures |Insert(leq, x, s)| == |s| + 1
  {
    if s != [] {
      InsertPermutes(leq, x, s[1..]);
      assert s == [s[0]] + s[1..];
    }
  }

  lemma {:induction false} InsertSorts<T(!new)>(leq: (T, T) -> bool, x: T, s: seq<T>)
    requires TotalPreorder(leq) && Sorted(leq, s)
    ensures Sorted(leq, Insert(leq, x, s))
  {
    if s != [] && !leq(x, s[0]) {
      var rest := Insert(leq, x, s[1..]);
      InsertSorts(leq, x, s[1..]);
      InsertPermutes(leq, x, s[1..]);
      forall y | y in rest
        ensures leq(s[0], y)
      {
        assert y in multiset(rest);
        if y != x {
          assert y in s[1..];
        }
      }
    }
  }

  lemma {:induction false} SortPermutes<T>(leq: (T, T) -> bool, s: seq<T>)
    ensures multiset(Sort(leq, s)) == multiset(s)
    ensures |Sort(leq, s)| == |s|
    ensures forall x :: x in Sort(leq, s) <==> x in s
  {
    if s != [] {
      SortPermutes(leq, s[1..]);
      InsertPermutes(leq, s[0], Sort(leq, s[1..]));
      assert s == [s[0]] + s[1..];
    }
    assert forall x :: x in Sort(leq, s) <==> x in multiset(Sort(leq, s));
  }

  lemma {:induction false} SortSorts<T(!new)>(leq: (T, T) -> bool, s: seq<T>)
    requires TotalPreorder(leq)
    ensures Sorted(leq, Sort(leq, s))
  {
    if s != [] {
      SortSorts(leq, s[1..]);
      InsertSorts(leq, s[0], Sort(leq, s[1..]));
    }
  }

  lemma SmallestUnique<T>(leq: (T, T) -> bool, a: seq<T>, b: seq<T>)
    requires Sorted(leq, a) && Sorted(leq, b) && multiset(a) == multiset(b)
    requires Discriminates(leq, a) && a != [] && b != []
    ensures a[0] == b[0]
  {
    assert a[0] in multiset(b) && b[0] in multiset(a);
    var i :| 0 <= i < |b| && b[i] == a[0];
    var j :| 0 <= j < |a| && a[j] == b[0];
    assert i == 0 || leq(b[0], b[i]);
    assert j == 0 || leq(a[0], a[j]);
  }

  lemma TailMultiset<T>(s: seq<T>)
    requires s != []
    ensures multiset(s[1..]) == multiset(s) - multiset{s[0]}
  {
    assert s == [s[0]] + s[1..];
  }

  /** Two sorted arrangements of the same elements agree. */
  lemma {:induction false} SortedUnique<T>(leq: (T, T) -> bool, a: seq<T>, b: seq<T>)
    requires Sorted(leq, a) && Sorted(leq, b) && multiset(a) == multiset(b)
    requires Discriminates(leq, a)
    ensures a == b
  {
    assert |a| == |multiset(a)| == |multiset(b)| == |b|;
    if a != [] {
      SmallestUnique(leq, a, b);
      TailMultiset(a);
      TailMultiset(b);
      DiscriminatesTail(leq, a);
      SortedUnique(leq, a[1..], b[1..]);
      assert a == [a[0]] + a[1..] && b == [b[0]] + b[1..];
    }
  }

  lemma DiscriminatesTail<T>(leq: (T, T) -> bool, s: seq<T>)
    requires Discriminates(leq, s) && s != []
    ensures Discriminates(leq, s[1..])
  {
    assert forall x :: x in s[1..] ==> x in s;
  }

  /** Sorting forgets the order of its input. */
  lemma SortOrderFree<T(!new)>(leq: (T, T) -> bool, a: seq<T>, b: seq<T>)
    requires TotalPreorder(leq) && multiset(a) == multiset(b) && Discriminates(leq, a)
    ensures Sort(leq, a) == Sort(leq, b)
  {
    SortPermutes(leq, a);
    SortPermutes(leq, b);
    SortSorts(leq, a);
    SortSorts(leq, b);
    SortedUnique(leq, Sort(leq, a), Sort(leq, b));
  }
}
