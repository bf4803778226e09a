/**
 Stability of the sort, and what it decides: two arrangements of the same elements are sorted alike
 exactly when they agree within each class of ties.
 */
module StableSort {
  import opened Bags
  import opened Sorting

  predicate Tied<T>(leq: (T, T) -> bool, x: T, y: T) {
    leq(x, y) && leq(y, x)
  }

  function IfTied<T>(leq: (T, T) -> bool, x: T): T -> seq<T> {
    y => if Tied(leq, x, y) then [y] else []
  }

  /** The elements tied with `x`, in the order of `s`. */
  function TiedWith<T>(leq: (T, T) -> bool, x: T, s: seq<T>): seq<T> {
    FlatMap(IfTied(leq, x), s)
  }

  lemma TiedSplit<T>(leq: (T, T) -> bool, x: T, a: seq<T>, b: seq<T>)
    ensures TiedWith(leq, x, a + b) == TiedWith(leq, x, a) + TiedWith(leq, x, b)
  {
    FlatMapConcat(IfTied(leq, x), a, b);
  }

  lemma TiedHead<T>(leq: (T, T) -> bool, x: T, s: seq<T>)
    requires s != []
    ensures TiedWith(leq, x, s) == (if Tied(leq, x, s[0]) then [s[0]] else []) + TiedWith(leq, x, s[1..])
  {
    assert s == [s[0]] + s[1..];
    TiedSplit(leq, x, [s[0]], s[1..]);
    FlatMapOne(IfTied(leq, x), s[0]);
  }

  lemma TiedTransitive<T(!new)>(leq: (T, T) -> bool, x: T, y: T, z: T)
    requires TotalPreorder(leq)
    ensures Tied(leq, x, y) && Tied(leq, x, z) ==> leq(y, z)
  {
  }

  lemma {:induction false} InsertTied<T(!new)>(leq: (T, T) -> bool, x: T, y: T, s: seq<T>)
    requires TotalPreorder(leq)
    ensures TiedWith(leq, x, Insert(leq, y, s)) == (if Tied(leq, x, y) then [y] else []) + TiedWith(leq, x, s)
  {
    TiedHead(leq, x, Insert(leq, y, s));
    if s == [] || leq(y, s[0]) {
      assert ([y] + s)[1..] == s;
    } else {
      InsertTied(leq, x, y, s[1..]);
      TiedHead(leq, x, s);
      TiedTransitive(leq, x, y, s[0]);
    }
  }

  /** Sorting keeps tied elements in order. */
  lemma {:induction false} SortStable<T(!new)>(leq: (T, T) -> bool, x: T, s: seq<T>)
    requires TotalPreorder(leq)
    ensures TiedWith(leq, x, Sort(leq, s)) == TiedWith(leq, x, s)
  {
    if s != [] {
      SortStable(leq, x, s[1..]);
      InsertTied(leq, x, s[0], Sort(leq, s[1..]));
      TiedHead(leq, x, s);
    }
  }

  lemma SmallestTied<T(!new)>(leq: (T, T) -> bool, a: seq<T>, b: seq<T>)
    requires TotalPreorder(leq) && Sorted(leq, a) && Sorted(leq, b) && multiset(a) == multiset(b) && a != [] && b != []
    requires TiesAlike(leq, a, b)
    ensures a[0] == b[0]
  {
    assert a[0] in multiset(b) && b[0] in multiset(a);
    var i :| 0 <= i < |b| && b[i] == a[0];
    var j :| 0 <= j < |a| && a[j] == b[0];
    assert leq(a[0], a[0]) && leq(b[0], b[0]);
    assert leq(b[0], b[i]) by {
      assert i == 0 || leq(b[0], b[i]);
    }
    assert leq(a[0], a[j]) by {
      assert j == 0 || leq(a[0], a[j]);
    }
    TiedHead(leq, a[0], a);
    TiedHead(leq, a[0], b);
    assert TiedWith(leq, a[0], a) == TiedWith(leq, a[0], b);
    assert TiedWith(leq, a[0], a)[0] == a[0] && TiedWith(leq, a[0], b)[0] == b[0];
  }

  ghost predicate TiesAlike<T(!new)>(leq: (T, T) -> bool, a: seq<T>, b: seq<T>) {
    forall x :: TiedWith(leq, x, a) == TiedWith(leq, x, b)
  }

  lemma Cancel<T>(front: seq<T>, a: seq<T>, b: seq<T>)
    requires front + a == front + b
    ensures a == b
  {
    assert a == (front + a)[|front|..] && b == (front + b)[|front|..];
  }

  lemma TailsAlike<T(!new)>(leq: (T, T) -> bool, a: seq<T>, b: seq<T>)
    requires TiesAlike(leq, a, b) && a != [] && b != [] && a[0] == b[0]
    ensures TiesAlike(leq, a[1..], b[1..])
  {
    forall x
      ensures TiedWith(leq, x, a[1..]) == TiedWith(leq, x, b[1..])
    {
      TiedHead(leq, x, a);
      TiedHead(leq, x, b);
      assert TiedWith(leq, x, a) == TiedWith(leq, x, b);
      Cancel(if Tied(leq, x, a[0]) then [a[0]] else [], TiedWith(leq, x, a[1..]), TiedWith(leq, x, b[1..]));
    }
  }

  lemma SortedTail<T>(leq: (T, T) -> bool, s: seq<T>)
    requires Sorted(leq, s) && s != []
    ensures Sorted(leq, s[1..])
  {
  }

  /** A sorted list is determined by its elements and their order within ties. */
  lemma {:induction false} SortedByTies<T(!new)>(leq: (T, T) -> bool, a: seq<T>, b: seq<T>)
    requires TotalPreorder(leq) && Sorted(leq, a) && Sorted(leq, b) && multiset(a) == multiset(b)
    requires TiesAlike(leq, a, b)
    ensures a == b
  {
    assert |a| == |multiset(a)| == |multiset(b)| == |b|;
    if a != [] {
      HeadsAndTails(leq, a, b);
      SortedByTies(leq, a[1..], b[1..]);
      assert a == [a[0]] + a[1..];
      assert b == [b[0]] + b[1..];
    }
  }

  lemma HeadsAndTails<T(!new)>(leq: (T, T) -> bool, a: seq<T>, b: seq<T>)
    requires TotalPreorder(leq) && Sorted(leq, a) && Sorted(leq, b) && multiset(a) == multiset(b)
    requires TiesAlike(leq, a, b) && a != [] && b != []
    ensures a[0] == b[0] && multiset(a[1..]) == multiset(b[1..]) && TiesAlike(leq, a[1..], b[1..])
    ensures Sorted(leq, a[1..]) && Sorted(leq, b[1..])
  {
    SmallestTied(leq, a, b);
    TailMultiset(a);
    TailMultiset(b);
    TailsAlike(leq, a, b);
    SortedTail(leq, a);
    SortedTail(leq, b);
  }

  /** Two arrangements are sorted alike iff they agree within every class of ties. */
  lemma SortedAlikeIff<T(!new)>(leq: (T, T) -> bool, a: seq<T>, b: seq<T>)
    requires TotalPreorder(leq) && multiset(a) == multiset(b)
    ensures Sort(leq, a) == Sort(leq, b) <==> TiesAlike(leq, a, b)
  {
    forall x
      ensures TiedWith(leq, x, Sort(leq, a)) == TiedWith(leq, x, a)
      ensures TiedWith(leq, x, Sort(leq, b)) == TiedWith(leq, x, b)
    {
      SortStable(leq, x, a);
      SortStable(leq, x, b);
    }
    if TiesAlike(leq, a, b) {
      SortPermutes(leq, a);
      SortPermutes(leq, b);
      SortSorts(leq, a);
      SortSorts(leq, b);
      SortedByTies(leq, Sort(leq, a), Sort(leq, b));
    }
  }
}
