/**
 Folds over a list that depend only on how often each element occurs: sums, and lists built element
 by element. They give the reports their independence from the order of the log rows.
 */
module Bags {

  ghost predicate NoDuplicates<T>(s: seq<T>) {
    forall i, j :: 0 <= i < j < |s| ==> s[i] != s[j]
  }

  lemma {:induction false} CountDistinct<T>(s: seq<T>, x: T)
    requires NoDuplicates(s)
    ensures multiset(s)[x] == if x in s then 1 else 0
  {
    if s != [] {
      var front, last := s[..|s| - 1], s[|s| - 1];
      assert s == front + [last] && last !in front;
      CountDistinct(front, x);
    }
  }

  /** Lists without duplicates are permutations of each other when they have the same members. */
  lemma SameMembersSameBag<T>(a: seq<T>, b: seq<T>)
    requires NoDuplicates(a) && NoDuplicates(b)
    requires forall x :: x in a <==> x in b
    ensures multiset(a) == multiset(b)
  {
    forall x
      ensures multiset(a)[x] == multiset(b)[x]
    {
      CountDistinct(a, x);
      CountDistinct(b, x);
    }
  }

  /** `s` without its element at `i`. */
  function Without<T>(s: seq<T>, i: nat): seq<T>
    requires i < |s|
  {
    s[..i] + s[i + 1..]
  }

  lemma WithoutBag<T>(s: seq<T>, i: nat)
    requires i < |s|
    ensures multiset(Without(s, i)) == multiset(s) - multiset{s[i]}
  {
    assert s == s[..i] + [s[i]] + s[i + 1..];
  }

  /** Pairs the first element of `a` with an equal one in `b`, and removes both. */
  lemma MatchHead<T>(a: seq<T>, b: seq<T>) returns (i: nat)
    requires multiset(a) == multiset(b) && a != []
    ensures i < |b| && b[i] == a[0]
    ensures multiset(a[1..]) == multiset(Without(b, i))
  {
    assert a[0] in multiset(b);
    i :| 0 <= i < |b| && b[i] == a[0];
    WithoutBag(b, i);
    assert a == [a[0]] + a[1..];
  }

  lemma AppendBag<T>(s: seq<T>, x: T)
    ensures multiset(s + [x]) == multiset(s) + multiset{x}
  {
  }

  lemma PutBack<T>(all: multiset<T>, x: T, y: T)
    requires x in all && y in all && x != y
    ensures all - multiset{x} - multiset{y} + multiset{x} + multiset{y} == all
    ensures all - multiset{x} - multiset{y} + multiset{y} + multiset{x} == all
  {
  }

  /** `s` with `x` and `y` moved to its end. */
  lemma MoveToEnd<T>(s: seq<T>, x: T, y: T) returns (front: seq<T>)
    requires x in s && y in s && x != y
    ensures multiset(front + [x] + [y]) == multiset(s) && multiset(front + [y] + [x]) == multiset(s)
  {
    front := WithoutTwo(s, x, y);
    AppendBag(front, x);
    AppendBag(front + [x], y);
    AppendBag(front, y);
    AppendBag(front + [y], x);
    PutBack(multiset(s), x, y);
  }

  lemma PrependBag<T>(x: T, s: seq<T>)
    ensures multiset([x] + s) == multiset(s) + multiset{x}
  {
  }

  /** `s` with `x` and `y` moved to its front. */
  lemma MoveToFront<T>(s: seq<T>, x: T, y: T) returns (back: seq<T>)
    requires x in s && y in s && x != y
    ensures multiset([x] + ([y] + back)) == multiset(s) && multiset([y] + ([x] + back)) == multiset(s)
  {
    back := WithoutTwo(s, x, y);
    PrependBag(y, back);
    PrependBag(x, [y] + back);
    PrependBag(x, back);
    PrependBag(y, [x] + back);
    PutBack(multiset(s), x, y);
  }

  lemma WithoutTwo<T>(s: seq<T>, x: T, y: T) returns (front: seq<T>)
    requires x in s && y in s && x != y
    ensures multiset(front) == multiset(s) - multiset{x} - multiset{y}
  {
    var i :| 0 <= i < |s| && s[i] == x;
    var rest := Without(s, i);
    WithoutBag(s, i);
    assert y in multiset(rest);
    var j :| 0 <= j < |rest| && rest[j] == y;
    front := Without(rest, j);
    WithoutBag(rest, j);
  }

  // ---------- sums ----------

  function SumOf<T>(f: T -> real, s: seq<T>): real {
    if s == [] then 0.0 else SumOf(f, s[..|s| - 1]) + f(s[|s| - 1])
  }

  lemma SumOfOne<T>(f: T -> real, x: T)
    ensures SumOf(f, [x]) == f(x)
  {
    assert SumOf(f, [x]) == SumOf(f, [x][..0]) + f(x);
  }

  lemma {:induction false} SumEqual<T>(f: T -> real, g: T -> real, s: seq<T>)
    requires forall x :: x in s ==> f(x) == g(x)
    ensures SumOf(f, s) == SumOf(g, s)
  {
    if s != [] {
      assert s[|s| - 1] in s;
      SumEqual(f, g, s[..|s| - 1]);
    }
  }

  lemma {:induction false} SumWithout<T>(f: T -> real, s: seq<T>, i: nat)
    requires i < |s|
    ensures SumOf(f, s) == SumOf(f, Without(s, i)) + f(s[i])
  {
    var front, last := s[..|s| - 1], s[|s| - 1];
    if i == |front| {
      assert Without(s, i) == front;
    } else {
      SumWithout(f, front, i);
      assert Without(s, i) == Without(front, i) + [last];
    }
  }

  lemma {:induction false} SumOrderFree<T>(f: T -> real, a: seq<T>, b: seq<T>)
    requires multiset(a) == multiset(b)
    ensures SumOf(f, a) == SumOf(f, b)
  {
    assert |a| == |multiset(a)| == |multiset(b)| == |b|;
    if a != [] {
      var i := MatchHead(a, b);
      SumOrderFree(f, a[1..], Without(b, i));
      SumWithout(f, b, i);
      SumWithout(f, a, 0);
      assert Without(a, 0) == a[1..];
    }
  }

  // ---------- selections ----------

  /** `kept` holds the elements of `s` at the positions `at`, in their order in `s`. */
  ghost predicate Selects<T>(at: seq<nat>, s: seq<T>, kept: seq<T>) {
    && |at| == |kept|
    && (forall j, k :: 0 <= j < k < |at| ==> at[j] < at[k])
    && forall k :: 0 <= k < |at| ==> IsAt(s, at[k], kept[k])
  }

  ghost predicate IsAt<T>(s: seq<T>, i: nat, x: T) {
    i < |s| && s[i] == x
  }

  lemma SelectsLonger<T>(at: seq<nat>, s: seq<T>, x: T, kept: seq<T>)
    requires Selects(at, s, kept)
    ensures Selects(at, s + [x], kept)
  {
    forall k | 0 <= k < |at|
      ensures IsAt(s + [x], at[k], kept[k])
    {
      assert IsAt(s, at[k], kept[k]);
    }
  }

  lemma SelectsNext<T>(at: seq<nat>, s: seq<T>, x: T, kept: seq<T>)
    requires Selects(at, s, kept)
    ensures Selects(at + [|s|], s + [x], kept + [x])
  {
    SelectsLonger(at, s, x, kept);
    var now := at + [|s|];
    forall k | 0 <= k < |now|
      ensures IsAt(s + [x], now[k], (kept + [x])[k]) && forall j :: 0 <= j < k ==> now[j] < now[k]
    {
      if k < |at| {
        assert IsAt(s + [x], at[k], kept[k]);
      } else {
        assert forall j :: 0 <= j < k ==> IsAt(s, at[j], kept[j]);
      }
    }
  }

  // ---------- totals and maxima of integers ----------

  function TotalOf<T>(f: T -> int, s: seq<T>): int {
    if s == [] then 0 else TotalOf(f, s[..|s| - 1]) + f(s[|s| - 1])
  }

  /** The largest value, and 0 if none is positive. */
  function GreatestOf<T>(f: T -> int, s: seq<T>): int {
    if s == [] then 0
    else
      var before, value := GreatestOf(f, s[..|s| - 1]), f(s[|s| - 1]);
      if before < value then value else before
  }

  lemma {:induction false} TotalWithout<T>(f: T -> int, s: seq<T>, i: nat)
    requires i < |s|
    ensures TotalOf(f, s) == TotalOf(f, Without(s, i)) + f(s[i])
  {
    var front, last := s[..|s| - 1], s[|s| - 1];
    if i == |front| {
      assert Without(s, i) == front;
    } else {
      TotalWithout(f, front, i);
      assert Without(s, i) == Without(front, i) + [last];
    }
  }

  lemma TotalOfOne<T>(f: T -> int, x: T)
    ensures TotalOf(f, [x]) == f(x)
  {
    assert TotalOf(f, [x]) == TotalOf(f, [x][..0]) + f(x);
  }

  lemma {:induction false} TotalOrderFree<T>(f: T -> int, a: seq<T>, b: seq<T>)
    requires multiset(a) == multiset(b)
    ensures TotalOf(f, a) == TotalOf(f, b)
  {
    assert |a| == |multiset(a)| == |multiset(b)| == |b|;
    if a != [] {
      var i := MatchHead(a, b);
      TotalOrderFree(f, a[1..], Without(b, i));
      TotalWithout(f, b, i);
      TotalWithout(f, a, 0);
      assert Without(a, 0) == a[1..];
    }
  }

  lemma {:induction false} TotalConcat<T>(f: T -> int, a: seq<T>, b: seq<T>)
    ensures TotalOf(f, a + b) == TotalOf(f, a) + TotalOf(f, b)
  {
    if b == [] {
      assert a + b == a;
    } else {
      TotalConcat(f, a, b[..|b| - 1]);
      assert (a + b)[..|a + b| - 1] == a + b[..|b| - 1];
    }
  }

  /** Changing the summand of one element of a list without duplicates. */
  lemma {:induction false} TotalUpdate<T>(f: T -> int, g: T -> int, s: seq<T>, x: T)
    requires NoDuplicates(s) && x in s && forall y :: y in s && y != x ==> f(y) == g(y)
    ensures TotalOf(g, s) == TotalOf(f, s) + g(x) - f(x)
  {
    var i :| 0 <= i < |s| && s[i] == x;
    var rest := Without(s, i);
    TotalWithout(f, s, i);
    TotalWithout(g, s, i);
    forall y | y in rest
      ensures f(y) == g(y)
    {
      var k :| 0 <= k < |rest| && rest[k] == y;
      assert y == s[if k < i then k else k + 1];
    }
    TotalMonotone(f, g, rest);
    TotalMonotone(g, f, rest);
  }

  lemma {:induction false} TotalNonNegative<T>(f: T -> int, s: seq<T>)
    requires forall x :: x in s ==> f(x) >= 0
    ensures TotalOf(f, s) >= 0
  {
    if s != [] {
      assert s[|s| - 1] in s;
      TotalNonNegative(f, s[..|s| - 1]);
    }
  }

  lemma {:induction false} TotalMonotone<T>(f: T -> int, g: T -> int, s: seq<T>)
    requires forall x :: x in s ==> f(x) <= g(x)
    ensures TotalOf(f, s) <= TotalOf(g, s)
  {
    if s != [] {
      assert s[|s| - 1] in s;
      TotalMonotone(f, g, s[..|s| - 1]);
    }
  }

  /** Fewer summands, each smaller. */
  lemma {:induction false} TotalOfPart<T>(f: T -> int, g: T -> int, part: seq<T>, whole: seq<T>)
    requires NoDuplicates(part) && forall x :: x in part ==> x in whole && f(x) <= g(x)
    requires forall x :: x in whole ==> g(x) >= 0
    ensures TotalOf(f, part) <= TotalOf(g, whole)
  {
    if part == [] {
      TotalNonNegative(g, whole);
    } else {
      var front, last := part[..|part| - 1], part[|part| - 1];
      assert last in part && last !in front;
      assert forall x :: x in front ==> x in part;
      var i :| 0 <= i < |whole| && whole[i] == last;
      var rest := Without(whole, i);
      forall x | x in front
        ensures x in rest
      {
        var k :| 0 <= k < |whole| && whole[k] == x;
        assert rest[if k < i then k else k - 1] == x;
      }
      TotalOfPart(f, g, front, rest);
      TotalWithout(g, whole, i);
    }
  }

  lemma {:induction false} GreatestBounds<T>(f: T -> int, s: seq<T>)
    ensures GreatestOf(f, s) >= 0 && forall x :: x in s ==> f(x) <= GreatestOf(f, s)
    ensures GreatestOf(f, s) > 0 ==> exists x :: x in s && f(x) == GreatestOf(f, s)
  {
    if s != [] {
      var front, last := s[..|s| - 1], s[|s| - 1];
      GreatestBounds(f, front);
      assert s == front + [last];
    }
  }

  lemma GreatestOfPart<T>(f: T -> int, g: T -> int, part: seq<T>, whole: seq<T>)
    requires forall x :: x in part ==> x in whole && f(x) <= g(x)
    ensures GreatestOf(f, part) <= GreatestOf(g, whole)
  {
    GreatestBounds(f, part);
    GreatestBounds(g, whole);
  }

  // ---------- counting ----------

  /** How many elements are as asked. */
  function CountWhere<T>(which: T -> bool, s: seq<T>): nat {
    if s == [] then 0 else CountWhere(which, s[..|s| - 1]) + if which(s[|s| - 1]) then 1 else 0
  }

  /** The count is the number of positions that hold such an element. */
  lemma {:induction false} CountPositions<T>(which: T -> bool, s: seq<T>) returns (positions: set<nat>)
    ensures CountWhere(which, s) == |positions|
    ensures forall i: nat :: i in positions <==> i < |s| && which(s[i])
  {
    if s == [] {
      positions := {};
    } else {
      var front, last := s[..|s| - 1], |s| - 1;
      positions := CountPositions(which, front);
      if which(s[last]) {
        positions := positions + {last};
      }
    }
  }

  lemma {:induction false} CountSame<T>(which: T -> bool, other: T -> bool, s: seq<T>)
    requires forall x :: x in s ==> which(x) == other(x)
    ensures CountWhere(which, s) == CountWhere(other, s)
  {
    if s != [] {
      assert s[|s| - 1] in s;
      CountSame(which, other, s[..|s| - 1]);
    }
  }

  // ---------- lists built element by element ----------

  function FlatMap<T, U>(f: T -> seq<U>, s: seq<T>): seq<U> {
    if s == [] then [] else FlatMap(f, s[..|s| - 1]) + f(s[|s| - 1])
  }

  lemma {:induction false} FlatMapWithout<T, U>(f: T -> seq<U>, s: seq<T>, i: nat)
    requires i < |s|
    ensures multiset(FlatMap(f, s)) == multiset(FlatMap(f, Without(s, i))) + multiset(f(s[i]))
  {
    var front, last := s[..|s| - 1], s[|s| - 1];
    if i == |front| {
      assert Without(s, i) == front;
    } else {
      FlatMapWithout(f, front, i);
      assert Without(s, i) == Without(front, i) + [last];
    }
  }

  lemma {:induction false} FlatMapOrderFree<T, U>(f: T -> seq<U>, a: seq<T>, b: seq<T>)
    requires multiset(a) == multiset(b)
    ensures multiset(FlatMap(f, a)) == multiset(FlatMap(f, b))
  {
    assert |a| == |multiset(a)| == |multiset(b)| == |b|;
    if a != [] {
      var i := MatchHead(a, b);
      FlatMapOrderFree(f, a[1..], Without(b, i));
      FlatMapWithout(f, b, i);
      FlatMapWithout(f, a, 0);
      assert Without(a, 0) == a[1..];
    }
  }

  lemma {:induction false} FlatMapConcat<T, U>(f: T -> seq<U>, a: seq<T>, b: seq<T>)
    ensures FlatMap(f, a + b) == FlatMap(f, a) + FlatMap(f, b)
  {
    if b == [] {
      assert a + b == a;
    } else {
      FlatMapConcat(f, a, b[..|b| - 1]);
      assert (a + b)[..|a + b| - 1] == a + b[..|b| - 1];
    }
  }

  lemma FlatMapOne<T, U>(f: T -> seq<U>, x: T)
    ensures FlatMap(f, [x]) == f(x)
  {
    assert FlatMap(f, [x]) == FlatMap(f, [x][..0]) + f(x);
  }

  lemma FlatMapTwo<T, U>(f: T -> seq<U>, x: T, y: T)
    ensures FlatMap(f, [x, y]) == f(x) + f(y)
  {
    assert [x] + [y] == [x, y];
    FlatMapConcat(f, [x], [y]);
    FlatMapOne(f, x);
    FlatMapOne(f, y);
  }

  lemma FlatMapHead<T, U>(f: T -> seq<U>, x: T, s: seq<T>)
    ensures FlatMap(f, [x] + s) == f(x) + FlatMap(f, s)
  {
    FlatMapConcat(f, [x], s);
    FlatMapOne(f, x);
  }

  /** Where an element of the list comes from. */
  lemma {:induction false} FlatMapMembers<T, U>(f: T -> seq<U>, s: seq<T>)
    ensures forall y :: y in FlatMap(f, s) <==> exists x :: x in s && y in f(x)
  {
    if s != [] {
      var front, last := s[..|s| - 1], s[|s| - 1];
      FlatMapMembers(f, front);
      assert s == front + [last];
    }
  }

  /** Equal elements have only one arrangement. */
  lemma {:induction false} ConstantUnique<T>(a: seq<T>, b: seq<T>)
    requires multiset(a) == multiset(b) && forall x, y :: x in a && y in a ==> x == y
    ensures a == b
  {
    assert |a| == |multiset(a)| == |multiset(b)| == |b|;
    forall i | 0 <= i < |a|
      ensures a[i] == b[i]
    {
      assert b[i] in b && b[i] in multiset(a);
      assert a[i] in a && b[i] in a;
    }
  }
}
