/**
 Python's order on tuples of integers, which the reports use for their sort keys.
 */
module TupleOrder {
  import opened Sorting

  /** Lexicographic, position by position; a proper prefix comes first. */
  predicate TupleAtMost(a: seq<int>, b: seq<int>)
    decreases |a|
  {
    a == [] || (b != [] && (a[0] < b[0] || (a[0] == b[0] && TupleAtMost(a[1..], b[1..]))))
  }

  lemma {:induction false} TupleTotal(a: seq<int>, b: seq<int>)
    ensures TupleAtMost(a, b) || TupleAtMost(b, a)
    decreases |a|
  {
    if a != [] && b != [] {
      TupleTotal(a[1..], b[1..]);
    }
  }

  lemma {:induction false} TupleTransitive(a: seq<int>, b: seq<int>, c: seq<int>)
    requires TupleAtMost(a, b) && TupleAtMost(b, c)
    ensures TupleAtMost(a, c)
    decreases |a|
  {
    if a != [] && a[0] == b[0] == c[0] {
      TupleTransitive(a[1..], b[1..], c[1..]);
    }
  }

  lemma {:induction false} TupleAntisymmetric(a: seq<int>, b: seq<int>)
    requires TupleAtMost(a, b) && TupleAtMost(b, a)
    ensures a == b
    decreases |a|
  {
    if a != [] && b != [] {
      TupleAntisymmetric(a[1..], b[1..]);
      assert a == [a[0]] + a[1..] && b == [b[0]] + b[1..];
    }
  }

  lemma TupleHead(a: seq<int>, b: seq<int>)
    requires TupleAtMost(a, b) && a != [] && b != []
    ensures a[0] <= b[0]
    ensures a[0] == b[0] ==> TupleAtMost(a[1..], b[1..])
  {
  }

  /** Where two tuples of the same length differ first, the smaller one has the smaller number. */
  lemma {:induction false} FirstDifference(a: seq<int>, b: seq<int>) returns (k: nat)
    requires TupleAtMost(a, b) && |a| == |b|
    ensures k <= |a| && forall i :: 0 <= i < k ==> a[i] == b[i]
    ensures k < |a| ==> a[k] < b[k]
    decreases |a|
  {
    if a == [] || a[0] < b[0] {
      k := 0;
    } else {
      var rest := FirstDifference(a[1..], b[1..]);
      k := rest + 1;
      assert forall i :: 0 < i < k ==> a[i] == a[1..][i - 1] && b[i] == b[1..][i - 1];
      assert k < |a| ==> a[k] == a[1..][rest] && b[k] == b[1..][rest];
    }
  }

  /** `sorted(..., key=f)` compares through a total preorder. */
  lemma KeyedPreorder<T(!new)>(leq: (T, T) -> bool, f: T -> seq<int>)
    requires forall x, y :: leq(x, y) == TupleAtMost(f(x), f(y))
    ensures TotalPreorder(leq)
  {
    forall x, y
      ensures leq(x, y) || leq(y, x)
    {
      TupleTotal(f(x), f(y));
    }
    forall x, y, z | leq(x, y) && leq(y, z)
      ensures leq(x, z)
    {
      TupleTransitive(f(x), f(y), f(z));
    }
  }
}
