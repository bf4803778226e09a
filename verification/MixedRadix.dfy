/**
 `itertools.product` over index ranges, and its reading as counting in mixed radix.

 `Product` builds the list of digit vectors pool by pool, as the Python documentation defines it.
 `ProductAt` proves that position `i` holds the digits of `i`, the last digit running fastest;
 `EncodeDecode` and `DecodeEncode` make positions and digit vectors two names of the same thing.
 */
module MixedRadix {

  /** The number of digit vectors. */
  function Size(sizes: seq<nat>): nat {
    if sizes == [] then 1 else Size(sizes[..|sizes| - 1]) * sizes[|sizes| - 1]
  }

  /** Every vector of `vs` continued by each digit below `m`. */
  function Extend(vs: seq<seq<nat>>, m: nat): seq<seq<nat>> {
    if vs == [] then []
    else Extend(vs[..|vs| - 1], m) + seq(m, y requires 0 <= y < m => vs[|vs| - 1] + [y])
  }

  function Product(sizes: seq<nat>): seq<seq<nat>> {
    if sizes == [] then [[]] else Extend(Product(sizes[..|sizes| - 1]), sizes[|sizes| - 1])
  }

  ghost predicate InRange(sizes: seq<nat>, digits: seq<nat>) {
    |digits| == |sizes| && forall j :: 0 <= j < |sizes| ==> digits[j] < sizes[j]
  }

  function Decode(sizes: seq<nat>, i: nat): seq<nat>
    requires forall j :: 0 <= j < |sizes| ==> sizes[j] > 0
  {
    if sizes == [] then []
    else
      var last := sizes[|sizes| - 1];
      Decode(sizes[..|sizes| - 1], i / last) + [i % last]
  }

  ghost function Encode(sizes: seq<nat>, digits: seq<nat>): nat
    requires InRange(sizes, digits)
  {
    if sizes == [] then 0
    else
      Encode(sizes[..|sizes| - 1], digits[..|digits| - 1]) * sizes[|sizes| - 1] + digits[|digits| - 1]
  }

  // ---------- arithmetic ----------

  lemma MulMonotone(a: nat, b: nat, m: nat)
    requires a <= b
    ensures a * m <= b * m
  {
  }

  lemma MulNext(q: nat, m: nat)
    ensures (q + 1) * m == q * m + m
  {
  }

  /** Quotient and remainder are unique. */
  lemma DivModUnique(q: nat, r: nat, q': nat, r': nat, m: nat)
    requires q * m + r == q' * m + r' && r < m && r' < m
    ensures q == q' && r == r'
  {
    if q < q' {
      MulMonotone(q + 1, q', m);
      MulNext(q, m);
    } else if q' < q {
      MulMonotone(q' + 1, q, m);
      MulNext(q', m);
    }
  }

  lemma DivMod(q: nat, m: nat, r: nat)
    requires r < m
    ensures (q * m + r) / m == q && (q * m + r) % m == r
  {
    var i := q * m + r;
    DivModUnique(q, r, i / m, i % m, m);
  }

  lemma QuotientBelow(i: nat, n: nat, m: nat)
    requires m > 0 && i < n * m
    ensures i / m < n && (i / m) * m + i % m == i
  {
    if i / m >= n {
      MulMonotone(n, i / m, m);
    }
  }

  lemma {:induction false} SizePositive(sizes: seq<nat>)
    ensures Size(sizes) > 0 <==> forall j :: 0 <= j < |sizes| ==> sizes[j] > 0
  {
    if sizes != [] {
      var front, last := sizes[..|sizes| - 1], sizes[|sizes| - 1];
      SizePositive(front);
      if Size(front) > 0 && last > 0 {
        MulMonotone(1, Size(front), last);
      }
      if Size(sizes) > 0 {
        assert forall j :: 0 <= j < |front| ==> sizes[j] == front[j];
      }
    }
  }

  // ---------- the list is counting ----------

  lemma {:induction false} ExtendLength(vs: seq<seq<nat>>, m: nat)
    ensures |Extend(vs, m)| == |vs| * m
  {
    if vs != [] {
      ExtendLength(vs[..|vs| - 1], m);
      MulNext(|vs| - 1, m);
    }
  }

  lemma {:induction false} ExtendAt(vs: seq<seq<nat>>, m: nat, q: nat, r: nat)
    requires q < |vs| && r < m
    ensures q * m + r < |Extend(vs, m)| && Extend(vs, m)[q * m + r] == vs[q] + [r]
  {
    var front := vs[..|vs| - 1];
    ExtendLength(front, m);
    if q < |front| {
      ExtendAt(front, m, q, r);
    }
  }

  /** Position `i` of the product holds the mixed-radix digits of `i`. */
  lemma {:induction false} ProductAt(sizes: seq<nat>, i: nat)
    requires i < Size(sizes)
    ensures forall j :: 0 <= j < |sizes| ==> sizes[j] > 0
    ensures i < |Product(sizes)| && Product(sizes)[i] == Decode(sizes, i)
  {
    SizePositive(sizes);
    if sizes != [] {
      var front, last := sizes[..|sizes| - 1], sizes[|sizes| - 1];
      var q, r := i / last, i % last;
      QuotientBelow(i, Size(front), last);
      ProductAt(front, q);
      ExtendAt(Product(front), last, q, r);
    }
  }

  lemma {:induction false} ProductLength(sizes: seq<nat>)
    ensures |Product(sizes)| == Size(sizes)
  {
    if sizes != [] {
      ProductLength(sizes[..|sizes| - 1]);
      ExtendLength(Product(sizes[..|sizes| - 1]), sizes[|sizes| - 1]);
    }
  }

  lemma {:induction false} DecodeInRange(sizes: seq<nat>, i: nat)
    requires forall j :: 0 <= j < |sizes| ==> sizes[j] > 0
    ensures InRange(sizes, Decode(sizes, i))
  {
    if sizes != [] {
      DecodeInRange(sizes[..|sizes| - 1], i / sizes[|sizes| - 1]);
    }
  }

  /** Every position is recovered from its digits. */
  lemma {:induction false} EncodeDecode(sizes: seq<nat>, i: nat)
    requires i < Size(sizes)
    ensures forall j :: 0 <= j < |sizes| ==> sizes[j] > 0
    ensures InRange(sizes, Decode(sizes, i)) && Encode(sizes, Decode(sizes, i)) == i
  {
    SizePositive(sizes);
    DecodeInRange(sizes, i);
    if sizes != [] {
      var front, last := sizes[..|sizes| - 1], sizes[|sizes| - 1];
      QuotientBelow(i, Size(front), last);
      EncodeDecode(front, i / last);
    }
  }

  lemma {:induction false} EncodeBelow(sizes: seq<nat>, digits: seq<nat>)
    requires InRange(sizes, digits)
    ensures Encode(sizes, digits) < Size(sizes)
  {
    if sizes != [] {
      var front, last := sizes[..|sizes| - 1], sizes[|sizes| - 1];
      var e := Encode(front, digits[..|digits| - 1]);
      EncodeBelow(front, digits[..|digits| - 1]);
      MulMonotone(e + 1, Size(front), last);
      MulNext(e, last);
    }
  }

  /** Every digit vector stands at the position it encodes. */
  lemma {:induction false} DecodeEncode(sizes: seq<nat>, digits: seq<nat>)
    requires InRange(sizes, digits)
    ensures forall j :: 0 <= j < |sizes| ==> sizes[j] > 0
    ensures Decode(sizes, Encode(sizes, digits)) == digits
  {
    assert forall j :: 0 <= j < |sizes| ==> digits[j] < sizes[j];
    if sizes != [] {
      var rest, digit := digits[..|digits| - 1], digits[|digits| - 1];
      DecodeEncode(sizes[..|sizes| - 1], rest);
      DecodeStep(sizes, Encode(sizes[..|sizes| - 1], rest), digit);
    }
  }

  lemma DecodeStep(sizes: seq<nat>, e: nat, digit: nat)
    requires sizes != [] && digit < sizes[|sizes| - 1] && forall j :: 0 <= j < |sizes| ==> sizes[j] > 0
    ensures Decode(sizes, e * sizes[|sizes| - 1] + digit) == Decode(sizes[..|sizes| - 1], e) + [digit]
  {
    DivMod(e, sizes[|sizes| - 1], digit);
  }

  /** The first digit in which two vectors differ is smaller in `a`. */
  ghost predicate LexBelow(a: seq<nat>, b: seq<nat>) {
    |a| == |b| && exists k :: 0 <= k < |a| && a[..k] == b[..k] && a[k] < b[k]
  }

  lemma LexExtends(a: seq<nat>, b: seq<nat>, x: nat, y: nat)
    requires LexBelow(a, b)
    ensures LexBelow(a + [x], b + [y])
  {
    var k :| 0 <= k < |a| && a[..k] == b[..k] && a[k] < b[k];
    assert (a + [x])[..k] == a[..k] && (b + [y])[..k] == b[..k];
    assert (a + [x])[k] < (b + [y])[k];
  }

  lemma LexLast(a: seq<nat>, x: nat, y: nat)
    requires x < y
    ensures LexBelow(a + [x], a + [y])
  {
    assert (a + [x])[..|a|] == a == (a + [y])[..|a|];
    assert (a + [x])[|a|] < (a + [y])[|a|];
  }

  /** The product is listed in the order of its digits, the last one varying fastest. */
  lemma {:induction false} ProductOrdered(sizes: seq<nat>, i: nat, j: nat)
    requires i < j < Size(sizes)
    ensures forall k :: 0 <= k < |sizes| ==> sizes[k] > 0
    ensures LexBelow(Decode(sizes, i), Decode(sizes, j))
  {
    SizePositive(sizes);
    var last, front := sizes[|sizes| - 1], sizes[..|sizes| - 1];
    QuotientBelow(i, Size(front), last);
    QuotientBelow(j, Size(front), last);
    if i / last == j / last {
      LexLast(Decode(front, i / last), i % last, j % last);
    } else {
      SmallerQuotient(i, j, last);
      ProductOrdered(front, i / last, j / last);
      LexExtends(Decode(front, i / last), Decode(front, j / last), i % last, j % last);
    }
  }

  lemma SmallerQuotient(i: nat, j: nat, m: nat)
    requires i < j && m > 0
    ensures i / m <= j / m
  {
    if i / m > j / m {
      MulMonotone(j / m + 1, i / m, m);
    }
  }
}
