/**
 When the order of the log rows shows in the report of `PeerPairs`: the records are sorted stably, so two
 of them with equal sort keys stay in the order in which the logs first mention their pairs.

 `OrderFreeIff` is the exact condition: no two pairs that the same log mentions first have equal sort keys
 and different records.
 */
module PeerPairOrder {
  import opened Bags
  import opened StableSort
  import opened TupleOrder
  import opened PeerPairs

  datatype Logs = Logs(completions: seq<CompletionRow>, failures: seq<FailureRow>, diagnostics: seq<DiagnosticRow>)

  ghost function EventsOf(l: Logs): seq<Event> {
    Events(l.completions, l.failures, l.diagnostics)
  }

  /** What `BuildPeerPairProgress` returns. */
  ghost function ReportFor(l: Logs): Report {
    ReportOf(TableOf(EventsOf(l)))
  }

  ghost predicate Reordered(l: Logs, l': Logs) {
    && multiset(l.completions) == multiset(l'.completions)
    && multiset(l.failures) == multiset(l'.failures)
    && multiset(l.diagnostics) == multiset(l'.diagnostics)
  }

  ghost predicate OrderFree(l: Logs) {
    forall l' :: Reordered(l, l') ==> ReportFor(l') == ReportFor(l)
  }

  /** The first of the three logs that mentions the pair. */
  ghost function FirstLog(l: Logs, pair: Pair): nat {
    if Mentions(FlatMap(OfCompletion, l.completions), pair) then 0
    else if Mentions(FlatMap(OfFailure, l.failures), pair) then 1
    else 2
  }

  /** Two pairs first met in the same log, whose different records tie in the sort. */
  ghost predicate ShowingTie(l: Logs, p: Pair, q: Pair) {
    var buckets := TableOf(EventsOf(l)).buckets;
    && p in buckets && q in buckets && FirstLog(l, p) == FirstLog(l, q)
    && SortKey(buckets[p]) == SortKey(buckets[q]) && buckets[p] != buckets[q]
  }

  lemma ReorderedBuckets(l: Logs, l': Logs)
    requires Reordered(l, l')
    ensures multiset(EventsOf(l)) == multiset(EventsOf(l'))
    ensures TableOf(EventsOf(l)).buckets == TableOf(EventsOf(l')).buckets
    ensures multiset(TableOf(EventsOf(l)).order) == multiset(TableOf(EventsOf(l')).order)
  {
    SameRowsSameEvents(l.completions, l'.completions, l.failures, l'.failures, l.diagnostics, l'.diagnostics);
    SameEventsSameBuckets(TableOf(EventsOf(l)), TableOf(EventsOf(l')), EventsOf(l), EventsOf(l'));
  }

  lemma ReorderedFirstLog(l: Logs, l': Logs, pair: Pair)
    requires Reordered(l, l')
    ensures FirstLog(l, pair) == FirstLog(l', pair)
  {
    FlatMapOrderFree(OfCompletion, l.completions, l'.completions);
    FlatMapOrderFree(OfFailure, l.failures, l'.failures);
    SameMentions(FlatMap(OfCompletion, l.completions), FlatMap(OfCompletion, l'.completions), pair);
    SameMentions(FlatMap(OfFailure, l.failures), FlatMap(OfFailure, l'.failures), pair);
  }

  // ---------- harmless ties ----------

  lemma MentionsSplit(a: seq<Event>, b: seq<Event>, pair: Pair)
    ensures Mentions(a + b, pair) <==> Mentions(a, pair) || Mentions(b, pair)
  {
    if e :| e in a && e.pair == pair {
      assert e in a + b;
    }
    if e :| e in b && e.pair == pair {
      assert e in a + b;
    }
  }

  lemma AppendLast<T>(a: seq<T>, b: seq<T>)
    requires b != []
    ensures a + b == (a + b[..|b| - 1]) + [b[|b| - 1]] && b == b[..|b| - 1] + [b[|b| - 1]]
  {
  }

  /** What one list of pairs adds to another: the pairs that only `b` mentions. */
  ghost predicate Adds(a: seq<Event>, b: seq<Event>, added: seq<Pair>) {
    && PairsOf(a + b) == PairsOf(a) + added && NoDuplicates(added)
    && forall pair :: pair in added <==> Mentions(b, pair) && !Mentions(a, pair)
  }

  lemma AddsNext(a: seq<Event>, b: seq<Event>, added: seq<Pair>, event: Event)
    requires Adds(a, b, added)
    ensures PairsOf(a + b + [event])
         == PairsOf(a) + if event.pair in PairsOf(a + b) then added else added + [event.pair]
    ensures event.pair in PairsOf(a + b) <==> event.pair in added || Mentions(a, event.pair)
  {
    PairsOfNext(a + b, event);
    PairsOfHolds(a + b);
    MentionsSplit(a, b, event.pair);
  }

  lemma {:induction false} PairsSplit(a: seq<Event>, b: seq<Event>) returns (added: seq<Pair>)
    ensures Adds(a, b, added)
  {
    if b == [] {
      assert a + b == a;
      added := [];
    } else {
      var front, last := b[..|b| - 1], b[|b| - 1];
      added := PairsSplit(a, front);
      AppendLast(a, b);
      AddsNext(a, front, added, last);
      forall pair
        ensures Mentions(b, pair) <==> Mentions(front, pair) || pair == last.pair
      {
        MentionsNext(front, last, pair);
      }
      if last.pair !in PairsOf(a + front) {
        added := added + [last.pair];
      }
    }
  }

  /** The three groups of pairs in a table, by the log that mentions them first. */
  lemma Groups(l: Logs) returns (a: seq<Pair>, b: seq<Pair>, c: seq<Pair>)
    ensures TableOf(EventsOf(l)).order == a + b + c
    ensures NoDuplicates(a) && NoDuplicates(b) && NoDuplicates(c)
    ensures forall pair :: pair in a <==> pair in TableOf(EventsOf(l)).buckets && FirstLog(l, pair) == 0
    ensures forall pair :: pair in b <==> pair in TableOf(EventsOf(l)).buckets && FirstLog(l, pair) == 1
    ensures forall pair :: pair in c <==> pair in TableOf(EventsOf(l)).buckets && FirstLog(l, pair) == 2
  {
    var x, y, z := FlatMap(OfCompletion, l.completions), FlatMap(OfFailure, l.failures), FlatMap(OfDiagnostic, l.diagnostics);
    a := PairsOf(x);
    PairsOfHolds(x);
    PairsOfHolds(x + y + z);
    b := PairsSplit(x, y);
    c := PairsSplit(x + y, z);
    forall pair
      ensures Mentions(x + y, pair) <==> Mentions(x, pair) || Mentions(y, pair)
      ensures Mentions(x + y + z, pair) <==> Mentions(x, pair) || Mentions(y, pair) || Mentions(z, pair)
    {
      MentionsSplit(x, y, pair);
      MentionsSplit(x + y, z, pair);
    }
  }

  lemma RowsSplit(buckets: map<Pair, Bucket>, a: seq<Pair>, b: seq<Pair>)
    ensures RowsOf(buckets, a + b) == RowsOf(buckets, a) + RowsOf(buckets, b)
  {
    FlatMapConcat((pair: Pair) => RowOf(buckets, pair), a, b);
  }

  lemma TiedRowsSplit(buckets: map<Pair, Bucket>, a: seq<Pair>, b: seq<Pair>, x: Bucket)
    ensures TiedWith(NotAfter, x, RowsOf(buckets, a + b))
         == TiedWith(NotAfter, x, RowsOf(buckets, a)) + TiedWith(NotAfter, x, RowsOf(buckets, b))
  {
    RowsSplit(buckets, a, b);
    TiedSplit(NotAfter, x, RowsOf(buckets, a), RowsOf(buckets, b));
  }

  lemma TiedKeys(x: Bucket, y: Bucket)
    ensures Tied(NotAfter, x, y) <==> SortKey(x) == SortKey(y)
  {
    TupleTotal(SortKey(x), SortKey(x));
    if Tied(NotAfter, x, y) {
      TupleAntisymmetric(SortKey(x), SortKey(y));
    }
  }

  ghost predicate SameIfTied(buckets: map<Pair, Bucket>, p: Pair, q: Pair) {
    p in buckets && q in buckets && SortKey(buckets[p]) == SortKey(buckets[q]) ==> buckets[p] == buckets[q]
  }

  ghost predicate EqualWhenTied(buckets: map<Pair, Bucket>, group: seq<Pair>) {
    forall p, q :: p in group && q in group ==> SameIfTied(buckets, p, q)
  }

  /** Where a tied row comes from. */
  lemma TiedRow(buckets: map<Pair, Bucket>, group: seq<Pair>, x: Bucket, r: Bucket) returns (p: Pair)
    requires r in TiedWith(NotAfter, x, RowsOf(buckets, group))
    ensures p in group && p in buckets && buckets[p] == r && SortKey(r) == SortKey(x)
  {
    FlatMapMembers(IfTied(NotAfter, x), RowsOf(buckets, group));
    var y :| y in RowsOf(buckets, group) && r in IfTied(NotAfter, x)(y);
    TiedKeys(x, r);
    p := RowFrom(buckets, group, r);
  }

  lemma RowFrom(buckets: map<Pair, Bucket>, group: seq<Pair>, r: Bucket) returns (p: Pair)
    requires r in RowsOf(buckets, group)
    ensures p in group && p in buckets && buckets[p] == r
  {
    RowsFromTable(buckets, group);
    p :| p in group && p in buckets && r == buckets[p];
  }

  /** Within such a group the order of the pairs does not show. */
  lemma GroupAlike(buckets: map<Pair, Bucket>, a: seq<Pair>, a': seq<Pair>, x: Bucket)
    requires multiset(a) == multiset(a') && EqualWhenTied(buckets, a)
    ensures TiedWith(NotAfter, x, RowsOf(buckets, a)) == TiedWith(NotAfter, x, RowsOf(buckets, a'))
  {
    var rows, rows' := RowsOf(buckets, a), RowsOf(buckets, a');
    FlatMapOrderFree((pair: Pair) => RowOf(buckets, pair), a, a');
    FlatMapOrderFree(IfTied(NotAfter, x), rows, rows');
    var tied := TiedWith(NotAfter, x, rows);
    forall r, s | r in tied && s in tied
      ensures r == s
    {
      var p := TiedRow(buckets, a, x, r);
      var q := TiedRow(buckets, a, x, s);
      assert SameIfTied(buckets, p, q);
    }
    ConstantUnique(tied, TiedWith(NotAfter, x, rows'));
  }

  lemma NoTieInGroup(l: Logs, group: seq<Pair>, log: nat)
    requires forall p, q :: !ShowingTie(l, p, q)
    requires forall pair :: pair in group ==> pair in TableOf(EventsOf(l)).buckets && FirstLog(l, pair) == log
    ensures EqualWhenTied(TableOf(EventsOf(l)).buckets, group)
  {
    forall p, q | p in group && q in group
      ensures SameIfTied(TableOf(EventsOf(l)).buckets, p, q)
    {
      assert !ShowingTie(l, p, q);
    }
  }

  lemma HarmlessReordering(l: Logs, l': Logs)
    requires Reordered(l, l') && forall p, q :: !ShowingTie(l, p, q)
    ensures ReportFor(l') == ReportFor(l)
  {
    ReorderedBuckets(l, l');
    var t, t' := TableOf(EventsOf(l)), TableOf(EventsOf(l'));
    var a, b, c := Groups(l);
    var a', b', c' := Groups(l');
    forall pair
      ensures FirstLog(l, pair) == FirstLog(l', pair)
    {
      ReorderedFirstLog(l, l', pair);
    }
    NoTieInGroup(l, a, 0);
    NoTieInGroup(l, b, 1);
    NoTieInGroup(l, c, 2);
    SameMembersSameBag(a, a');
    SameMembersSameBag(b, b');
    SameMembersSameBag(c, c');
    GroupsAlike(t.buckets, a, b, c, a', b', c');
    NotAfterOrders();
    FlatMapOrderFree((pair: Pair) => RowOf(t.buckets, pair), t.order, t'.order);
    SortedAlikeIff(NotAfter, RowsOf(t.buckets, t.order), RowsOf(t.buckets, t'.order));
  }

  lemma GroupsAlike(buckets: map<Pair, Bucket>, a: seq<Pair>, b: seq<Pair>, c: seq<Pair>,
                    a': seq<Pair>, b': seq<Pair>, c': seq<Pair>)
    requires multiset(a) == multiset(a') && multiset(b) == multiset(b') && multiset(c) == multiset(c')
    requires EqualWhenTied(buckets, a) && EqualWhenTied(buckets, b) && EqualWhenTied(buckets, c)
    ensures TiesAlike(NotAfter, RowsOf(buckets, a + b + c), RowsOf(buckets, a' + b' + c'))
  {
    forall x
      ensures TiedWith(NotAfter, x, RowsOf(buckets, a + b + c)) == TiedWith(NotAfter, x, RowsOf(buckets, a' + b' + c'))
    {
      GroupAlike(buckets, a, a', x);
      GroupAlike(buckets, b, b', x);
      GroupAlike(buckets, c, c', x);
      TiedRowsSplit(buckets, a + b, c, x);
      TiedRowsSplit(buckets, a, b, x);
      TiedRowsSplit(buckets, a' + b', c', x);
      TiedRowsSplit(buckets, a', b', x);
    }
  }

  // ---------- ties that show ----------

  /** After the same events, two lists of pairs with the same members have grown alike. */
  lemma {:induction false} CommonTail(a: seq<Event>, b: seq<Event>, more: seq<Event>) returns (tail: seq<Pair>)
    requires forall pair :: pair in PairsOf(a) <==> pair in PairsOf(b)
    ensures PairsOf(a + more) == PairsOf(a) + tail && PairsOf(b + more) == PairsOf(b) + tail
  {
    if more == [] {
      assert a + more == a && b + more == b;
      tail := [];
    } else {
      var front, last := more[..|more| - 1], more[|more| - 1];
      tail := CommonTail(a, b, front);
      AppendLast(a, more);
      AppendLast(b, more);
      PairsOfNext(a + front, last);
      PairsOfNext(b + front, last);
      if last.pair !in PairsOf(a + front) {
        Reassociate(PairsOf(a), tail, last.pair);
        Reassociate(PairsOf(b), tail, last.pair);
        tail := tail + [last.pair];
      }
    }
  }

  lemma Reassociate<T>(a: seq<T>, b: seq<T>, x: T)
    ensures (a + b) + [x] == a + (b + [x])
  {
  }

  lemma TwoFreshPairs(before: seq<Event>, e: Event, f: Event)
    requires !Mentions(before, e.pair) && !Mentions(before, f.pair) && e.pair != f.pair
    ensures PairsOf(before + [e, f]) == PairsOf(before) + [e.pair, f.pair]
  {
    assert before + [e, f] == before + [e] + [f];
    PairsOfHolds(before);
    PairsOfNext(before, e);
    PairsOfNext(before + [e], f);
  }

  /** The rows tied with the record of `p`, when `p` and `q` are met one after the other. */
  lemma TiedNeighbours(buckets: map<Pair, Bucket>, front: seq<Pair>, p: Pair, q: Pair, tail: seq<Pair>, x: Bucket)
    requires p in buckets && q in buckets && SortKey(buckets[p]) == SortKey(x) == SortKey(buckets[q])
    ensures TiedWith(NotAfter, x, RowsOf(buckets, front + [p, q] + tail))
         == TiedWith(NotAfter, x, RowsOf(buckets, front)) + [buckets[p], buckets[q]]
            + TiedWith(NotAfter, x, RowsOf(buckets, tail))
  {
    TiedRowsSplit(buckets, front + [p, q], tail, x);
    TiedRowsSplit(buckets, front, [p, q], x);
    FlatMapTwo((pair: Pair) => RowOf(buckets, pair), p, q);
    assert RowsOf(buckets, [p, q]) == [buckets[p], buckets[q]];
    FlatMapTwo(IfTied(NotAfter, x), buckets[p], buckets[q]);
    TiedKeys(x, buckets[p]);
    TiedKeys(x, buckets[q]);
  }

  lemma SwapBag<T>(front: seq<T>, p: T, q: T, tail: seq<T>)
    ensures multiset(front + [p, q] + tail) == multiset(front + [q, p] + tail)
  {
    assert multiset([p, q]) == multiset([q, p]);
  }

  /** Tied records are reported in the order in which their pairs were met. */
  lemma OrderShows(t: Table, t': Table, front: seq<Pair>, p: Pair, q: Pair, tail: seq<Pair>)
    requires t.buckets == t'.buckets
    requires t.order == front + [p, q] + tail && t'.order == front + [q, p] + tail
    requires p in t.buckets && q in t.buckets && t.buckets[p] != t.buckets[q]
    requires SortKey(t.buckets[p]) == SortKey(t.buckets[q])
    ensures ReportOf(t) != ReportOf(t')
  {
    var x, rows, rows' := t.buckets[p], RowsOf(t.buckets, t.order), RowsOf(t.buckets, t'.order);
    TiedNeighbours(t.buckets, front, p, q, tail, x);
    TiedNeighbours(t.buckets, front, q, p, tail, x);
    var k := |TiedWith(NotAfter, x, RowsOf(t.buckets, front))|;
    assert TiedWith(NotAfter, x, rows)[k] == t.buckets[p] && TiedWith(NotAfter, x, rows')[k] == t.buckets[q];
    assert !TiesAlike(NotAfter, rows, rows');
    SwapBag(front, p, q, tail);
    NotAfterOrders();
    FlatMapOrderFree((pair: Pair) => RowOf(t.buckets, pair), t.order, t'.order);
    SortedAlikeIff(NotAfter, rows, rows');
  }

  lemma SameMembersAfterSwap(front: seq<Pair>, p: Pair, q: Pair)
    ensures forall pair :: pair in front + [p, q] <==> pair in front + [q, p]
  {
  }

  /** Exchanging the events that introduce two pairs exchanges the pairs, and nothing else. */
  lemma SwapOrders(before: seq<Event>, e: Event, f: Event, after: seq<Event>) returns (tail: seq<Pair>)
    requires !Mentions(before, e.pair) && !Mentions(before, f.pair) && e.pair != f.pair
    ensures PairsOf(before + [e, f] + after) == PairsOf(before) + [e.pair, f.pair] + tail
    ensures PairsOf(before + [f, e] + after) == PairsOf(before) + [f.pair, e.pair] + tail
  {
    TwoFreshPairs(before, e, f);
    TwoFreshPairs(before, f, e);
    SameMembersAfterSwap(PairsOf(before), e.pair, f.pair);
    tail := CommonTail(before + [e, f], before + [f, e], after);
  }

  lemma TwoEvents<T>(f: T -> seq<Event>, x: T, y: T, back: seq<T>)
    requires |f(x)| == 1 && |f(y)| == 1
    ensures FlatMap(f, [x] + ([y] + back)) == [f(x)[0], f(y)[0]] + FlatMap(f, back)
  {
    FlatMapHead(f, x, [y] + back);
    FlatMapHead(f, y, back);
  }

  /** Two arrangements of a log that differ in which of two pairs comes first. */
  lemma SwapFirst<T>(f: T -> seq<Event>, rows: seq<T>, p: Pair, q: Pair)
    returns (a: seq<T>, b: seq<T>, d: Event, e: Event, rest: seq<Event>)
    requires forall row :: |f(row)| <= 1
    requires Mentions(FlatMap(f, rows), p) && Mentions(FlatMap(f, rows), q) && p != q
    ensures multiset(a) == multiset(rows) && multiset(b) == multiset(rows)
    ensures FlatMap(f, a) == [d, e] + rest && FlatMap(f, b) == [e, d] + rest && d.pair == p && e.pair == q
  {
    d :| d in FlatMap(f, rows) && d.pair == p;
    e :| e in FlatMap(f, rows) && e.pair == q;
    FlatMapMembers(f, rows);
    var x :| x in rows && d in f(x);
    var y :| y in rows && e in f(y);
    assert f(x) == [d] && f(y) == [e];
    var back := MoveToFront(rows, x, y);
    a, b, rest := [x] + ([y] + back), [y] + ([x] + back), FlatMap(f, back);
    TwoEvents(f, x, y, back);
    TwoEvents(f, y, x, back);
  }

  lemma Regroup(before: seq<Event>, two: seq<Event>, rest: seq<Event>, after: seq<Event>)
    ensures before + (two + rest) + after == before + two + (rest + after)
  {
  }

  /** A tie between different records of one log can be shown both ways round. */
  lemma TieShows(l: Logs, p: Pair, q: Pair) returns (l': Logs, l'': Logs)
    requires ShowingTie(l, p, q)
    ensures Reordered(l, l') && Reordered(l, l'') && ReportFor(l') != ReportFor(l'')
  {
    var before, d, e, after;
    l', l'', before, d, e, after := Exchange(l, p, q);
    ReorderedTie(l, l', p, q);
    BothReordered(l, l', l'');
    ExchangeShows(l', l'', before, d, e, after);
  }

  lemma ReorderedTie(l: Logs, l': Logs, p: Pair, q: Pair)
    requires Reordered(l, l') && ShowingTie(l, p, q)
    ensures ShowingTie(l', p, q)
  {
    ReorderedBuckets(l, l');
    ReorderedFirstLog(l, l', p);
    ReorderedFirstLog(l, l', q);
  }

  lemma BothReordered(l: Logs, l': Logs, l'': Logs)
    requires Reordered(l, l') && Reordered(l, l'')
    ensures TableOf(EventsOf(l')).buckets == TableOf(EventsOf(l'')).buckets
  {
    ReorderedBuckets(l, l');
    ReorderedBuckets(l, l'');
  }

  lemma ExchangeShows(l': Logs, l'': Logs, before: seq<Event>, d: Event, e: Event, after: seq<Event>)
    requires EventsOf(l') == before + [d, e] + after && EventsOf(l'') == before + [e, d] + after
    requires !Mentions(before, d.pair) && !Mentions(before, e.pair) && d.pair != e.pair
    requires TableOf(EventsOf(l')).buckets == TableOf(EventsOf(l'')).buckets
    requires ShowingTie(l', d.pair, e.pair)
    ensures ReportFor(l') != ReportFor(l'')
  {
    var tail := SwapOrders(before, d, e, after);
    OrderShows(TableOf(EventsOf(l')), TableOf(EventsOf(l'')), PairsOf(before), d.pair, e.pair, tail);
  }

  /** The logs `l'` and `l''` mention the one pair right before the other, and for the first time. */
  ghost predicate Exchanged(l: Logs, l': Logs, l'': Logs, before: seq<Event>, d: Event, e: Event, after: seq<Event>) {
    && Reordered(l, l') && Reordered(l, l'')
    && EventsOf(l') == before + [d, e] + after && EventsOf(l'') == before + [e, d] + after
    && !Mentions(before, d.pair) && !Mentions(before, e.pair)
  }

  lemma Exchange(l: Logs, p: Pair, q: Pair)
    returns (l': Logs, l'': Logs, before: seq<Event>, d: Event, e: Event, after: seq<Event>)
    requires ShowingTie(l, p, q)
    ensures Exchanged(l, l', l'', before, d, e, after) && d.pair == p && e.pair == q
  {
    MentionedSomewhere(l, p);
    MentionedSomewhere(l, q);
    if FirstLog(l, p) == 0 {
      l', l'', before, d, e, after := ExchangeCompletions(l, p, q);
    } else if FirstLog(l, p) == 1 {
      l', l'', before, d, e, after := ExchangeFailures(l, p, q);
    } else {
      l', l'', before, d, e, after := ExchangeDiagnostics(l, p, q);
    }
  }

  lemma ExchangeCompletions(l: Logs, p: Pair, q: Pair)
    returns (l': Logs, l'': Logs, before: seq<Event>, d: Event, e: Event, after: seq<Event>)
    requires p != q && Mentions(FlatMap(OfCompletion, l.completions), p) && Mentions(FlatMap(OfCompletion, l.completions), q)
    ensures Exchanged(l, l', l'', before, d, e, after) && d.pair == p && e.pair == q
  {
    var y, z := FlatMap(OfFailure, l.failures), FlatMap(OfDiagnostic, l.diagnostics);
    var a, b, rest;
    a, b, d, e, rest := SwapFirst(OfCompletion, l.completions, p, q);
    l', l'', before, after := l.(completions := a), l.(completions := b), [], rest + y + z;
    RegroupFirst([d, e], rest, y, z);
    RegroupFirst([e, d], rest, y, z);
  }

  lemma RegroupFirst(two: seq<Event>, rest: seq<Event>, y: seq<Event>, z: seq<Event>)
    ensures (two + rest) + y + z == [] + two + (rest + y + z)
  {
  }

  lemma ExchangeFailures(l: Logs, p: Pair, q: Pair)
    returns (l': Logs, l'': Logs, before: seq<Event>, d: Event, e: Event, after: seq<Event>)
    requires p != q && Mentions(FlatMap(OfFailure, l.failures), p) && Mentions(FlatMap(OfFailure, l.failures), q)
    requires !Mentions(FlatMap(OfCompletion, l.completions), p) && !Mentions(FlatMap(OfCompletion, l.completions), q)
    ensures Exchanged(l, l', l'', before, d, e, after) && d.pair == p && e.pair == q
  {
    var x, z := FlatMap(OfCompletion, l.completions), FlatMap(OfDiagnostic, l.diagnostics);
    var a, b, rest;
    a, b, d, e, rest := SwapFirst(OfFailure, l.failures, p, q);
    l', l'', before, after := l.(failures := a), l.(failures := b), x, rest + z;
    Regroup(before, [d, e], rest, z);
    Regroup(before, [e, d], rest, z);
  }

  lemma ExchangeDiagnostics(l: Logs, p: Pair, q: Pair)
    returns (l': Logs, l'': Logs, before: seq<Event>, d: Event, e: Event, after: seq<Event>)
    requires p != q && Mentions(FlatMap(OfDiagnostic, l.diagnostics), p) && Mentions(FlatMap(OfDiagnostic, l.diagnostics), q)
    requires !Mentions(FlatMap(OfCompletion, l.completions), p) && !Mentions(FlatMap(OfCompletion, l.completions), q)
    requires !Mentions(FlatMap(OfFailure, l.failures), p) && !Mentions(FlatMap(OfFailure, l.failures), q)
    ensures Exchanged(l, l', l'', before, d, e, after) && d.pair == p && e.pair == q
  {
    var x, y := FlatMap(OfCompletion, l.completions), FlatMap(OfFailure, l.failures);
    var a, b, rest;
    a, b, d, e, rest := SwapFirst(OfDiagnostic, l.diagnostics, p, q);
    l', l'', before, after := l.(diagnostics := a), l.(diagnostics := b), x + y, rest;
    RegroupLast(before, [d, e], rest);
    RegroupLast(before, [e, d], rest);
    MentionsSplit(x, y, p);
    MentionsSplit(x, y, q);
  }

  lemma RegroupLast(before: seq<Event>, two: seq<Event>, rest: seq<Event>)
    ensures before + (two + rest) == before + two + rest
  {
  }

  lemma MentionedSomewhere(l: Logs, pair: Pair)
    requires pair in TableOf(EventsOf(l)).buckets
    ensures Mentions(FlatMap(OfCompletion, l.completions), pair) || Mentions(FlatMap(OfFailure, l.failures), pair)
         || Mentions(FlatMap(OfDiagnostic, l.diagnostics), pair)
  {
    var x, y, z := FlatMap(OfCompletion, l.completions), FlatMap(OfFailure, l.failures), FlatMap(OfDiagnostic, l.diagnostics);
    PairsOfHolds(x + y + z);
    MentionsSplit(x + y, z, pair);
    MentionsSplit(x, y, pair);
  }

  // ---------- the exact condition ----------

  /** The report is the same for all orders of the rows in each log iff no two pairs first met in the same
      log have equal sort keys and different records. */
  lemma OrderFreeIff(l: Logs)
    ensures OrderFree(l) <==> forall p, q :: !ShowingTie(l, p, q)
  {
    if forall p, q :: !ShowingTie(l, p, q) {
      forall l' | Reordered(l, l')
        ensures ReportFor(l') == ReportFor(l)
      {
        HarmlessReordering(l, l');
      }
    } else {
      var p, q :| ShowingTie(l, p, q);
      var l', l'' := TieShows(l, p, q);
    }
  }

  /** While no Stage names a key field the ties are harmless: the sort key ends in the pair itself. */
  lemma ReportOrderFree(l: Logs)
    requires KeysKept(EventsOf(l))
    ensures OrderFree(l)
  {
    var t := TableOf(EventsOf(l));
    forall p, q
      ensures !ShowingTie(l, p, q)
    {
      if ShowingTie(l, p, q) {
        var a, b := SortKey(t.buckets[p]), SortKey(t.buckets[q]);
        assert a[3] == b[3] && a[4] == b[4];
        RecordNamesPair(t, EventsOf(l), p);
        RecordNamesPair(t, EventsOf(l), q);
        assert false;
      }
    }
    OrderFreeIff(l);
  }

  // ---------- a Stage that names a key field ----------

  /** A failure row with Stage "local_fep" makes two pairs look alike, and their order then depends on the logs. */
  lemma StageCanReorder(l: Logs)
    requires l.completions == [CompletionRow(0, 0, 0), CompletionRow(1, 0, 1)]
    requires l.failures == [FailureRow(0, 0, Named(LocalFep), false)] && l.diagnostics == []
    ensures !OrderFree(l)
  {
    var a, b := Event(Pair(0, 0), [FailedCompletions]), Event(Pair(1, 0), [SuccessCompletions]);
    var c := Event(Pair(0, 0), [LocalFep]);
    EventsOfExample(a, b, c);
    ExampleBuckets(TableOf(EventsOf(l)), a, b, c);
    CompletionsOfExample(l, a, b);
    assert ShowingTie(l, a.pair, b.pair);
    OrderFreeIff(l);
  }

  lemma CompletionsOfExample(l: Logs, a: Event, b: Event)
    requires l.completions == [CompletionRow(0, 0, 0), CompletionRow(1, 0, 1)]
    requires a == Event(Pair(0, 0), [FailedCompletions]) && b == Event(Pair(1, 0), [SuccessCompletions])
    ensures FirstLog(l, a.pair) == 0 && FirstLog(l, b.pair) == 0
  {
    FlatMapTwo(OfCompletion, l.completions[0], l.completions[1]);
    var events := FlatMap(OfCompletion, l.completions);
    assert events[0] == a && events[1] == b;
    assert a in events && b in events;
  }

  lemma BucketInExample(t: Table, a: Event, b: Event, c: Event, field: Field)
    requires a == Event(Pair(0, 0), [FailedCompletions]) && b == Event(Pair(1, 0), [SuccessCompletions])
    requires c == Event(Pair(0, 0), [LocalFep]) && Records(t, [a, b, c])
    ensures a.pair in t.buckets && b.pair in t.buckets
    ensures Value(t.buckets[a.pair], field) == if field == FailedCompletions || field == LocalFep then 1 else 0
    ensures Value(t.buckets[b.pair], field) == if field == SuccessCompletions || field == LocalFep then 1 else 0
  {
    PairsInExample(a, b, c);
    assert a.pair in t.order && b.pair in t.order;
    RaisedInExample(a, b, c, a.pair, field);
    RaisedInExample(a, b, c, b.pair, field);
    CountOne(field, FailedCompletions);
    CountOne(field, SuccessCompletions);
    CountOne(field, LocalFep);
  }

  lemma ExampleBuckets(t: Table, a: Event, b: Event, c: Event)
    requires a == Event(Pair(0, 0), [FailedCompletions]) && b == Event(Pair(1, 0), [SuccessCompletions])
    requires c == Event(Pair(0, 0), [LocalFep]) && Records(t, [a, b, c])
    ensures a.pair in t.buckets && b.pair in t.buckets && t.buckets[a.pair] != t.buckets[b.pair]
    ensures SortKey(t.buckets[a.pair]) == SortKey(t.buckets[b.pair])
  {
    BucketInExample(t, a, b, c, FailedCompletions);
    BucketInExample(t, a, b, c, ResponseTimeoutExhausted);
    BucketInExample(t, a, b, c, SendUnexpectedNoMatch);
    BucketInExample(t, a, b, c, SendResponseAfterTerminal);
    BucketInExample(t, a, b, c, LocalFep);
    BucketInExample(t, a, b, c, PeerFep);
  }

  lemma EventsOfExample(a: Event, b: Event, c: Event)
    requires a == Event(Pair(0, 0), [FailedCompletions]) && b == Event(Pair(1, 0), [SuccessCompletions])
    requires c == Event(Pair(0, 0), [LocalFep])
    ensures Events([CompletionRow(0, 0, 0), CompletionRow(1, 0, 1)], [FailureRow(0, 0, Named(LocalFep), false)], []) == [a, b, c]
  {
    var x, y, f := CompletionRow(0, 0, 0), CompletionRow(1, 0, 1), FailureRow(0, 0, Named(LocalFep), false);
    FlatMapTwo(OfCompletion, x, y);
    assert [f][..0] == [] && [LocalFep] + [] == [LocalFep];
    assert FlatMap(OfFailure, [f]) == FlatMap(OfFailure, []) + OfFailure(f) == [c];
    assert FlatMap(OfDiagnostic, []) == [];
  }

  lemma RaisedInExample(a: Event, b: Event, c: Event, pair: Pair, field: Field)
    ensures Raised([a, b, c], pair, field)
         == (if a.pair == pair then CountField(a.raised, field) else 0)
            + (if b.pair == pair then CountField(b.raised, field) else 0)
            + (if c.pair == pair then CountField(c.raised, field) else 0)
  {
    assert [] + [a] == [a] && [a] + [b] == [a, b];
    assert [a, b] + [c] == [a, b, c];
    RaisedNext([], a, pair, field);
    RaisedNext([a], b, pair, field);
    RaisedNext([a, b], c, pair, field);
  }

  lemma PairsInExample(a: Event, b: Event, c: Event)
    requires a.pair != b.pair && (c.pair == a.pair || c.pair == b.pair)
    ensures PairsOf([a, b, c]) == [a.pair, b.pair]
  {
    TwoFreshPairs([], a, b);
    PairsOfNext([] + [a, b], c);
    ThreeEvents(a, b, c);
  }

  lemma ThreeEvents(a: Event, b: Event, c: Event)
    ensures [] + [a, b] + [c] == [a, b, c]
  {
  }
}
