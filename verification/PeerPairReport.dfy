/**
 What `build_peer_pair_progress` reports, in terms of the rows of the three logs alone: how many of them
 each number counts, in which order the pairs are listed, and which pair comes out on top.
 */
module PeerPairReport {
  import opened Basics
  import opened Bags
  import opened Sorting
  import opened TupleOrder
  import opened PeerPairs

  // ---------- rows of a pair ----------

  function IsCompletion(p: Pair, ok: bool): CompletionRow -> bool {
    (row: CompletionRow) => row.localFep == p.localFep && row.peerFep == p.peerFep && (row.success != 0) == ok
  }

  function IsFailure(p: Pair, stage: Stage): FailureRow -> bool {
    (row: FailureRow) => row.localFep == p.localFep && row.peerFep == p.peerFep && row.stage == stage
  }

  function IsDeferred(p: Pair): FailureRow -> bool {
    (row: FailureRow) => row.localFep == p.localFep && row.peerFep == p.peerFep && row.deferredForPeerQueue
  }

  function IsDiagnostic(p: Pair, name: DiagnosticName): DiagnosticRow -> bool {
    (row: DiagnosticRow) => row.localFep == p.localFep && row.detailPeer == Some(p.peerFep) && row.name == name
  }

  /** The completion rows of a pair, successful or not. */
  function CompletionsOf(cs: seq<CompletionRow>, p: Pair, ok: bool): nat {
    CountWhere(IsCompletion(p, ok), cs)
  }

  /** The failure rows of a pair with this stage. */
  function FailuresOf(fs: seq<FailureRow>, p: Pair, stage: Stage): nat {
    CountWhere(IsFailure(p, stage), fs)
  }

  function DeferredOf(fs: seq<FailureRow>, p: Pair): nat {
    CountWhere(IsDeferred(p), fs)
  }

  function DiagnosticsOf(ds: seq<DiagnosticRow>, p: Pair, name: DiagnosticName): nat {
    CountWhere(IsDiagnostic(p, name), ds)
  }

  // ---------- what a record counts ----------

  lemma RaisedConcat(a: seq<Event>, b: seq<Event>, p: Pair, field: Field)
    ensures Raised(a + b, p, field) == Raised(a, p, field) + Raised(b, p, field)
  {
    TotalConcat((e: Event) => if e.pair == p then CountField(e.raised, field) else 0, a, b);
  }

  lemma RaisedByOne(e: Event, p: Pair, field: Field)
    ensures Raised([e], p, field) == if e.pair == p then CountField(e.raised, field) else 0
  {
    assert [] + [e] == [e];
    RaisedNext([], e, p, field);
  }

  lemma {:induction false} RaisedByCompletions(cs: seq<CompletionRow>, p: Pair, field: Field)
    ensures Raised(FlatMap(OfCompletion, cs), p, field)
         == (if field == SuccessCompletions then CompletionsOf(cs, p, true) else 0)
            + (if field == FailedCompletions then CompletionsOf(cs, p, false) else 0)
  {
    if cs != [] {
      var front, last := cs[..|cs| - 1], cs[|cs| - 1];
      RaisedByCompletions(front, p, field);
      RaisedConcat(FlatMap(OfCompletion, front), OfCompletion(last), p, field);
      RaisedByOne(OfCompletion(last)[0], p, field);
      CountOne(field, OfCompletion(last)[0].raised[0]);
    }
  }

  /** What a failure row adds to a counter of its pair. */
  ghost function FailureAdds(row: FailureRow, field: Field): nat {
    (if row.stage == Named(field) then 1 else 0)
    + (if field == CreditGateBlocked
          && (row.stage == SendAdmissionBlocked || row.stage == WriteBudgetBlocked || row.stage == ReadResponseBudgetBlocked)
       then 1 else 0)
    + (if field == PeerQueueBlocked && row.deferredForPeerQueue then 1 else 0)
  }

  lemma CounterCounted(stage: Stage, field: Field)
    ensures CountField(CounterOf(stage), field)
         == (if stage == Named(field) then 1 else 0)
            + (if field == CreditGateBlocked
                  && (stage == SendAdmissionBlocked || stage == WriteBudgetBlocked || stage == ReadResponseBudgetBlocked)
               then 1 else 0)
  {
    CountOne(field, CreditGateBlocked);
    if stage.Named? {
      CountOne(field, stage.field);
    }
  }

  lemma DeferredCounted(fields: seq<Field>, field: Field)
    ensures CountField(fields + [PeerQueueBlocked], field)
         == CountField(fields, field) + if field == PeerQueueBlocked then 1 else 0
    ensures fields + [] == fields
  {
    assert (fields + [PeerQueueBlocked])[..|fields|] == fields;
  }

  lemma FailureCounted(row: FailureRow, field: Field)
    ensures |OfFailure(row)| == 1 && OfFailure(row)[0].pair == Pair(row.localFep, row.peerFep)
    ensures CountField(OfFailure(row)[0].raised, field) == FailureAdds(row, field)
  {
    CounterCounted(row.stage, field);
    DeferredCounted(CounterOf(row.stage), field);
  }

  /** The failure rows that a counter of the pair counts. */
  ghost function FailuresCounted(fs: seq<FailureRow>, p: Pair, field: Field): nat {
    FailuresOf(fs, p, Named(field))
    + (if field == CreditGateBlocked
       then FailuresOf(fs, p, SendAdmissionBlocked) + FailuresOf(fs, p, WriteBudgetBlocked)
            + FailuresOf(fs, p, ReadResponseBudgetBlocked)
       else 0)
    + (if field == PeerQueueBlocked then DeferredOf(fs, p) else 0)
  }

  lemma FailuresCountedNext(fs: seq<FailureRow>, p: Pair, field: Field)
    requires fs != []
    ensures var front, last := fs[..|fs| - 1], fs[|fs| - 1];
            FailuresCounted(fs, p, field)
            == FailuresCounted(front, p, field)
               + if Pair(last.localFep, last.peerFep) == p then FailureAdds(last, field) else 0
  {
  }

  lemma {:induction false} RaisedByFailures(fs: seq<FailureRow>, p: Pair, field: Field)
    ensures Raised(FlatMap(OfFailure, fs), p, field) == FailuresCounted(fs, p, field)
  {
    if fs != [] {
      var front, last := fs[..|fs| - 1], fs[|fs| - 1];
      RaisedByFailures(front, p, field);
      RaisedConcat(FlatMap(OfFailure, front), OfFailure(last), p, field);
      FailureCounted(last, field);
      assert OfFailure(last) == [OfFailure(last)[0]];
      RaisedByOne(OfFailure(last)[0], p, field);
      FailuresCountedNext(fs, p, field);
    }
  }

  /** The diagnostic that a counter counts, if there is one. */
  ghost function DiagnosticOf(field: Field): Option<DiagnosticName> {
    match field
    case SendDispatchStarted => Some(DispatchStarted)
    case SendResponseClosedLive => Some(ClosedLiveRequest)
    case SendResponseAfterTerminal => Some(AfterTerminal)
    case SendRetryNoResponseProgress => Some(RetryNoResponseProgress)
    case _ => None
  }

  lemma DiagnosticCounted(row: DiagnosticRow, p: Pair, field: Field)
    ensures Raised(OfDiagnostic(row), p, field)
         == if DiagnosticOf(field).Some? && IsDiagnostic(p, DiagnosticOf(field).value)(row) then 1 else 0
  {
    if OfDiagnostic(row) != [] {
      var e := OfDiagnostic(row)[0];
      assert OfDiagnostic(row) == [e];
      RaisedByOne(e, p, field);
      CountOne(field, e.raised[0]);
      assert e.raised == [e.raised[0]];
    }
  }

  lemma {:induction false} RaisedByDiagnostics(ds: seq<DiagnosticRow>, p: Pair, field: Field)
    ensures Raised(FlatMap(OfDiagnostic, ds), p, field)
         == if DiagnosticOf(field).Some? then DiagnosticsOf(ds, p, DiagnosticOf(field).value) else 0
  {
    if ds != [] {
      var front, last := ds[..|ds| - 1], ds[|ds| - 1];
      RaisedByDiagnostics(front, p, field);
      RaisedConcat(FlatMap(OfDiagnostic, front), OfDiagnostic(last), p, field);
      DiagnosticCounted(last, p, field);
    }
  }

  lemma RaisedByAll(cs: seq<CompletionRow>, fs: seq<FailureRow>, ds: seq<DiagnosticRow>, p: Pair, field: Field)
    ensures Raised(Events(cs, fs, ds), p, field)
         == (if field == SuccessCompletions then CompletionsOf(cs, p, true) else 0)
            + (if field == FailedCompletions then CompletionsOf(cs, p, false) else 0)
            + FailuresCounted(fs, p, field)
            + (if DiagnosticOf(field).Some? then DiagnosticsOf(ds, p, DiagnosticOf(field).value) else 0)
  {
    var a, b, c := FlatMap(OfCompletion, cs), FlatMap(OfFailure, fs), FlatMap(OfDiagnostic, ds);
    RaisedConcat(a + b, c, p, field);
    RaisedConcat(a, b, p, field);
    RaisedByCompletions(cs, p, field);
    RaisedByFailures(fs, p, field);
    RaisedByDiagnostics(ds, p, field);
  }

  /** What every number of a record counts. */
  lemma RecordContents(cs: seq<CompletionRow>, fs: seq<FailureRow>, ds: seq<DiagnosticRow>, p: Pair, field: Field)
    requires p in TableOf(Events(cs, fs, ds)).buckets
    ensures Value(TableOf(Events(cs, fs, ds)).buckets[p], field)
         == FailuresOf(fs, p, Named(field))
            + match field
              case LocalFep => p.localFep
              case PeerFep => p.peerFep
              case SuccessCompletions => CompletionsOf(cs, p, true)
              case FailedCompletions => CompletionsOf(cs, p, false)
              case CreditGateBlocked =>
                FailuresOf(fs, p, SendAdmissionBlocked) + FailuresOf(fs, p, WriteBudgetBlocked)
                + FailuresOf(fs, p, ReadResponseBudgetBlocked)
              case PeerQueueBlocked => DeferredOf(fs, p)
              case SendUnexpectedNoMatch => 0
              case ResponseTimeoutExhausted => 0
              case SendDispatchStarted => DiagnosticsOf(ds, p, DispatchStarted)
              case SendResponseClosedLive => DiagnosticsOf(ds, p, ClosedLiveRequest)
              case SendResponseAfterTerminal => DiagnosticsOf(ds, p, AfterTerminal)
              case SendRetryNoResponseProgress => DiagnosticsOf(ds, p, RetryNoResponseProgress)
  {
    RaisedByAll(cs, fs, ds, p, field);
  }

  /** Which pairs have a record: those that some row names. */
  lemma RecordedIff(cs: seq<CompletionRow>, fs: seq<FailureRow>, ds: seq<DiagnosticRow>, p: Pair)
    ensures p in TableOf(Events(cs, fs, ds)).buckets
       <==> || (exists row :: row in cs && row.localFep == p.localFep && row.peerFep == p.peerFep)
            || (exists row :: row in fs && row.localFep == p.localFep && row.peerFep == p.peerFep)
            || (exists row :: row in ds && row.name != OtherDiagnostic
                              && row.localFep == p.localFep && row.detailPeer == Some(p.peerFep))
  {
    var events := Events(cs, fs, ds);
    PairsOfHolds(events);
    FlatMapMembers(OfCompletion, cs);
    FlatMapMembers(OfFailure, fs);
    FlatMapMembers(OfDiagnostic, ds);
    if row :| row in cs && row.localFep == p.localFep && row.peerFep == p.peerFep {
      assert OfCompletion(row)[0] in OfCompletion(row) && OfCompletion(row)[0] in events;
    }
    if row :| row in fs && row.localFep == p.localFep && row.peerFep == p.peerFep {
      assert OfFailure(row)[0] in OfFailure(row) && OfFailure(row)[0] in events;
    }
    if row :| row in ds && row.name != OtherDiagnostic && row.localFep == p.localFep && row.detailPeer == Some(p.peerFep) {
      assert OfDiagnostic(row)[0] in OfDiagnostic(row) && OfDiagnostic(row)[0] in events;
    }
  }

  // ---------- the order of the rows ----------

  /** A pair is listed before another one for more timeouts, else more messages without a match, else more
      late responses, else a smaller local and then a smaller remote endpoint. */
  ghost predicate ListedBefore(a: Bucket, b: Bucket) {
    if Value(a, ResponseTimeoutExhausted) != Value(b, ResponseTimeoutExhausted)
    then Value(a, ResponseTimeoutExhausted) > Value(b, ResponseTimeoutExhausted)
    else if Value(a, SendUnexpectedNoMatch) != Value(b, SendUnexpectedNoMatch)
    then Value(a, SendUnexpectedNoMatch) > Value(b, SendUnexpectedNoMatch)
    else if Value(a, SendResponseAfterTerminal) != Value(b, SendResponseAfterTerminal)
    then Value(a, SendResponseAfterTerminal) > Value(b, SendResponseAfterTerminal)
    else if Value(a, LocalFep) != Value(b, LocalFep) then Value(a, LocalFep) < Value(b, LocalFep)
    else Value(a, PeerFep) <= Value(b, PeerFep)
  }

  lemma ListedByKey(a: Bucket, b: Bucket)
    requires NotAfter(a, b)
    ensures ListedBefore(a, b)
  {
    var x, y := SortKey(a), SortKey(b);
    var k := FirstDifference(x, y);
    assert k > 0 ==> x[0] == y[0];
    assert k > 1 ==> x[1] == y[1];
    assert k > 2 ==> x[2] == y[2];
    assert k > 3 ==> x[3] == y[3];
    assert k > 4 ==> x[4] == y[4];
  }

  lemma RowsListed(t: Table, i: nat, j: nat)
    requires i < j < |ReportOf(t).rows|
    ensures ListedBefore(ReportOf(t).rows[i], ReportOf(t).rows[j])
  {
    NotAfterOrders();
    SortSorts(NotAfter, RowsOf(t.buckets, t.order));
    ListedByKey(ReportOf(t).rows[i], ReportOf(t).rows[j]);
  }

  // ---------- the top pairs ----------

  /** No failure row's stage is a key of the record that identifies the pair. */
  predicate KeysUntouched(fs: seq<FailureRow>) {
    forall row :: row in fs ==> row.stage != Named(LocalFep) && row.stage != Named(PeerFep)
  }

  /** `top` is the pair with the largest count, and among those with as large a one the one with the smallest
      endpoints; there is none iff no pair has any. */
  ghost predicate IsTop(top: Option<Top>, count: Pair -> nat) {
    match top
    case None => forall p :: count(p) == 0
    case Some(t) =>
      && t.count > 0 && t.count == count(Pair(t.localFep, t.peerFep))
      && forall p: Pair :: RanksBelow(Top(p.localFep, p.peerFep, count(p)), t) || p == Pair(t.localFep, t.peerFep)
  }

  /** The counter holds this count for every pair. */
  ghost predicate Holds(t: Table, metric: Field, count: Pair -> nat) {
    forall p :: if p in t.buckets then Value(t.buckets[p], metric) == count(p) else count(p) == 0
  }

  lemma TopOfCount(t: Table, events: seq<Event>, metric: Field, count: Pair -> nat)
    requires Records(t, events) && KeysKept(events) && Holds(t, metric, count)
    ensures IsTop(TopPair(ReportOf(t).rows, metric), count)
  {
    TopPairIsMaximum(t, events, metric);
    var top := TopPair(ReportOf(t).rows, metric);
    if top.Some? {
      var winner := Pair(top.value.localFep, top.value.peerFep);
      forall p: Pair | p != winner
        ensures RanksBelow(Top(p.localFep, p.peerFep, count(p)), top.value)
      {
        if p in t.buckets {
          assert RanksBelow(TopOf(t, p, metric), top.value);
        }
      }
    }
  }

  lemma {:induction false} NoneCounted<T>(which: T -> bool, rows: seq<T>)
    requires forall row :: row in rows ==> !which(row)
    ensures CountWhere(which, rows) == 0
  {
    if rows != [] {
      assert rows[|rows| - 1] in rows;
      NoneCounted(which, rows[..|rows| - 1]);
    }
  }

  /** A pair without a record has no rows to count. */
  lemma NothingToCount(cs: seq<CompletionRow>, fs: seq<FailureRow>, ds: seq<DiagnosticRow>, p: Pair)
    requires p !in TableOf(Events(cs, fs, ds)).buckets
    ensures forall stage :: FailuresOf(fs, p, stage) == 0
    ensures DeferredOf(fs, p) == 0
    ensures forall name :: name != OtherDiagnostic ==> DiagnosticsOf(ds, p, name) == 0
  {
    RecordedIff(cs, fs, ds, p);
    forall stage
      ensures FailuresOf(fs, p, stage) == 0
    {
      NoneCounted(IsFailure(p, stage), fs);
    }
    NoneCounted(IsDeferred(p), fs);
    forall name | name != OtherDiagnostic
      ensures DiagnosticsOf(ds, p, name) == 0
    {
      NoneCounted(IsDiagnostic(p, name), ds);
    }
  }

  function TimeoutRows(fs: seq<FailureRow>): Pair -> nat {
    (p: Pair) => FailuresOf(fs, p, Named(ResponseTimeoutExhausted))
  }

  function NoMatchRows(fs: seq<FailureRow>): Pair -> nat {
    (p: Pair) => FailuresOf(fs, p, Named(SendUnexpectedNoMatch))
  }

  function LateResponseRows(fs: seq<FailureRow>, ds: seq<DiagnosticRow>): Pair -> nat {
    (p: Pair) => FailuresOf(fs, p, Named(SendResponseAfterTerminal)) + DiagnosticsOf(ds, p, AfterTerminal)
  }

  function PeerQueueRows(fs: seq<FailureRow>): Pair -> nat {
    (p: Pair) => FailuresOf(fs, p, Named(PeerQueueBlocked)) + DeferredOf(fs, p)
  }

  function LiveResponseRows(fs: seq<FailureRow>, ds: seq<DiagnosticRow>): Pair -> nat {
    (p: Pair) => FailuresOf(fs, p, Named(SendResponseClosedLive)) + DiagnosticsOf(ds, p, ClosedLiveRequest)
  }

  lemma FailureCountersHold(cs: seq<CompletionRow>, fs: seq<FailureRow>, ds: seq<DiagnosticRow>)
    ensures var t := TableOf(Events(cs, fs, ds));
            && Holds(t, ResponseTimeoutExhausted, TimeoutRows(fs)) && Holds(t, SendUnexpectedNoMatch, NoMatchRows(fs))
            && Holds(t, PeerQueueBlocked, PeerQueueRows(fs))
  {
    var t := TableOf(Events(cs, fs, ds));
    forall p
      ensures if p in t.buckets
              then && Value(t.buckets[p], ResponseTimeoutExhausted) == TimeoutRows(fs)(p)
                   && Value(t.buckets[p], SendUnexpectedNoMatch) == NoMatchRows(fs)(p)
                   && Value(t.buckets[p], PeerQueueBlocked) == PeerQueueRows(fs)(p)
              else TimeoutRows(fs)(p) == 0 && NoMatchRows(fs)(p) == 0 && PeerQueueRows(fs)(p) == 0
    {
      if p in t.buckets {
        RecordContents(cs, fs, ds, p, ResponseTimeoutExhausted);
        RecordContents(cs, fs, ds, p, SendUnexpectedNoMatch);
        RecordContents(cs, fs, ds, p, PeerQueueBlocked);
      } else {
        NothingToCount(cs, fs, ds, p);
      }
    }
  }

  lemma ResponseCountersHold(cs: seq<CompletionRow>, fs: seq<FailureRow>, ds: seq<DiagnosticRow>)
    ensures var t := TableOf(Events(cs, fs, ds));
            && Holds(t, SendResponseAfterTerminal, LateResponseRows(fs, ds))
            && Holds(t, SendResponseClosedLive, LiveResponseRows(fs, ds))
  {
    var t := TableOf(Events(cs, fs, ds));
    forall p
      ensures if p in t.buckets
              then && Value(t.buckets[p], SendResponseAfterTerminal) == LateResponseRows(fs, ds)(p)
                   && Value(t.buckets[p], SendResponseClosedLive) == LiveResponseRows(fs, ds)(p)
              else LateResponseRows(fs, ds)(p) == 0 && LiveResponseRows(fs, ds)(p) == 0
    {
      if p in t.buckets {
        RecordContents(cs, fs, ds, p, SendResponseAfterTerminal);
        RecordContents(cs, fs, ds, p, SendResponseClosedLive);
      } else {
        NothingToCount(cs, fs, ds, p);
      }
    }
  }

  /** The five top pairs of a report, in terms of the rows they count. */
  lemma TopPairs(cs: seq<CompletionRow>, fs: seq<FailureRow>, ds: seq<DiagnosticRow>)
    requires KeysUntouched(fs)
    ensures var report := ReportOf(TableOf(Events(cs, fs, ds)));
            && IsTop(report.timeout, TimeoutRows(fs)) && IsTop(report.noMatch, NoMatchRows(fs))
            && IsTop(report.lateResponse, LateResponseRows(fs, ds)) && IsTop(report.peerQueue, PeerQueueRows(fs))
            && IsTop(report.liveResponse, LiveResponseRows(fs, ds))
  {
    var events := Events(cs, fs, ds);
    var t := TableOf(events);
    KeysKeptIff(cs, fs, ds);
    FailureCountersHold(cs, fs, ds);
    ResponseCountersHold(cs, fs, ds);
    TopOfCount(t, events, ResponseTimeoutExhausted, TimeoutRows(fs));
    TopOfCount(t, events, SendUnexpectedNoMatch, NoMatchRows(fs));
    TopOfCount(t, events, SendResponseAfterTerminal, LateResponseRows(fs, ds));
    TopOfCount(t, events, PeerQueueBlocked, PeerQueueRows(fs));
    TopOfCount(t, events, SendResponseClosedLive, LiveResponseRows(fs, ds));
  }

  lemma SomeCounted(t: Table, events: seq<Event>, metric: Field, count: Pair -> nat)
    requires Records(t, events) && Holds(t, metric, count)
    ensures TopPair(ReportOf(t).rows, metric).Some? <==> exists p :: count(p) > 0
  {
    TopPairExistsIff(t, events, metric);
  }

  /** Whatever the stages, a top pair is named iff some pair has rows to count. */
  lemma TopPairsExist(cs: seq<CompletionRow>, fs: seq<FailureRow>, ds: seq<DiagnosticRow>)
    ensures var report := ReportOf(TableOf(Events(cs, fs, ds)));
            && (report.timeout.Some? <==> exists p :: TimeoutRows(fs)(p) > 0)
            && (report.noMatch.Some? <==> exists p :: NoMatchRows(fs)(p) > 0)
            && (report.lateResponse.Some? <==> exists p :: LateResponseRows(fs, ds)(p) > 0)
            && (report.peerQueue.Some? <==> exists p :: PeerQueueRows(fs)(p) > 0)
            && (report.liveResponse.Some? <==> exists p :: LiveResponseRows(fs, ds)(p) > 0)
  {
    var events := Events(cs, fs, ds);
    var t := TableOf(events);
    FailureCountersHold(cs, fs, ds);
    ResponseCountersHold(cs, fs, ds);
    SomeCounted(t, events, ResponseTimeoutExhausted, TimeoutRows(fs));
    SomeCounted(t, events, SendUnexpectedNoMatch, NoMatchRows(fs));
    SomeCounted(t, events, SendResponseAfterTerminal, LateResponseRows(fs, ds));
    SomeCounted(t, events, PeerQueueBlocked, PeerQueueRows(fs));
    SomeCounted(t, events, SendResponseClosedLive, LiveResponseRows(fs, ds));
  }

  /** The loops over the three logs. */
  method BuildPeerPairProgress(cs: seq<CompletionRow>, fs: seq<FailureRow>, ds: seq<DiagnosticRow>)
    returns (report: Report)
    ensures report == ReportOf(TableOf(Events(cs, fs, ds)))
    ensures forall i, j :: 0 <= i < j < |report.rows| ==> ListedBefore(report.rows[i], report.rows[j])
    ensures KeysUntouched(fs) ==>
              && IsTop(report.timeout, TimeoutRows(fs)) && IsTop(report.noMatch, NoMatchRows(fs))
              && IsTop(report.lateResponse, LateResponseRows(fs, ds)) && IsTop(report.peerQueue, PeerQueueRows(fs))
              && IsTop(report.liveResponse, LiveResponseRows(fs, ds))
  {
    var pairs := new PairTable();
    AbsorbCompletions(pairs, cs);
    AbsorbFailures(pairs, fs, FlatMap(OfCompletion, cs));
    AbsorbDiagnostics(pairs, ds, FlatMap(OfCompletion, cs) + FlatMap(OfFailure, fs));
    TableDetermined(pairs.Content(), Events(cs, fs, ds));
    report := ReportOf(Table(pairs.order, pairs.buckets));
    if KeysUntouched(fs) {
      TopPairs(cs, fs, ds);
    }
    forall i, j | 0 <= i < j < |report.rows|
      ensures ListedBefore(report.rows[i], report.rows[j])
    {
      RowsListed(TableOf(Events(cs, fs, ds)), i, j);
    }
  }
}
