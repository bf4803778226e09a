/**
 `build_peer_pair_progress` of performance/soft_ue_truth_benchmark_lib.py: what happened between every
 pair of endpoints, gathered from three logs.

 A failure row names the counter to raise in its Stage column, and any key of the pair's record will
 do. `ConservationLaw` counts completions exactly, `ConservedIff` says when they are conserved, and
 `RecordNamesPairIff` when a record still names its pair.
 */
module PeerPairs {
  import opened Basics
  import opened Bags
  import opened Sorting
  import opened TupleOrder

  datatype Pair = Pair(localFep: int, peerFep: int)

  /** The keys of a pair's record. */
  datatype Field =
    | LocalFep
    | PeerFep
    | SuccessCompletions
    | FailedCompletions
    | CreditGateBlocked
    | PeerQueueBlocked
    | SendUnexpectedNoMatch
    | ResponseTimeoutExhausted
    | SendDispatchStarted
    | SendResponseClosedLive
    | SendResponseAfterTerminal
    | SendRetryNoResponseProgress

  /** The Stage column: the name of a key, one of three names for a blocked credit gate, or neither. */
  datatype Stage =
    | Named(field: Field)
    | SendAdmissionBlocked
    | WriteBudgetBlocked
    | ReadResponseBudgetBlocked
    | OtherStage(text: string)

  datatype CompletionRow = CompletionRow(localFep: int, peerFep: int, success: int)

  datatype FailureRow = FailureRow(localFep: int, peerFep: int, stage: Stage, deferredForPeerQueue: bool)

  /** The four diagnostics that are counted, and all others. */
  datatype DiagnosticName =
    | DispatchStarted
    | ClosedLiveRequest
    | AfterTerminal
    | RetryNoResponseProgress
    | OtherDiagnostic

  /** `detailPeer` is the peer found in the Detail column, if it has the expected form. */
  datatype DiagnosticRow = DiagnosticRow(localFep: int, name: DiagnosticName, detailPeer: Option<int>)

  type Bucket = map<Field, int>

  /** A Python dictionary: its keys in insertion order, and its content. */
  datatype Table = Table(order: seq<Pair>, buckets: map<Pair, Bucket>)

  // ---------- rows as events ----------

  /** What a row does: it names a pair and raises some of its counters. */
  datatype Event = Event(pair: Pair, raised: seq<Field>)

  function OfCompletion(row: CompletionRow): seq<Event> {
    [Event(Pair(row.localFep, row.peerFep), [if row.success != 0 then SuccessCompletions else FailedCompletions])]
  }

  function CounterOf(stage: Stage): seq<Field> {
    match stage
    case Named(field) => [field]
    case OtherStage(_) => []
    case _ => [CreditGateBlocked]
  }

  function OfFailure(row: FailureRow): seq<Event> {
    [Event(Pair(row.localFep, row.peerFep),
           CounterOf(row.stage) + if row.deferredForPeerQueue then [PeerQueueBlocked] else [])]
  }

  function OfDiagnostic(row: DiagnosticRow): seq<Event> {
    if row.name == OtherDiagnostic || row.detailPeer == None then []
    else
      [Event(Pair(row.localFep, row.detailPeer.value),
             [match row.name
              case DispatchStarted => SendDispatchStarted
              case ClosedLiveRequest => SendResponseClosedLive
              case AfterTerminal => SendResponseAfterTerminal
              case _ => SendRetryNoResponseProgress])]
  }

  function Events(cs: seq<CompletionRow>, fs: seq<FailureRow>, ds: seq<DiagnosticRow>): seq<Event> {
    FlatMap(OfCompletion, cs) + FlatMap(OfFailure, fs) + FlatMap(OfDiagnostic, ds)
  }

  // ---------- the table ----------

  function Initial(pair: Pair, field: Field): int {
    if field == LocalFep then pair.localFep else if field == PeerFep then pair.peerFep else 0
  }

  function EmptyBucket(pair: Pair): Bucket {
    map[
      LocalFep := pair.localFep, PeerFep := pair.peerFep, SuccessCompletions := 0, FailedCompletions := 0,
      CreditGateBlocked := 0, PeerQueueBlocked := 0, SendUnexpectedNoMatch := 0, ResponseTimeoutExhausted := 0,
      SendDispatchStarted := 0, SendResponseClosedLive := 0, SendResponseAfterTerminal := 0,
      SendRetryNoResponseProgress := 0]
  }

  lemma EmptyBucketHolds(pair: Pair, field: Field)
    ensures field in EmptyBucket(pair) && EmptyBucket(pair)[field] == Initial(pair, field)
  {
    match field {
      case LocalFep => case PeerFep => case SuccessCompletions => case FailedCompletions =>
      case CreditGateBlocked => case PeerQueueBlocked => case SendUnexpectedNoMatch =>
      case ResponseTimeoutExhausted => case SendDispatchStarted => case SendResponseClosedLive =>
      case SendResponseAfterTerminal => case SendRetryNoResponseProgress =>
    }
  }

  function CountField(fields: seq<Field>, field: Field): nat {
    if fields == [] then 0
    else CountField(fields[..|fields| - 1], field) + if fields[|fields| - 1] == field then 1 else 0
  }

  /** How often the events raise a pair's counter. */
  ghost function Raised(events: seq<Event>, pair: Pair, field: Field): int {
    TotalOf((e: Event) => if e.pair == pair then CountField(e.raised, field) else 0, events)
  }

  ghost predicate Mentions(events: seq<Event>, pair: Pair) {
    exists e :: e in events && e.pair == pair
  }

  /** The pairs in the order in which the events first mention them. */
  ghost function PairsOf(events: seq<Event>): seq<Pair> {
    if events == [] then []
    else
      var before, pair := PairsOf(events[..|events| - 1]), events[|events| - 1].pair;
      if pair in before then before else before + [pair]
  }

  lemma {:induction false} PairsOfHolds(events: seq<Event>)
    ensures NoDuplicates(PairsOf(events))
    ensures forall pair :: pair in PairsOf(events) <==> Mentions(events, pair)
  {
    if events != [] {
      var front, last := events[..|events| - 1], events[|events| - 1];
      PairsOfHolds(front);
      assert events == front + [last];
      forall pair {
        MentionsNext(front, last, pair);
      }
    }
  }

  lemma PairsOfNext(events: seq<Event>, event: Event)
    ensures PairsOf(events + [event])
         == if event.pair in PairsOf(events) then PairsOf(events) else PairsOf(events) + [event.pair]
  {
    assert (events + [event])[..|events|] == events;
  }

  /** What the table has to hold after the events. */
  ghost predicate Records(t: Table, events: seq<Event>) {
    && t.order == PairsOf(events)
    && (forall pair :: pair in t.buckets <==> pair in t.order)
    && forall pair, field: Field :: pair in t.buckets ==>
         field in t.buckets[pair] && t.buckets[pair][field] == Initial(pair, field) + Raised(events, pair, field)
  }

  /** The table with the records of the events. */
  ghost function TableOf(events: seq<Event>): (t: Table)
    ensures Records(t, events)
  {
    EveryField();
    Table(PairsOf(events),
          map pair | pair in PairsOf(events) ::
            map field | field in EmptyBucket(pair) :: Initial(pair, field) + Raised(events, pair, field))
  }

  lemma EveryField()
    ensures forall pair: Pair, field: Field :: field in EmptyBucket(pair)
  {
    forall pair: Pair, field: Field
      ensures field in EmptyBucket(pair)
    {
      EmptyBucketHolds(pair, field);
    }
  }

  lemma TableDetermined(t: Table, events: seq<Event>)
    requires Records(t, events)
    ensures t == TableOf(events)
  {
    var t' := TableOf(events);
    forall pair | pair in t.buckets
      ensures t.buckets[pair] == t'.buckets[pair]
    {
      assert pair in t'.buckets;
      assert forall field: Field :: t.buckets[pair][field] == t'.buckets[pair][field];
    }
    assert t.buckets == t'.buckets;
  }

  class PairTable {
    var order: seq<Pair>
    var buckets: map<Pair, Bucket>

    ghost function Content(): Table
      reads this
    {
      Table(order, buckets)
    }

    constructor ()
      ensures Records(Content(), [])
    {
      order, buckets := [], map[];
    }

    /** `ensure`, then one `+= 1` for every counter the row raises. */
    method Absorb(event: Event, ghost events: seq<Event>)
      requires Records(Content(), events)
      modifies this
      ensures Records(Content(), events + [event])
    {
      var pair := event.pair;
      if pair !in buckets {
        order := order + [pair];
        buckets := buckets[pair := EmptyBucket(pair)];
        forall field {
          EmptyBucketHolds(pair, field);
        }
        PairsOfHolds(events);
        assert !Mentions(events, pair);
        NothingRaised(events, pair);
      }
      var bucket := Raise(buckets[pair], event.raised);
      buckets := buckets[pair := bucket];
      forall p, field: Field
        ensures Raised(events + [event], p, field)
             == Raised(events, p, field) + if p == pair then CountField(event.raised, field) else 0
      {
        RaisedNext(events, event, p, field);
      }
      PairsOfNext(events, event);
    }
  }

  method Raise(bucket: Bucket, fields: seq<Field>) returns (r: Bucket)
    requires forall field: Field :: field in bucket
    ensures forall field: Field :: field in r && r[field] == bucket[field] + CountField(fields, field)
  {
    r := bucket;
    for i := 0 to |fields|
      invariant forall field: Field :: field in r && r[field] == bucket[field] + CountField(fields[..i], field)
    {
      assert fields[..i + 1][..i] == fields[..i];
      r := r[fields[i] := r[fields[i]] + 1];
    }
    assert fields[..|fields|] == fields;
  }

  lemma RaisedNext(events: seq<Event>, event: Event, pair: Pair, field: Field)
    ensures Raised(events + [event], pair, field)
         == Raised(events, pair, field) + if event.pair == pair then CountField(event.raised, field) else 0
  {
    assert (events + [event])[..|events|] == events;
  }

  lemma {:induction false} NothingRaised(events: seq<Event>, pair: Pair)
    requires !Mentions(events, pair)
    ensures forall field :: Raised(events, pair, field) == 0
  {
    if events != [] {
      var front, last := events[..|events| - 1], events[|events| - 1];
      assert events == front + [last];
      MentionsNext(front, last, pair);
      NothingRaised(front, pair);
      forall field {
        RaisedNext(front, last, pair, field);
      }
    }
  }

  lemma MentionsNext(events: seq<Event>, event: Event, pair: Pair)
    ensures Mentions(events + [event], pair) <==> Mentions(events, pair) || pair == event.pair
  {
    assert event in events + [event];
    if e :| e in events && e.pair == pair {
      assert e in events + [event];
    }
  }

  // ---------- the report ----------

  datatype Top = Top(localFep: int, peerFep: int, count: int)

  datatype Report = Report(
    rows: seq<Bucket>, timeout: Option<Top>, noMatch: Option<Top>, lateResponse: Option<Top>,
    peerQueue: Option<Top>, liveResponse: Option<Top>)

  function Value(bucket: Bucket, field: Field): int {
    if field in bucket then bucket[field] else 0
  }

  function SortKey(b: Bucket): seq<int> {
    [-Value(b, ResponseTimeoutExhausted), -Value(b, SendUnexpectedNoMatch), -Value(b, SendResponseAfterTerminal),
     Value(b, LocalFep), Value(b, PeerFep)]
  }

  predicate NotAfter(a: Bucket, b: Bucket) {
    TupleAtMost(SortKey(a), SortKey(b))
  }

  function RowOf(buckets: map<Pair, Bucket>, pair: Pair): seq<Bucket> {
    if pair in buckets then [buckets[pair]] else []
  }

  function RowsOf(buckets: map<Pair, Bucket>, order: seq<Pair>): seq<Bucket> {
    FlatMap((pair: Pair) => RowOf(buckets, pair), order)
  }

  function MaxKey(b: Bucket, metric: Field): seq<int> {
    [Value(b, metric), -Value(b, LocalFep), -Value(b, PeerFep)]
  }

  /** Python's `max`: the first of the largest. */
  function Best(rows: seq<Bucket>, metric: Field): Bucket
    requires rows != []
  {
    if |rows| == 1 then rows[0]
    else
      var best, row := Best(rows[..|rows| - 1], metric), rows[|rows| - 1];
      if TupleAtMost(MaxKey(row, metric), MaxKey(best, metric)) then best else row
  }

  function TopPair(rows: seq<Bucket>, metric: Field): Option<Top> {
    if rows == [] then None
    else
      var best := Best(rows, metric);
      if Value(best, metric) <= 0 then None
      else Some(Top(Value(best, LocalFep), Value(best, PeerFep), Value(best, metric)))
  }

  function ReportOf(t: Table): Report {
    var rows := Sort(NotAfter, RowsOf(t.buckets, t.order));
    Report(rows, TopPair(rows, ResponseTimeoutExhausted), TopPair(rows, SendUnexpectedNoMatch),
           TopPair(rows, SendResponseAfterTerminal), TopPair(rows, PeerQueueBlocked), TopPair(rows, SendResponseClosedLive))
  }

  method AbsorbCompletions(pairs: PairTable, cs: seq<CompletionRow>)
    requires Records(pairs.Content(), [])
    modifies pairs
    ensures Records(pairs.Content(), FlatMap(OfCompletion, cs))
  {
    for i := 0 to |cs|
      invariant Records(pairs.Content(), FlatMap(OfCompletion, cs[..i]))
    {
      assert cs[..i + 1][..i] == cs[..i];
      pairs.Absorb(OfCompletion(cs[i])[0], FlatMap(OfCompletion, cs[..i]));
    }
    assert cs[..|cs|] == cs;
  }

  method AbsorbFailures(pairs: PairTable, fs: seq<FailureRow>, ghost before: seq<Event>)
    requires Records(pairs.Content(), before)
    modifies pairs
    ensures Records(pairs.Content(), before + FlatMap(OfFailure, fs))
  {
    assert before + [] == before;
    for i := 0 to |fs|
      invariant Records(pairs.Content(), before + FlatMap(OfFailure, fs[..i]))
    {
      assert fs[..i + 1][..i] == fs[..i];
      var event := OfFailure(fs[i])[0];
      pairs.Absorb(event, before + FlatMap(OfFailure, fs[..i]));
      assert before + FlatMap(OfFailure, fs[..i]) + [event] == before + FlatMap(OfFailure, fs[..i + 1]);
    }
    assert fs[..|fs|] == fs;
  }

  method AbsorbDiagnostics(pairs: PairTable, ds: seq<DiagnosticRow>, ghost before: seq<Event>)
    requires Records(pairs.Content(), before)
    modifies pairs
    ensures Records(pairs.Content(), before + FlatMap(OfDiagnostic, ds))
  {
    assert before + [] == before;
    for i := 0 to |ds|
      invariant Records(pairs.Content(), before + FlatMap(OfDiagnostic, ds[..i]))
    {
      assert ds[..i + 1][..i] == ds[..i];
      var event := OfDiagnostic(ds[i]);
      ghost var soFar := before + FlatMap(OfDiagnostic, ds[..i]);
      assert before + FlatMap(OfDiagnostic, ds[..i + 1]) == soFar + event;
      if event == [] {
        assert soFar + [] == soFar;
        continue;
      }
      assert event == [event[0]];
      pairs.Absorb(event[0], soFar);
    }
    assert ds[..|ds|] == ds;
  }

  // ---------- conservation ----------

  ghost function TotalField(t: Table, field: Field): int {
    TotalOf((pair: Pair) => if pair in t.buckets then Value(t.buckets[pair], field) else 0, t.order)
  }

  ghost function TotalRaised(events: seq<Event>, field: Field): int {
    TotalOf((e: Event) => CountField(e.raised, field), events)
  }

  /** Adding up pair by pair is adding up event by event. */
  lemma {:induction false} SumByPairs(order: seq<Pair>, events: seq<Event>, field: Field)
    requires NoDuplicates(order) && forall e :: e in events ==> e.pair in order
    ensures TotalOf((pair: Pair) => Raised(events, pair, field), order) == TotalRaised(events, field)
  {
    if events == [] {
      NothingTotal((pair: Pair) => Raised(events, pair, field), order);
    } else {
      var front, last := events[..|events| - 1], events[|events| - 1];
      assert events == front + [last];
      SumByPairs(order, front, field);
      forall pair {
        RaisedNext(front, last, pair, field);
      }
      TotalUpdate((pair: Pair) => Raised(front, pair, field), (pair: Pair) => Raised(events, pair, field), order, last.pair);
    }
  }

  lemma NothingTotal(f: Pair -> int, order: seq<Pair>)
    requires forall pair :: f(pair) == 0
    ensures TotalOf(f, order) == 0
  {
    TotalNonNegative(f, order);
    TotalMonotone(f, (pair: Pair) => 0, order);
    TotalConstant(order);
  }

  lemma {:induction false} TotalConstant(order: seq<Pair>)
    ensures TotalOf((pair: Pair) => 0, order) == 0
  {
    if order != [] {
      TotalConstant(order[..|order| - 1]);
    }
  }

  /** The records together hold exactly what the events raised. */
  lemma FieldTotal(t: Table, events: seq<Event>, field: Field)
    requires Records(t, events) && field != LocalFep && field != PeerFep
    ensures TotalField(t, field) == TotalRaised(events, field)
  {
    PairsOfHolds(events);
    var held := (pair: Pair) => if pair in t.buckets then Value(t.buckets[pair], field) else 0;
    var raised := (pair: Pair) => Raised(events, pair, field);
    forall pair | pair in t.order
      ensures held(pair) == raised(pair)
    {
      assert pair in t.buckets;
    }
    TotalMonotone(held, raised, t.order);
    TotalMonotone(raised, held, t.order);
    forall e | e in events
      ensures e.pair in t.order
    {
      assert Mentions(events, e.pair);
    }
    SumByPairs(t.order, events, field);
  }

  predicate NamesCompletion(row: FailureRow) {
    row.stage == Named(SuccessCompletions) || row.stage == Named(FailedCompletions)
  }

  /** Failure rows whose Stage is the name of a completion counter. */
  ghost function Miscounted(fs: seq<FailureRow>): int {
    TotalOf((row: FailureRow) => if NamesCompletion(row) then 1 else 0, fs)
  }

  ghost function Completions(events: seq<Event>): int {
    TotalRaised(events, SuccessCompletions) + TotalRaised(events, FailedCompletions)
  }

  lemma CompletionsConcat(a: seq<Event>, b: seq<Event>)
    ensures Completions(a + b) == Completions(a) + Completions(b)
  {
    TotalConcat((e: Event) => CountField(e.raised, SuccessCompletions), a, b);
    TotalConcat((e: Event) => CountField(e.raised, FailedCompletions), a, b);
  }

  lemma CompletionsOne(e: Event)
    ensures Completions([e]) == CountField(e.raised, SuccessCompletions) + CountField(e.raised, FailedCompletions)
  {
    TotalOfOne((x: Event) => CountField(x.raised, SuccessCompletions), e);
    TotalOfOne((x: Event) => CountField(x.raised, FailedCompletions), e);
  }

  lemma CountOne(field: Field, other: Field)
    ensures CountField([other], field) == if other == field then 1 else 0
    ensures CountField([other, PeerQueueBlocked], field)
         == (if other == field then 1 else 0) + if field == PeerQueueBlocked then 1 else 0
    ensures CountField([], field) == 0
  {
    assert [other][..0] == [] && [other, PeerQueueBlocked][..1] == [other];
  }

  lemma {:induction false} CompletionEvents(cs: seq<CompletionRow>)
    ensures Completions(FlatMap(OfCompletion, cs)) == |cs|
  {
    if cs != [] {
      var front, last := cs[..|cs| - 1], cs[|cs| - 1];
      CompletionEvents(front);
      CompletionsConcat(FlatMap(OfCompletion, front), OfCompletion(last));
      CompletionsOne(OfCompletion(last)[0]);
      CountOne(SuccessCompletions, OfCompletion(last)[0].raised[0]);
      CountOne(FailedCompletions, OfCompletion(last)[0].raised[0]);
    }
  }

  lemma FailureCompletions(row: FailureRow)
    ensures Completions(OfFailure(row)) == if NamesCompletion(row) then 1 else 0
  {
    var e := OfFailure(row)[0];
    CompletionsOne(e);
    var counter := if |CounterOf(row.stage)| == 1 then CounterOf(row.stage)[0] else PeerQueueBlocked;
    CountOne(SuccessCompletions, counter);
    CountOne(FailedCompletions, counter);
    assert e.raised == [] || e.raised == [counter] || e.raised == [counter, PeerQueueBlocked];
  }

  lemma {:induction false} FailureEvents(fs: seq<FailureRow>)
    ensures Completions(FlatMap(OfFailure, fs)) == Miscounted(fs)
  {
    if fs != [] {
      var front, last := fs[..|fs| - 1], fs[|fs| - 1];
      FailureEvents(front);
      CompletionsConcat(FlatMap(OfFailure, front), OfFailure(last));
      FailureCompletions(last);
    }
  }

  lemma {:induction false} DiagnosticEvents(ds: seq<DiagnosticRow>)
    ensures Completions(FlatMap(OfDiagnostic, ds)) == 0
  {
    if ds != [] {
      var front, last := ds[..|ds| - 1], ds[|ds| - 1];
      DiagnosticEvents(front);
      CompletionsConcat(FlatMap(OfDiagnostic, front), OfDiagnostic(last));
      if OfDiagnostic(last) != [] {
        var e := OfDiagnostic(last)[0];
        assert OfDiagnostic(last) == [e];
        CompletionsOne(e);
        CountOne(SuccessCompletions, e.raised[0]);
        CountOne(FailedCompletions, e.raised[0]);
      }
    }
  }

  /** Over all pairs, completions add up to the completion rows and the miscounted failure rows. */
  lemma ConservationLaw(t: Table, cs: seq<CompletionRow>, fs: seq<FailureRow>, ds: seq<DiagnosticRow>)
    requires Records(t, Events(cs, fs, ds))
    ensures TotalField(t, SuccessCompletions) + TotalField(t, FailedCompletions) == |cs| + Miscounted(fs)
  {
    var a, b, c := FlatMap(OfCompletion, cs), FlatMap(OfFailure, fs), FlatMap(OfDiagnostic, ds);
    FieldTotal(t, Events(cs, fs, ds), SuccessCompletions);
    FieldTotal(t, Events(cs, fs, ds), FailedCompletions);
    CompletionsConcat(a + b, c);
    CompletionsConcat(a, b);
    CompletionEvents(cs);
    FailureEvents(fs);
    DiagnosticEvents(ds);
  }

  /** Completions are conserved exactly when no failure row names a completion counter as its stage. */
  lemma ConservedIff(t: Table, cs: seq<CompletionRow>, fs: seq<FailureRow>, ds: seq<DiagnosticRow>)
    requires Records(t, Events(cs, fs, ds))
    ensures TotalField(t, SuccessCompletions) + TotalField(t, FailedCompletions) == |cs|
       <==> forall row :: row in fs ==> !NamesCompletion(row)
  {
    ConservationLaw(t, cs, fs, ds);
    MiscountedZeroIff(fs);
  }

  lemma {:induction false} MiscountedZeroIff(fs: seq<FailureRow>)
    ensures Miscounted(fs) >= 0
    ensures Miscounted(fs) == 0 <==> forall row :: row in fs ==> !NamesCompletion(row)
  {
    if fs != [] {
      var front, last := fs[..|fs| - 1], fs[|fs| - 1];
      MiscountedZeroIff(front);
      assert fs == front + [last];
    }
  }

  // ---------- the order of the rows ----------

  /** No failure row names a key of the record that identifies the pair. */
  ghost predicate KeysKept(events: seq<Event>) {
    forall e :: e in events ==> LocalFep !in e.raised && PeerFep !in e.raised
  }

  /** No event of the pair raises the field. */
  ghost predicate NeverRaised(events: seq<Event>, pair: Pair, field: Field) {
    forall e :: e in events && e.pair == pair ==> field !in e.raised
  }

  lemma {:induction false} CountedIff(fields: seq<Field>, field: Field)
    ensures CountField(fields, field) == 0 <==> field !in fields
  {
    if fields != [] {
      var front, last := fields[..|fields| - 1], fields[|fields| - 1];
      CountedIff(front, field);
      assert fields == front + [last];
    }
  }

  lemma {:induction false} RaisedIff(events: seq<Event>, pair: Pair, field: Field)
    ensures Raised(events, pair, field) >= 0
    ensures Raised(events, pair, field) == 0 <==> NeverRaised(events, pair, field)
  {
    if events != [] {
      var front, last := events[..|events| - 1], events[|events| - 1];
      assert events == front + [last];
      RaisedIff(front, pair, field);
      RaisedNext(front, last, pair, field);
      CountedIff(last.raised, field);
    }
  }

  /** A record names its pair exactly when no event of that pair raises one of the two keys that do. */
  lemma RecordNamesPairIff(t: Table, events: seq<Event>, pair: Pair)
    requires Records(t, events) && pair in t.buckets
    ensures Value(t.buckets[pair], LocalFep) == pair.localFep && Value(t.buckets[pair], PeerFep) == pair.peerFep
       <==> NeverRaised(events, pair, LocalFep) && NeverRaised(events, pair, PeerFep)
  {
    RaisedIff(events, pair, LocalFep);
    RaisedIff(events, pair, PeerFep);
  }

  lemma RecordNamesPair(t: Table, events: seq<Event>, pair: Pair)
    requires Records(t, events) && KeysKept(events) && pair in t.buckets
    ensures Value(t.buckets[pair], LocalFep) == pair.localFep && Value(t.buckets[pair], PeerFep) == pair.peerFep
  {
    RecordNamesPairIff(t, events, pair);
  }

  lemma {:induction false} RowsFromTable(buckets: map<Pair, Bucket>, order: seq<Pair>)
    ensures forall row :: row in RowsOf(buckets, order) <==>
              exists pair :: pair in order && pair in buckets && row == buckets[pair]
  {
    if order != [] {
      var front, last := order[..|order| - 1], order[|order| - 1];
      RowsFromTable(buckets, front);
      assert order == front + [last];
      assert RowsOf(buckets, order) == RowsOf(buckets, front) + RowOf(buckets, last);
    }
  }

  lemma NotAfterOrders()
    ensures TotalPreorder(NotAfter)
  {
    KeyedPreorder(NotAfter, SortKey);
  }

  lemma SameEventsSameBuckets(t: Table, t': Table, events: seq<Event>, events': seq<Event>)
    requires Records(t, events) && Records(t', events') && multiset(events) == multiset(events')
    ensures t.buckets == t'.buckets && multiset(t.order) == multiset(t'.order)
  {
    PairsOfHolds(events);
    PairsOfHolds(events');
    forall pair
      ensures pair in t.order <==> pair in t'.order
    {
      SameMentions(events, events', pair);
    }
    SameMembersSameBag(t.order, t'.order);
    forall pair | pair in t.buckets
      ensures t.buckets[pair] == t'.buckets[pair]
    {
      forall field: Field
        ensures field in t.buckets[pair] && field in t'.buckets[pair]
        ensures t.buckets[pair][field] == t'.buckets[pair][field]
      {
        TotalOrderFree((e: Event) => if e.pair == pair then CountField(e.raised, field) else 0, events, events');
      }
    }
  }

  lemma SameMentions(events: seq<Event>, events': seq<Event>, pair: Pair)
    requires multiset(events) == multiset(events')
    ensures Mentions(events, pair) <==> Mentions(events', pair)
  {
    assert forall e :: e in events <==> e in multiset(events);
    assert forall e :: e in events' <==> e in multiset(events');
  }

  lemma SameRowsSameEvents(cs: seq<CompletionRow>, cs': seq<CompletionRow>, fs: seq<FailureRow>, fs': seq<FailureRow>,
                           ds: seq<DiagnosticRow>, ds': seq<DiagnosticRow>)
    requires multiset(cs) == multiset(cs') && multiset(fs) == multiset(fs') && multiset(ds) == multiset(ds')
    ensures multiset(Events(cs, fs, ds)) == multiset(Events(cs', fs', ds'))
  {
    FlatMapOrderFree(OfCompletion, cs, cs');
    FlatMapOrderFree(OfFailure, fs, fs');
    FlatMapOrderFree(OfDiagnostic, ds, ds');
  }

  lemma KeysKeptSplit(a: seq<Event>, b: seq<Event>)
    ensures KeysKept(a + b) <==> KeysKept(a) && KeysKept(b)
  {
    assert forall e :: e in a + b <==> e in a || e in b;
  }

  lemma {:induction false} KeysKeptByOthers(cs: seq<CompletionRow>, ds: seq<DiagnosticRow>)
    ensures KeysKept(FlatMap(OfCompletion, cs)) && KeysKept(FlatMap(OfDiagnostic, ds))
  {
    FlatMapMembers(OfCompletion, cs);
    FlatMapMembers(OfDiagnostic, ds);
  }

  lemma KeysKeptByFailures(fs: seq<FailureRow>)
    ensures KeysKept(FlatMap(OfFailure, fs))
       <==> forall row :: row in fs ==> row.stage != Named(LocalFep) && row.stage != Named(PeerFep)
  {
    FlatMapMembers(OfFailure, fs);
    forall row | row in fs && (row.stage == Named(LocalFep) || row.stage == Named(PeerFep))
      ensures !KeysKept(FlatMap(OfFailure, fs))
    {
      var e := OfFailure(row)[0];
      assert e in OfFailure(row) && e.raised[0] == row.stage.field;
    }
  }

  /** Only failure rows can break the condition, and only by such a Stage. */
  lemma KeysKeptIff(cs: seq<CompletionRow>, fs: seq<FailureRow>, ds: seq<DiagnosticRow>)
    ensures KeysKept(Events(cs, fs, ds))
       <==> forall row :: row in fs ==> row.stage != Named(LocalFep) && row.stage != Named(PeerFep)
  {
    var a, b, c := FlatMap(OfCompletion, cs), FlatMap(OfFailure, fs), FlatMap(OfDiagnostic, ds);
    KeysKeptSplit(a + b, c);
    KeysKeptSplit(a, b);
    KeysKeptByOthers(cs, ds);
    KeysKeptByFailures(fs);
  }

  // ---------- the top pairs ----------

  /** No row has a larger key. */
  ghost predicate IsLargest(rows: seq<Bucket>, metric: Field, best: Bucket) {
    forall row :: row in rows ==> TupleAtMost(MaxKey(row, metric), MaxKey(best, metric))
  }

  lemma LargestNext(front: seq<Bucket>, metric: Field, best: Bucket, last: Bucket, next: Bucket)
    requires IsLargest(front, metric, best)
    requires next == if TupleAtMost(MaxKey(last, metric), MaxKey(best, metric)) then best else last
    ensures IsLargest(front + [last], metric, next)
  {
    TupleTotal(MaxKey(last, metric), MaxKey(best, metric));
    TupleTotal(MaxKey(last, metric), MaxKey(last, metric));
    forall row | row in front
      ensures TupleAtMost(MaxKey(row, metric), MaxKey(next, metric))
    {
      if next == last {
        TupleTransitive(MaxKey(row, metric), MaxKey(best, metric), MaxKey(last, metric));
      }
    }
  }

  lemma {:induction false} BestIsLargest(rows: seq<Bucket>, metric: Field)
    requires rows != []
    ensures Best(rows, metric) in rows && IsLargest(rows, metric, Best(rows, metric))
  {
    var front, last := rows[..|rows| - 1], rows[|rows| - 1];
    assert rows == front + [last];
    if front == [] {
      TupleTotal(MaxKey(last, metric), MaxKey(last, metric));
    } else {
      BestIsLargest(front, metric);
      LargestNext(front, metric, Best(front, metric), last, Best(rows, metric));
    }
  }

  /** `a` ranks below `b`: a smaller count, or an equal one and later in the order of pairs. */
  ghost predicate RanksBelow(a: Top, b: Top) {
    a.count < b.count
    || (a.count == b.count && (a.localFep > b.localFep || (a.localFep == b.localFep && a.peerFep > b.peerFep)))
  }

  ghost function TopOf(t: Table, pair: Pair, metric: Field): Top
    requires pair in t.buckets
  {
    Top(pair.localFep, pair.peerFep, Value(t.buckets[pair], metric))
  }

  /** There is a top pair exactly when some pair has a positive count. */
  lemma TopPairExistsIff(t: Table, events: seq<Event>, metric: Field)
    requires Records(t, events)
    ensures TopPair(ReportOf(t).rows, metric).Some?
       <==> exists pair :: pair in t.buckets && Value(t.buckets[pair], metric) > 0
  {
    var rows := ReportOf(t).rows;
    RowsOfReport(t);
    if rows != [] {
      BestIsLargest(rows, metric);
      forall pair | pair in t.buckets
        ensures Value(t.buckets[pair], metric) <= Value(Best(rows, metric), metric)
      {
        RanksByKey(t.buckets[pair], Best(rows, metric), metric);
      }
      var winner :| winner in t.buckets && Best(rows, metric) == t.buckets[winner];
    }
  }

  /** A top pair is the one maximum under its tie-break; there is none iff no pair has a positive count. */
  lemma TopPairIsMaximum(t: Table, events: seq<Event>, metric: Field)
    requires Records(t, events) && KeysKept(events)
    ensures match TopPair(ReportOf(t).rows, metric)
            case None => forall pair :: pair in t.buckets ==> Value(t.buckets[pair], metric) <= 0
            case Some(top) =>
              var winner := Pair(top.localFep, top.peerFep);
              && winner in t.buckets && top == TopOf(t, winner, metric) && top.count > 0
              && forall pair :: pair in t.buckets && pair != winner ==> RanksBelow(TopOf(t, pair, metric), top)
  {
    var rows := ReportOf(t).rows;
    RowsOfReport(t);
    if rows != [] {
      BestIsLargest(rows, metric);
      var best := Best(rows, metric);
      var winner :| winner in t.buckets && best == t.buckets[winner];
      RecordNamesPair(t, events, winner);
      forall pair | pair in t.buckets
        ensures Value(t.buckets[pair], metric) <= Value(best, metric)
        ensures pair != winner ==> RanksBelow(TopOf(t, pair, metric), TopOf(t, winner, metric))
      {
        RecordNamesPair(t, events, pair);
        RanksByKey(t.buckets[pair], best, metric);
      }
    }
  }

  /** The rows of the report are the records of the table. */
  lemma RowsOfReport(t: Table)
    requires forall pair :: pair in t.buckets <==> pair in t.order
    ensures forall pair :: pair in t.buckets ==> t.buckets[pair] in ReportOf(t).rows
    ensures forall row :: row in ReportOf(t).rows ==> exists pair :: pair in t.buckets && row == t.buckets[pair]
  {
    SortPermutes(NotAfter, RowsOf(t.buckets, t.order));
    RowsFromTable(t.buckets, t.order);
  }

  lemma RanksByKey(a: Bucket, b: Bucket, metric: Field)
    requires TupleAtMost(MaxKey(a, metric), MaxKey(b, metric))
    ensures var x := Top(Value(a, LocalFep), Value(a, PeerFep), Value(a, metric));
            var y := Top(Value(b, LocalFep), Value(b, PeerFep), Value(b, metric));
            x == y || RanksBelow(x, y)
  {
    var x, y := MaxKey(a, metric), MaxKey(b, metric);
    TupleHead(x, y);
    if x[0] == y[0] {
      TupleHead(x[1..], y[1..]);
      if x[1] == y[1] {
        TupleHead(x[1..][1..], y[1..][1..]);
      }
    }
  }
}
