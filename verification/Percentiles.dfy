/**
 `percentile_or_zero` and the send-stage report of performance/soft_ue_truth_benchmark_lib.py.

 A percentile interpolates linearly between two neighbours of the sorted list and rounds. It is shown
 to grow with the percentile across the interpolation cells, to grow with the data, and to ignore the
 order of the rows; the report inherits all three.
 */
module Percentiles {
  import opened Sorting
  import opened Rounding
  import opened Bags

  predicate AtMost(x: real, y: real) {
    x <= y
  }

  lemma MulNonNegative(x: real, y: real)
    requires x >= 0.0 && y >= 0.0
    ensures x * y >= 0.0
  {
  }

  /** The fractional position of a percentile among `n` sorted values. */
  function Rank(n: nat, percentile: real): (rank: real)
    requires n > 0 && 0.0 <= percentile <= 1.0
    ensures 0.0 <= rank <= (n - 1) as real
  {
    MulNonNegative((n - 1) as real, percentile);
    MulNonNegative((n - 1) as real, 1.0 - percentile);
    (n - 1) as real * percentile
  }

  lemma RankMonotone(n: nat, p: real, p': real)
    requires n > 0 && 0.0 <= p <= p' <= 1.0
    ensures Rank(n, p) <= Rank(n, p')
  {
    MulNonNegative((n - 1) as real, p' - p);
  }

  function Interpolate(ordered: seq<real>, rank: real): real
    requires ordered != [] && 0.0 <= rank <= (|ordered| - 1) as real
  {
    var lower := rank.Floor;
    var upper := if lower + 1 < |ordered| - 1 then lower + 1 else |ordered| - 1;
    var weight := rank - lower as real;
    ordered[lower] * (1.0 - weight) + ordered[upper] * weight
  }

  /** The rounded interpolation of a sorted, non-empty list. */
  function AtRank(ordered: seq<real>, rank: real): real
    requires ordered != [] && 0.0 <= rank <= (|ordered| - 1) as real
  {
    Round6(Interpolate(ordered, rank))
  }

  function PercentileOrZero(values: seq<real>, percentile: real): real
    requires 0.0 <= percentile <= 1.0
  {
    if values == [] then 0.0
    else
      SortPermutes(AtMost, values);
      var ordered := Sort(AtMost, values);
      if |ordered| == 1 then Round6(ordered[0]) else AtRank(ordered, Rank(|ordered|, percentile))
  }

  lemma SingleValue(ordered: seq<real>, rank: real)
    requires |ordered| == 1 && rank == 0.0
    ensures AtRank(ordered, rank) == Round6(ordered[0])
  {
    assert Interpolate(ordered, rank) == ordered[0];
  }

  /** The single-value branch is no special case. */
  lemma PercentileIsInterpolation(values: seq<real>, percentile: real)
    requires values != [] && 0.0 <= percentile <= 1.0
    ensures |Sort(AtMost, values)| == |values| && Sorted(AtMost, Sort(AtMost, values))
    ensures PercentileOrZero(values, percentile) == AtRank(Sort(AtMost, values), Rank(|values|, percentile))
  {
    SortPermutes(AtMost, values);
    SortSorts(AtMost, values);
    if |values| == 1 {
      SingleValue(Sort(AtMost, values), Rank(1, percentile));
    }
  }

  /** `s` is the list in order. */
  ghost predicate IsSorting(values: seq<real>, s: seq<real>) {
    multiset(s) == multiset(values) && forall i, j :: 0 <= i < j < |s| ==> s[i] <= s[j]
  }

  lemma SortingUnique(values: seq<real>, s: seq<real>)
    requires IsSorting(values, s)
    ensures Sort(AtMost, values) == s
  {
    SortPermutes(AtMost, values);
    SortSorts(AtMost, values);
    SortedUnique(AtMost, Sort(AtMost, values), s);
  }

  /** A percentile interpolates: with the values in order, the position `p * (n - 1)` between two neighbours
      divides them, from either side. */
  lemma PercentileInterpolates(values: seq<real>, p: real, s: seq<real>, k: nat, w: real)
    requires IsSorting(values, s) && k + 1 < |s| && 0.0 <= w <= 1.0 && 0.0 <= p <= 1.0
    requires p * (|s| - 1) as real == k as real + w
    ensures PercentileOrZero(values, p) == Round6(s[k] + (s[k + 1] - s[k]) * w)
  {
    PercentileAt(values, p, s);
    PositionIs(s, p, k, w);
  }

  lemma PositionIs(s: seq<real>, p: real, k: nat, w: real)
    requires k + 1 < |s| && 0.0 <= w <= 1.0 && 0.0 <= p <= 1.0
    requires p * (|s| - 1) as real == k as real + w
    ensures AtRank(s, Rank(|s|, p)) == Round6(s[k] + (s[k + 1] - s[k]) * w)
  {
    RankIs(|s|, p, k as real + w);
    AtRankIs(s, k as real + w, k, w);
  }

  lemma PercentileAt(values: seq<real>, p: real, s: seq<real>)
    requires IsSorting(values, s) && s != [] && 0.0 <= p <= 1.0
    ensures PercentileOrZero(values, p) == AtRank(s, Rank(|s|, p))
  {
    SortingUnique(values, s);
    assert |values| == |multiset(values)| == |multiset(s)| == |s|;
    PercentileIsInterpolation(values, p);
  }

  lemma RankIs(n: nat, p: real, rank: real)
    requires n > 0 && 0.0 <= p <= 1.0 && p * (n - 1) as real == rank
    ensures Rank(n, p) == rank
  {
  }

  lemma AtRankIs(s: seq<real>, rank: real, k: nat, w: real)
    requires k + 1 < |s| && 0.0 <= w <= 1.0 && rank == k as real + w
    ensures AtRank(s, rank) == Round6(s[k] + (s[k + 1] - s[k]) * w)
  {
    if w == 1.0 {
      assert rank.Floor == k + 1;
      assert Interpolate(s, rank) == s[k + 1];
    } else {
      assert rank.Floor == k && rank - k as real == w;
      Weighted(s[k], s[k + 1], w);
      assert Interpolate(s, rank) == s[k] * (1.0 - w) + s[k + 1] * w;
    }
  }

  lemma Weighted(a: real, b: real, w: real)
    ensures a * (1.0 - w) + b * w == a + (b - a) * w
  {
  }

  /** Without values the percentile is 0, and of a single one it is that value. */
  lemma FewValues(values: seq<real>, p: real)
    requires 0.0 <= p <= 1.0
    ensures |values| == 0 ==> PercentileOrZero(values, p) == 0.0
    ensures |values| == 1 ==> PercentileOrZero(values, p) == Round6(values[0])
  {
    if |values| == 1 {
      SortingUnique(values, values);
    }
  }

  // ---------- monotone in the percentile ----------

  /** Within one cell. */
  lemma CellMonotone(a: real, b: real, w: real, w': real)
    requires a <= b && w <= w'
    ensures a * (1.0 - w) + b * w <= a * (1.0 - w') + b * w'
  {
    MulNonNegative(b - a, w' - w);
    assert (a * (1.0 - w') + b * w') - (a * (1.0 - w) + b * w) == (b - a) * (w' - w);
  }

  lemma InterpolateInCell(ordered: seq<real>, rank: real)
    requires Sorted(AtMost, ordered)
    requires ordered != [] && 0.0 <= rank <= (|ordered| - 1) as real
    ensures ordered[rank.Floor] <= Interpolate(ordered, rank)
    ensures rank.Floor + 1 < |ordered| ==> Interpolate(ordered, rank) <= ordered[rank.Floor + 1]
    ensures rank.Floor + 1 == |ordered| ==> Interpolate(ordered, rank) == ordered[rank.Floor]
  {
    var lower := rank.Floor;
    var w := rank - lower as real;
    if lower + 1 < |ordered| {
      assert AtMost(ordered[lower], ordered[lower + 1]);
      CellMonotone(ordered[lower], ordered[lower + 1], 0.0, w);
      CellMonotone(ordered[lower], ordered[lower + 1], w, 1.0);
    }
  }

  lemma InterpolateMonotone(ordered: seq<real>, rank: real, rank': real)
    requires Sorted(AtMost, ordered)
    requires ordered != [] && 0.0 <= rank <= rank' <= (|ordered| - 1) as real
    ensures Interpolate(ordered, rank) <= Interpolate(ordered, rank')
  {
    var k, k' := rank.Floor, rank'.Floor;
    InterpolateInCell(ordered, rank);
    InterpolateInCell(ordered, rank');
    if k == k' {
      if k + 1 < |ordered| {
        assert AtMost(ordered[k], ordered[k + 1]);
        CellMonotone(ordered[k], ordered[k + 1], rank - k as real, rank' - k as real);
      }
    } else {
      assert k + 1 == k' || AtMost(ordered[k + 1], ordered[k']);
    }
  }

  lemma AtRankMonotone(ordered: seq<real>, rank: real, rank': real)
    requires Sorted(AtMost, ordered)
    requires ordered != [] && 0.0 <= rank <= rank' <= (|ordered| - 1) as real
    ensures AtRank(ordered, rank) <= AtRank(ordered, rank')
  {
    InterpolateMonotone(ordered, rank, rank');
    RoundMonotone(Interpolate(ordered, rank), Interpolate(ordered, rank'));
  }

  /** A higher percentile is never smaller, whatever cells the two ranks fall into. */
  lemma PercentileMonotone(values: seq<real>, p: real, p': real)
    requires 0.0 <= p <= p' <= 1.0
    ensures PercentileOrZero(values, p) <= PercentileOrZero(values, p')
  {
    if values != [] {
      PercentileIsInterpolation(values, p);
      PercentileIsInterpolation(values, p');
      RankMonotone(|values|, p, p');
      AtRankMonotone(Sort(AtMost, values), Rank(|values|, p), Rank(|values|, p'));
    }
  }

  /** The two ends are the rounded extremes. */
  lemma PercentileEnds(values: seq<real>) returns (lo: real, hi: real)
    requires values != []
    ensures lo in values && PercentileOrZero(values, 0.0) == Round6(lo)
    ensures hi in values && PercentileOrZero(values, 1.0) == Round6(hi)
    ensures forall x :: x in values ==> lo <= x <= hi
  {
    var ordered := Sort(AtMost, values);
    var n := |values|;
    PercentileIsInterpolation(values, 0.0);
    PercentileIsInterpolation(values, 1.0);
    SortPermutes(AtMost, values);
    lo, hi := ordered[0], ordered[n - 1];
    assert Rank(n, 0.0) == 0.0 && Rank(n, 1.0) == (n - 1) as real;
    InterpolateInCell(ordered, Rank(n, 1.0));
    assert Interpolate(ordered, 0.0) == lo;
    forall x | x in values
      ensures lo <= x <= hi
    {
      var k :| 0 <= k < n && ordered[k] == x;
      assert k == 0 || AtMost(ordered[0], ordered[k]);
      assert k == n - 1 || AtMost(ordered[k], ordered[n - 1]);
    }
  }

  // ---------- monotone in the data ----------

  /** Position by position, `a` is at most `b`. */
  ghost predicate Dominated(a: seq<real>, b: seq<real>) {
    |a| == |b| && forall i :: 0 <= i < |a| ==> a[i] <= b[i]
  }

  lemma DominatedTail(a: seq<real>, b: seq<real>)
    requires Dominated(a, b) && a != []
    ensures a[0] <= b[0] && Dominated(a[1..], b[1..])
  {
  }

  lemma DominatedCons(x: real, a: seq<real>, y: real, b: seq<real>)
    requires x <= y && Dominated(a, b)
    ensures Dominated([x] + a, [y] + b)
  {
  }

  lemma InsertSmallest(s: seq<real>)
    requires Sorted(AtMost, s) && s != []
    ensures Insert(AtMost, s[0], s[1..]) == s
    ensures Sorted(AtMost, s[1..])
  {
    assert |s| == 1 || AtMost(s[0], s[1]);
    assert s == [s[0]] + s[1..];
  }

  lemma {:induction false} InsertDominated(x: real, a: seq<real>, y: real, b: seq<real>)
    requires Sorted(AtMost, a) && Sorted(AtMost, b) && Dominated(a, b) && x <= y
    ensures Dominated(Insert(AtMost, x, a), Insert(AtMost, y, b))
    decreases |a|
  {
    if a != [] {
      DominatedTail(a, b);
      InsertSmallest(a);
      InsertSmallest(b);
      // each list is the insertion of its own head, so the four cases are one
      var x', y' := if x <= a[0] then a[0] else x, if y <= b[0] then b[0] else y;
      InsertDominated(x', a[1..], y', b[1..]);
      DominatedCons(if x <= a[0] then x else a[0], Insert(AtMost, x', a[1..]),
                    if y <= b[0] then y else b[0], Insert(AtMost, y', b[1..]));
    }
  }

  /** Sorting preserves domination. */
  lemma {:induction false} SortDominated(a: seq<real>, b: seq<real>)
    requires Dominated(a, b)
    ensures Dominated(Sort(AtMost, a), Sort(AtMost, b))
  {
    if a != [] {
      DominatedTail(a, b);
      SortDominated(a[1..], b[1..]);
      SortSorts(AtMost, a[1..]);
      SortSorts(AtMost, b[1..]);
      InsertDominated(a[0], Sort(AtMost, a[1..]), b[0], Sort(AtMost, b[1..]));
    }
  }

  lemma InterpolateDominated(a: seq<real>, b: seq<real>, rank: real)
    requires Dominated(a, b) && a != [] && 0.0 <= rank <= (|a| - 1) as real
    ensures Interpolate(a, rank) <= Interpolate(b, rank)
  {
    var lower := rank.Floor;
    var upper := if lower + 1 < |a| - 1 then lower + 1 else |a| - 1;
    var w := rank - lower as real;
    MulNonNegative(b[lower] - a[lower], 1.0 - w);
    MulNonNegative(b[upper] - a[upper], w);
    assert (b[lower] - a[lower]) * (1.0 - w) == b[lower] * (1.0 - w) - a[lower] * (1.0 - w);
    assert (b[upper] - a[upper]) * w == b[upper] * w - a[upper] * w;
  }

  lemma AtRankDominated(a: seq<real>, b: seq<real>, rank: real)
    requires Dominated(a, b) && a != [] && 0.0 <= rank <= (|a| - 1) as real
    ensures AtRank(a, rank) <= AtRank(b, rank)
  {
    InterpolateDominated(a, b, rank);
    RoundMonotone(Interpolate(a, rank), Interpolate(b, rank));
  }

  /** Samples that are larger one by one have a larger percentile. */
  lemma PercentileDominated(xs: seq<real>, ys: seq<real>, p: real)
    requires Dominated(xs, ys) && 0.0 <= p <= 1.0
    ensures PercentileOrZero(xs, p) <= PercentileOrZero(ys, p)
  {
    if xs != [] {
      PercentileIsInterpolation(xs, p);
      PercentileIsInterpolation(ys, p);
      SortDominated(xs, ys);
      AtRankDominated(Sort(AtMost, xs), Sort(AtMost, ys), Rank(|xs|, p));
    }
  }

  /** A percentile lies between the rounded bounds of the data. */
  lemma PercentileBounded(values: seq<real>, p: real, lo: real, hi: real)
    requires values != [] && 0.0 <= p <= 1.0
    requires forall x :: x in values ==> lo <= x <= hi
    ensures Round6(lo) <= PercentileOrZero(values, p) <= Round6(hi)
  {
    var least, greatest := PercentileEnds(values);
    PercentileMonotone(values, 0.0, p);
    PercentileMonotone(values, p, 1.0);
    RoundMonotone(lo, least);
    RoundMonotone(greatest, hi);
  }

  lemma PercentileOrderFree(xs: seq<real>, ys: seq<real>, p: real)
    requires multiset(xs) == multiset(ys) && 0.0 <= p <= 1.0
    ensures PercentileOrZero(xs, p) == PercentileOrZero(ys, p)
  {
    assert |xs| == |multiset(xs)| == |multiset(ys)| == |ys|;
    SortOrderFree(AtMost, xs, ys);
    if xs != [] {
      PercentileIsInterpolation(xs, p);
      PercentileIsInterpolation(ys, p);
    }
  }

  // ---------- the send-stage report ----------

  /** The measured columns of a send. */
  datatype Metric =
    | Dispatch
    | DispatchWaitForAdmission
    | DispatchAfterAdmissionToFirstSend
    | DispatchAttemptCount
    | DispatchBudgetBlockCount
    | BlockedQueueEnqueueCount
    | BlockedQueueRedispatchCount
    | BlockedQueueWaitTotal
    | BlockedQueueWaitPeak
    | AdmissionReleaseSeenCount
    | BlockedQueueWakeupCount
    | RedispatchFailAfterWakeupCount
    | RedispatchSuccessAfterWakeupCount
    | AdmissionReleaseToWakeupTotal
    | AdmissionReleaseToWakeupPeak
    | WakeupToRedispatchTotal
    | WakeupToRedispatchPeak
    | Inflight
    | ReceiveConsume
    | Closeout
    | EndToEnd

  datatype Statistic = P50 | P95 | P99 | Mean

  /** A column that is absent or empty reads as 0. */
  datatype StageRow = StageRow(jobId: int, msgId: int, peerFep: int, payloadBytes: int, columns: map<Metric, int>) {
    function Value(m: Metric): int {
      if m in columns then columns[m] else 0
    }
  }

  datatype CompletionRow = CompletionRow(opcode: string, success: int, sendStageValid: int, stage: StageRow)

  datatype SendStageSummary = SendStageSummary(sampleCount: nat, figures: map<(Metric, Statistic), real>)

  /** Which statistics the summary has for a metric. */
  predicate Reported(m: Metric, s: Statistic) {
    match m
    case Dispatch | Inflight | ReceiveConsume | Closeout | EndToEnd => true
    case DispatchWaitForAdmission | DispatchAfterAdmissionToFirstSend => s != Mean
    case BlockedQueueWaitTotal | BlockedQueueWaitPeak
       | AdmissionReleaseToWakeupTotal | AdmissionReleaseToWakeupPeak
       | WakeupToRedispatchTotal | WakeupToRedispatchPeak => s == P50 || s == P95
    case _ => s == P95 || s == Mean
  }

  predicate Retained(row: CompletionRow) {
    row.opcode == "send" && row.success != 0 && row.sendStageValid != 0
  }

  function StageOf(row: CompletionRow): seq<StageRow> {
    if Retained(row) then [row.stage] else []
  }

  /** The columns of the retained rows, in row order: `at` holds the positions of the successful, valid sends. */
  method BuildSendStageLatency(rows: seq<CompletionRow>) returns (result: seq<StageRow>, ghost at: seq<nat>)
    ensures result == FlatMap(StageOf, rows)
    ensures |at| == |result| && forall k :: 0 <= k < |at| ==> at[k] < |rows| && result[k] == rows[at[k]].stage
    ensures forall j, k :: 0 <= j < k < |at| ==> at[j] < at[k]
    ensures forall i :: 0 <= i < |rows| ==>
              (i in at <==> rows[i].opcode == "send" && rows[i].success != 0 && rows[i].sendStageValid != 0)
  {
    result, at := [], [];
    for i := 0 to |rows|
      invariant result == FlatMap(StageOf, rows[..i])
      invariant |at| == |result| && forall k :: 0 <= k < |at| ==> at[k] < i && result[k] == rows[at[k]].stage
      invariant forall j, k :: 0 <= j < k < |at| ==> at[j] < at[k]
      invariant forall n :: 0 <= n < i ==>
                  (n in at <==> rows[n].opcode == "send" && rows[n].success != 0 && rows[n].sendStageValid != 0)
    {
      assert rows[..i + 1][..i] == rows[..i];
      if rows[i].opcode != "send" {
        continue;
      }
      if rows[i].success == 0 || rows[i].sendStageValid == 0 {
        continue;
      }
      result, at := result + [rows[i].stage], at + [i];
    }
    assert rows[..|rows|] == rows;
  }

  function Values(stages: seq<StageRow>, m: Metric): seq<real> {
    seq(|stages|, i requires 0 <= i < |stages| => stages[i].Value(m) as real)
  }

  function Identity(x: real): real {
    x
  }

  function MeanOrZero(values: seq<real>): real {
    if values == [] then 0.0 else Round6(SumOf(Identity, values) / |values| as real)
  }

  function Figure(values: seq<real>, s: Statistic): real {
    match s
    case P50 => PercentileOrZero(values, 0.50)
    case P95 => PercentileOrZero(values, 0.95)
    case P99 => PercentileOrZero(values, 0.99)
    case Mean => MeanOrZero(values)
  }

  ghost predicate IsSummary(stages: seq<StageRow>, summary: SendStageSummary) {
    && summary.sampleCount == |stages|
    && (forall m: Metric, s: Statistic :: (m, s) in summary.figures <==> Reported(m, s))
    && forall m: Metric, s: Statistic :: Reported(m, s) ==> summary.figures[(m, s)] == Figure(Values(stages, m), s)
  }

  method AggregateSendStageRows(rows: seq<CompletionRow>) returns (summary: SendStageSummary)
    ensures IsSummary(FlatMap(StageOf, rows), summary)
  {
    var stages, _ := BuildSendStageLatency(rows);
    summary := SendStageSummary(
      |stages|, map m: Metric, s: Statistic | Reported(m, s) :: (m, s) := Figure(Values(stages, m), s));
  }

  lemma {:induction false} SumOfValues(stages: seq<StageRow>, m: Metric)
    ensures SumOf(Identity, Values(stages, m)) == TotalOf((stage: StageRow) => stage.Value(m), stages) as real
  {
    if stages != [] {
      var front := stages[..|stages| - 1];
      SumOfValues(front, m);
      assert Values(stages, m)[..|stages| - 1] == Values(front, m);
    }
  }

  /** Which percentiles the summary holds, and its means. */
  lemma FiguresOfMetric(stages: seq<StageRow>, summary: SendStageSummary, m: Metric)
    requires IsSummary(stages, summary)
    ensures Reported(m, P50) ==> summary.figures[(m, P50)] == PercentileOrZero(Values(stages, m), 0.50)
    ensures Reported(m, P95) ==> summary.figures[(m, P95)] == PercentileOrZero(Values(stages, m), 0.95)
    ensures Reported(m, P99) ==> summary.figures[(m, P99)] == PercentileOrZero(Values(stages, m), 0.99)
    ensures Reported(m, Mean) ==>
              summary.figures[(m, Mean)]
              == if stages == [] then 0.0
                 else Round6(TotalOf((stage: StageRow) => stage.Value(m), stages) as real / |stages| as real)
  {
    SumOfValues(stages, m);
  }

  const DURATIONS: set<Metric> := {Dispatch, Inflight, ReceiveConsume, Closeout, EndToEnd}

  const WAITS: set<Metric> := {DispatchWaitForAdmission, DispatchAfterAdmissionToFirstSend}

  const COUNTS: set<Metric> := {
    DispatchAttemptCount, DispatchBudgetBlockCount, BlockedQueueEnqueueCount, BlockedQueueRedispatchCount,
    AdmissionReleaseSeenCount, BlockedQueueWakeupCount, RedispatchFailAfterWakeupCount,
    RedispatchSuccessAfterWakeupCount}

  /** Every metric has its 95th percentile, all but the counts the median, the durations and waits the 99th
      percentile, and the durations and counts the mean. */
  lemma ReportedStatistics(m: Metric)
    ensures Reported(m, P95)
    ensures Reported(m, P50) <==> m !in COUNTS
    ensures Reported(m, P99) <==> m in DURATIONS + WAITS
    ensures Reported(m, Mean) <==> m in DURATIONS + COUNTS
  {
  }

  lemma {:induction false} SumDominated(a: seq<real>, b: seq<real>)
    requires Dominated(a, b)
    ensures SumOf(Identity, a) <= SumOf(Identity, b)
  {
    if a != [] {
      SumDominated(a[..|a| - 1], b[..|b| - 1]);
    }
  }

  lemma DivideMonotone(x: real, y: real, n: nat)
    requires x <= y && n > 0
    ensures x / n as real <= y / n as real
  {
  }

  /** Larger values have a larger figure, whatever the statistic. */
  lemma FigureDominated(xs: seq<real>, ys: seq<real>, s: Statistic)
    requires Dominated(xs, ys)
    ensures Figure(xs, s) <= Figure(ys, s)
  {
    PercentileDominated(xs, ys, 0.50);
    PercentileDominated(xs, ys, 0.95);
    PercentileDominated(xs, ys, 0.99);
    if xs != [] {
      SumDominated(xs, ys);
      DivideMonotone(SumOf(Identity, xs), SumOf(Identity, ys), |xs|);
      RoundMonotone(SumOf(Identity, xs) / |xs| as real, SumOf(Identity, ys) / |ys| as real);
    }
  }

  /** When one metric is at most another in every retained send, so is every figure that both report. */
  lemma SummaryDominated(rows: seq<CompletionRow>, summary: SendStageSummary, m: Metric, m': Metric, s: Statistic)
    requires IsSummary(FlatMap(StageOf, rows), summary) && Reported(m, s) && Reported(m', s)
    requires forall row :: row in rows && Retained(row) ==> row.stage.Value(m) <= row.stage.Value(m')
    ensures summary.figures[(m, s)] <= summary.figures[(m', s)]
  {
    var stages := FlatMap(StageOf, rows);
    FlatMapMembers(StageOf, rows);
    assert forall i :: 0 <= i < |stages| ==> stages[i] in stages;
    FigureDominated(Values(stages, m), Values(stages, m'), s);
  }

  /** When no send finishes before it has been in flight, no end-to-end figure is below its in-flight one. */
  lemma EndToEndDominatesInflight(rows: seq<CompletionRow>, summary: SendStageSummary, s: Statistic)
    requires IsSummary(FlatMap(StageOf, rows), summary)
    requires forall row :: row in rows && Retained(row) ==> row.stage.Value(Inflight) <= row.stage.Value(EndToEnd)
    ensures summary.figures[(Inflight, s)] <= summary.figures[(EndToEnd, s)]
  {
    SummaryDominated(rows, summary, Inflight, EndToEnd, s);
  }

  /** Every metric reports p50 <= p95 <= p99, as far as it reports them. */
  lemma ReportOrdered(stages: seq<StageRow>, summary: SendStageSummary, m: Metric)
    requires IsSummary(stages, summary)
    ensures Reported(m, P50) ==> Reported(m, P95) && summary.figures[(m, P50)] <= summary.figures[(m, P95)]
    ensures Reported(m, P99) ==> Reported(m, P95) && summary.figures[(m, P95)] <= summary.figures[(m, P99)]
  {
    PercentileMonotone(Values(stages, m), 0.50, 0.95);
    PercentileMonotone(Values(stages, m), 0.95, 0.99);
  }

  lemma FigureOrderFree(xs: seq<real>, ys: seq<real>, s: Statistic)
    requires multiset(xs) == multiset(ys)
    ensures Figure(xs, s) == Figure(ys, s)
  {
    PercentileOrderFree(xs, ys, 0.50);
    PercentileOrderFree(xs, ys, 0.95);
    PercentileOrderFree(xs, ys, 0.99);
    SumOrderFree(Identity, xs, ys);
    assert |xs| == |multiset(xs)| == |multiset(ys)| == |ys|;
  }

  lemma {:induction false} ValuesAreFlatMap(stages: seq<StageRow>, m: Metric)
    ensures Values(stages, m) == FlatMap((stage: StageRow) => [stage.Value(m) as real], stages)
  {
    if stages != [] {
      var front := stages[..|stages| - 1];
      ValuesAreFlatMap(front, m);
      assert Values(stages, m) == Values(front, m) + [stages[|stages| - 1].Value(m) as real];
    }
  }

  /** The whole send-stage summary ignores the order of the completion rows. */
  lemma SummaryOrderFree(rows: seq<CompletionRow>, rows': seq<CompletionRow>,
                         summary: SendStageSummary, summary': SendStageSummary)
    requires multiset(rows) == multiset(rows')
    requires IsSummary(FlatMap(StageOf, rows), summary) && IsSummary(FlatMap(StageOf, rows'), summary')
    ensures summary == summary'
  {
    var a, b := FlatMap(StageOf, rows), FlatMap(StageOf, rows');
    FlatMapOrderFree(StageOf, rows, rows');
    assert |a| == |multiset(a)| == |multiset(b)| == |b|;
    forall m: Metric, s: Statistic | Reported(m, s)
      ensures summary.figures[(m, s)] == summary'.figures[(m, s)]
    {
      ValuesAreFlatMap(a, m);
      ValuesAreFlatMap(b, m);
      FlatMapOrderFree((stage: StageRow) => [stage.Value(m) as real], a, b);
      FigureOrderFree(Values(a, m), Values(b, m), s);
    }
    FiguresDetermined(summary.figures, summary'.figures);
  }

  lemma FiguresDetermined(figures: map<(Metric, Statistic), real>, figures': map<(Metric, Statistic), real>)
    requires forall m: Metric, s: Statistic :: (m, s) in figures <==> Reported(m, s)
    requires forall m: Metric, s: Statistic :: (m, s) in figures' <==> Reported(m, s)
    requires forall m: Metric, s: Statistic :: Reported(m, s) ==> figures[(m, s)] == figures'[(m, s)]
    ensures figures == figures'
  {
    forall k
      ensures k in figures <==> k in figures'
      ensures k in figures ==> figures[k] == figures'[k]
    {
      assert k == (k.0, k.1);
      assert Reported(k.0, k.1) || !Reported(k.0, k.1);
    }
    assert figures.Keys == figures'.Keys;
  }
}
