/**
 The end of `execute_run` in performance/soft_ue_truth_benchmark_lib.py: the completion rows of a window
 are added up, put beside the device counters of `ProtocolTotals`, and the run gets its verdict.
 */
module RunVerdict {
  import opened Basics
  import opened Bags
  import opened Rounding
  import opened ProtocolTotals
  import Percentiles

  /** A parsed completion row. */
  datatype CompletionRow = CompletionRow(opcode: string, timeNs: int, success: int, payloadBytes: int, latencyNs: int)

  const OPCODES: seq<string> := ["send", "write", "read"]

  function CompletionTime(row: CompletionRow): int {
    row.timeNs
  }

  predicate Succeeded(row: CompletionRow) {
    row.success != 0
  }

  // ---------- what is counted ----------

  function One(row: CompletionRow): int {
    if Succeeded(row) then 1 else 0
  }

  function Payload(row: CompletionRow): int {
    if Succeeded(row) then row.payloadBytes else 0
  }

  function OneOf(opcode: string): CompletionRow -> int {
    (row: CompletionRow) => if row.opcode == opcode then One(row) else 0
  }

  function PayloadOf(opcode: string): CompletionRow -> int {
    (row: CompletionRow) => if row.opcode == opcode then Payload(row) else 0
  }

  function LatencyOf(row: CompletionRow): seq<real> {
    if Succeeded(row) then [row.latencyNs as real / 1000.0] else []
  }

  datatype CompletionTotals = CompletionTotals(
    rows: nat, successRows: int, successPayloadBytes: int, goodputMbps: real,
    completions: map<string, int>, payloads: map<string, int>, goodputs: map<string, real>,
    latencyP50: real, latencyP95: real, latencyP99: real)

  /** Payload per second of simulated time; 0 when no time is simulated. */
  function GoodputMbps(bytes: int, seconds: real): real {
    if seconds > 0.0 then Round6((bytes * 8) as real / seconds / 1000000.0) else 0.0
  }

  /** The part for all opcodes together, for the rows so far. */
  ghost predicate CountedInAll(successRows: int, payload: int, latencies: seq<real>, rows: seq<CompletionRow>) {
    && successRows == TotalOf(One, rows) && payload == TotalOf(Payload, rows)
    && latencies == FlatMap(LatencyOf, rows)
  }

  /** The per-opcode part, for the rows so far. */
  ghost predicate CountedByOpcode(completions: map<string, int>, payloads: map<string, int>, rows: seq<CompletionRow>) {
    && (forall o :: o in completions <==> o in OPCODES) && (forall o :: o in payloads <==> o in OPCODES)
    && forall o :: o in OPCODES ==>
         completions[o] == TotalOf(OneOf(o), rows) && payloads[o] == TotalOf(PayloadOf(o), rows)
  }

  ghost predicate AreCompletionTotals(t: CompletionTotals, rows: seq<CompletionRow>, seconds: real) {
    var latencies := FlatMap(LatencyOf, rows);
    && t.rows == |rows|
    && t.successRows == TotalOf(One, rows)
    && t.successPayloadBytes == TotalOf(Payload, rows)
    && t.goodputMbps == GoodputMbps(TotalOf(Payload, rows), seconds)
    && CountedByOpcode(t.completions, t.payloads, rows)
    && (forall o :: o in t.goodputs <==> o in OPCODES)
    && (forall o :: o in OPCODES ==> t.goodputs[o] == GoodputMbps(t.payloads[o], seconds))
    && t.latencyP50 == Percentiles.PercentileOrZero(latencies, 0.50)
    && t.latencyP95 == Percentiles.PercentileOrZero(latencies, 0.95)
    && t.latencyP99 == Percentiles.PercentileOrZero(latencies, 0.99)
  }

  lemma CountNext(rows: seq<CompletionRow>, i: nat, f: CompletionRow -> int)
    requires i < |rows|
    ensures TotalOf(f, rows[..i + 1]) == TotalOf(f, rows[..i]) + f(rows[i])
  {
    assert rows[..i + 1][..i] == rows[..i];
  }

  /** One successful row is counted under its opcode, if that is one of the three. */
  method CountOpcode(completions: map<string, int>, payloads: map<string, int>, row: CompletionRow,
                     ghost rows: seq<CompletionRow>, ghost i: nat)
    returns (completions': map<string, int>, payloads': map<string, int>)
    requires i < |rows| && row == rows[i] && Succeeded(row) && CountedByOpcode(completions, payloads, rows[..i])
    ensures CountedByOpcode(completions', payloads', rows[..i + 1])
  {
    completions', payloads' := completions, payloads;
    if row.opcode in OPCODES {
      completions' := completions'[row.opcode := completions'[row.opcode] + 1];
      payloads' := payloads'[row.opcode := payloads'[row.opcode] + row.payloadBytes];
    }
    forall o | o in OPCODES
      ensures completions'[o] == TotalOf(OneOf(o), rows[..i + 1]) && payloads'[o] == TotalOf(PayloadOf(o), rows[..i + 1])
    {
      CountNext(rows, i, OneOf(o));
      CountNext(rows, i, PayloadOf(o));
    }
  }

  lemma FailureCountsNothing(completions: map<string, int>, payloads: map<string, int>, rows: seq<CompletionRow>, i: nat)
    requires i < |rows| && !Succeeded(rows[i]) && CountedByOpcode(completions, payloads, rows[..i])
    ensures CountedByOpcode(completions, payloads, rows[..i + 1])
  {
    forall o | o in OPCODES
      ensures completions[o] == TotalOf(OneOf(o), rows[..i + 1]) && payloads[o] == TotalOf(PayloadOf(o), rows[..i + 1])
    {
      CountNext(rows, i, OneOf(o));
      CountNext(rows, i, PayloadOf(o));
    }
  }

  lemma CompletionNext(rows: seq<CompletionRow>, i: nat)
    requires i < |rows|
    ensures TotalOf(One, rows[..i + 1]) == TotalOf(One, rows[..i]) + One(rows[i])
    ensures TotalOf(Payload, rows[..i + 1]) == TotalOf(Payload, rows[..i]) + Payload(rows[i])
    ensures FlatMap(LatencyOf, rows[..i + 1]) == FlatMap(LatencyOf, rows[..i]) + LatencyOf(rows[i])
  {
    assert rows[..i + 1][..i] == rows[..i];
  }

  /** The loop over the rows. */
  method CountCompletions(rows: seq<CompletionRow>)
    returns (successRows: int, payload: int, completions: map<string, int>, payloads: map<string, int>, latencies: seq<real>)
    ensures CountedInAll(successRows, payload, latencies, rows) && CountedByOpcode(completions, payloads, rows)
  {
    successRows, payload, latencies := 0, 0, [];
    completions := map o | o in OPCODES :: 0;
    payloads := map o | o in OPCODES :: 0;
    for i := 0 to |rows|
      invariant CountedInAll(successRows, payload, latencies, rows[..i]) && CountedByOpcode(completions, payloads, rows[..i])
    {
      CompletionNext(rows, i);
      if !Succeeded(rows[i]) {
        FailureCountsNothing(completions, payloads, rows, i);
        continue;
      }
      successRows := successRows + 1;
      payload := payload + rows[i].payloadBytes;
      latencies := latencies + [rows[i].latencyNs as real / 1000.0];
      completions, payloads := CountOpcode(completions, payloads, rows[i], rows, i);
    }
    assert rows[..|rows|] == rows;
  }

  method AggregateCompletionRows(rows: seq<CompletionRow>, seconds: real) returns (t: CompletionTotals)
    ensures AreCompletionTotals(t, rows, seconds)
    ensures t.rows == |rows| && t.successRows == TotalOf(One, rows) && t.successPayloadBytes == TotalOf(Payload, rows)
    ensures t.goodputMbps == GoodputMbps(TotalOf(Payload, rows), seconds)
    ensures t.latencyP50 == Percentiles.PercentileOrZero(FlatMap(LatencyOf, rows), 0.50)
    ensures t.latencyP95 == Percentiles.PercentileOrZero(FlatMap(LatencyOf, rows), 0.95)
    ensures t.latencyP99 == Percentiles.PercentileOrZero(FlatMap(LatencyOf, rows), 0.99)
  {
    var successRows, payload, completions, payloads, latencies := CountCompletions(rows);
    t := CompletionTotals(
      |rows|, successRows, payload, GoodputMbps(payload, seconds),
      completions, payloads, map o | o in OPCODES :: GoodputMbps(payloads[o], seconds),
      Percentiles.PercentileOrZero(latencies, 0.50),
      Percentiles.PercentileOrZero(latencies, 0.95),
      Percentiles.PercentileOrZero(latencies, 0.99));
  }

  // ---------- what the totals promise ----------

  /** The opcodes share the successes: together they count no more rows than succeeded, and exactly those
      when every success has one of the three. */
  lemma OpcodesShareSuccesses(rows: seq<CompletionRow>)
    ensures TotalOf(OneOf("send"), rows) + TotalOf(OneOf("write"), rows) + TotalOf(OneOf("read"), rows) <= TotalOf(One, rows)
    ensures TotalOf(OneOf("send"), rows) + TotalOf(OneOf("write"), rows) + TotalOf(OneOf("read"), rows) == TotalOf(One, rows)
       <==> forall row :: row in rows && Succeeded(row) ==> row.opcode in OPCODES
  {
    OtherSuccesses(rows);
  }

  lemma {:induction false} OtherSuccesses(rows: seq<CompletionRow>)
    ensures var shared := TotalOf(OneOf("send"), rows) + TotalOf(OneOf("write"), rows) + TotalOf(OneOf("read"), rows);
            && shared <= TotalOf(One, rows)
            && (shared == TotalOf(One, rows) <==> forall row :: row in rows && Succeeded(row) ==> row.opcode in OPCODES)
  {
    if rows != [] {
      var front, last := rows[..|rows| - 1], rows[|rows| - 1];
      OtherSuccesses(front);
      assert rows == front + [last];
      ThreeOpcodes(last.opcode);
    }
  }

  lemma ThreeOpcodes(opcode: string)
    ensures opcode in OPCODES <==> opcode == "send" || opcode == "write" || opcode == "read"
    ensures "send" != "write" && "write" != "read" && "read" != "send"
  {
    assert |"send"| != |"write"| && |"write"| != |"read"| && "read"[0] != "send"[0];
  }

  ghost predicate InMicroseconds(value: real, row: CompletionRow) {
    value == row.latencyNs as real / 1000.0
  }

  /** The latencies of the successful rows, in microseconds and in row order. */
  lemma {:induction false} LatenciesOfSuccesses(rows: seq<CompletionRow>) returns (at: seq<nat>)
    ensures |at| == |FlatMap(LatencyOf, rows)| && forall j, k :: 0 <= j < k < |at| ==> at[j] < at[k]
    ensures forall k :: 0 <= k < |at| ==> at[k] < |rows| && InMicroseconds(FlatMap(LatencyOf, rows)[k], rows[at[k]])
    ensures forall i :: 0 <= i < |rows| ==> (i in at <==> rows[i].success != 0)
  {
    if rows == [] {
      at := [];
    } else {
      var front, last := rows[..|rows| - 1], rows[|rows| - 1];
      at := LatenciesOfSuccesses(front);
      LastLatency(rows);
      if last.success != 0 {
        at := at + [|front|];
      }
    }
  }

  lemma LastLatency(rows: seq<CompletionRow>)
    requires rows != []
    ensures var before, last, now := FlatMap(LatencyOf, rows[..|rows| - 1]), rows[|rows| - 1], FlatMap(LatencyOf, rows);
            if last.success != 0
            then |now| == |before| + 1 && now[..|before|] == before && InMicroseconds(now[|before|], last)
            else now == before
  {
  }

  /** The goodput is the payload in bits, over the seconds and in millions, up to the rounding. */
  lemma GoodputIs(bytes: int, seconds: real)
    ensures seconds <= 0.0 ==> GoodputMbps(bytes, seconds) == 0.0
    ensures seconds > 0.0 ==>
              var exact := (bytes * 8) as real / (seconds * 1000000.0);
              exact - 0.0000005 <= GoodputMbps(bytes, seconds) <= exact + 0.0000005
  {
    if seconds > 0.0 {
      RoundError((bytes * 8) as real / seconds / 1000000.0);
      DivideTwice((bytes * 8) as real, seconds, 1000000.0);
    }
  }

  lemma DivideTwice(x: real, y: real, z: real)
    requires y > 0.0 && z > 0.0 && y * z > 0.0
    ensures x / y / z == x / (y * z)
  {
    var q := x / y / z;
    assert q * z == x / y && q * z * y == x;
    assert q * (y * z) == x;
    Quotient(q, y * z, x);
  }

  lemma Quotient(q: real, d: real, x: real)
    requires d > 0.0 && q * d == x
    ensures x / d == q
  {
  }

  // ---------- the verdict ----------

  /** A cumulative column that is added up over the devices. */
  predicate Summed(tables: FieldTables, column: string, target: string) {
    Field(column, target) in tables.cumulative && target !in tables.fabricGlobal
  }

  /** The columns that the consistency check uses. */
  predicate HasCheckedFields(tables: FieldTables) {
    && Summed(tables, "OpsTerminalTotal", "ops_terminal_total")
    && Summed(tables, "OpsSuccessTotal", "ops_success_total")
    && Summed(tables, "SendSuccessTotal", "send_success_total")
    && Summed(tables, "WriteSuccessTotal", "write_success_total")
    && Summed(tables, "ReadSuccessTotal", "read_success_total")
    && Summed(tables, "SendSuccessBytesTotal", "send_success_bytes_total")
    && Summed(tables, "WriteSuccessBytesTotal", "write_success_bytes_total")
    && Summed(tables, "ReadSuccessBytesTotal", "read_success_bytes_total")
  }

  /** The completion part of a run's summary. */
  ghost predicate SummarizesCompletions(s: Summary, rows: seq<CompletionRow>) {
    && s.completionRows == |rows|
    && s.completionSuccessRows == TotalOf(One, rows)
    && s.sendSuccessCompletions == TotalOf(OneOf("send"), rows)
    && s.writeSuccessCompletions == TotalOf(OneOf("write"), rows)
    && s.readSuccessCompletions == TotalOf(OneOf("read"), rows)
    && s.sendSuccessPayloadBytes == TotalOf(PayloadOf("send"), rows)
    && s.writeSuccessPayloadBytes == TotalOf(PayloadOf("write"), rows)
    && s.readSuccessPayloadBytes == TotalOf(PayloadOf("read"), rows)
  }

  lemma SummedOver(tables: FieldTables, result: map<string, int>, rows: seq<ProtocolRow>, column: string, target: string)
    requires Summed(tables, column, target) && Covers(result, tables.cumulative)
    requires forall k :: 0 <= k < |tables.cumulative| ==>
               result[tables.cumulative[k].target] == CumulativeOver(rows, tables, tables.cumulative[k])
    ensures target in result && result[target] == TotalOver(rows, column)
  {
    var k :| 0 <= k < |tables.cumulative| && tables.cumulative[k] == Field(column, target);
  }

  /** The protocol part, from the window and from the whole log. */
  method SummarizeProtocol(rows: seq<ProtocolRow>, end: Option<int>, tables: FieldTables, completions: Summary)
    returns (s: Summary)
    requires tables.Valid() && HasCheckedFields(tables)
    ensures SummarizesLog(s, rows, end) && s.drainCompleted == forall g :: g in GAUGES ==> TotalOver(rows, g) == 0
    ensures s == completions.(
              opsTerminalTotal := s.opsTerminalTotal, opsSuccessTotal := s.opsSuccessTotal,
              sendSuccessTotal := s.sendSuccessTotal, writeSuccessTotal := s.writeSuccessTotal,
              readSuccessTotal := s.readSuccessTotal, sendSuccessBytes := s.sendSuccessBytes,
              writeSuccessBytes := s.writeSuccessBytes, readSuccessBytes := s.readSuccessBytes,
              opsTerminalTotalFinal := s.opsTerminalTotalFinal, opsSuccessTotalFinal := s.opsSuccessTotalFinal,
              drainCompleted := s.drainCompleted)
  {
    var inWindow := FilterRowsByTimeNs(rows, end);
    var window, _ := AggregateProtocolRows(inWindow, tables);
    var final := AggregateFinalProtocolState(rows);
    FinalColumnsDistinct();
    SummedOver(tables, window, inWindow, "OpsTerminalTotal", "ops_terminal_total");
    SummedOver(tables, window, inWindow, "OpsSuccessTotal", "ops_success_total");
    SummedOver(tables, window, inWindow, "SendSuccessTotal", "send_success_total");
    SummedOver(tables, window, inWindow, "WriteSuccessTotal", "write_success_total");
    SummedOver(tables, window, inWindow, "ReadSuccessTotal", "read_success_total");
    SummedOver(tables, window, inWindow, "SendSuccessBytesTotal", "send_success_bytes_total");
    SummedOver(tables, window, inWindow, "WriteSuccessBytesTotal", "write_success_bytes_total");
    SummedOver(tables, window, inWindow, "ReadSuccessBytesTotal", "read_success_bytes_total");
    s := completions.(
      opsTerminalTotal := window["ops_terminal_total"], opsSuccessTotal := window["ops_success_total"],
      sendSuccessTotal := window["send_success_total"], writeSuccessTotal := window["write_success_total"],
      readSuccessTotal := window["read_success_total"], sendSuccessBytes := window["send_success_bytes_total"],
      writeSuccessBytes := window["write_success_bytes_total"], readSuccessBytes := window["read_success_bytes_total"],
      opsTerminalTotalFinal := final.totals["OpsTerminalTotal"],
      opsSuccessTotalFinal := final.totals["OpsSuccessTotal"], drainCompleted := final.drainCompleted);
  }

  /** The completion part, from the window. */
  method SummarizeCompletions(rows: seq<CompletionRow>, seconds: real, drainWindowSeconds: real) returns (s: Summary)
    ensures SummarizesCompletions(s, rows) && s.drainWindowSeconds == drainWindowSeconds
  {
    var t := AggregateCompletionRows(rows, seconds);
    ThreeOpcodes("send");
    ThreeOpcodes("write");
    ThreeOpcodes("read");
    s := Summary(t.rows, t.successRows, 0, 0, 0, 0, 0,
                 t.completions["send"], t.completions["write"], t.completions["read"], 0, 0, 0,
                 t.payloads["send"], t.payloads["write"], t.payloads["read"], 0, 0, drainWindowSeconds, false);
  }

  // ---------- the conditions in plain terms ----------

  function IsSuccess(): CompletionRow -> bool {
    (row: CompletionRow) => row.success != 0
  }

  function IsSuccessOf(opcode: string): CompletionRow -> bool {
    (row: CompletionRow) => row.success != 0 && row.opcode == opcode
  }

  /** The payload of the successful rows with the opcode. */
  ghost function PayloadBytes(rows: seq<CompletionRow>, opcode: string): int {
    if rows == [] then 0
    else
      var last := rows[|rows| - 1];
      PayloadBytes(rows[..|rows| - 1], opcode)
      + if last.success != 0 && last.opcode == opcode then last.payloadBytes else 0
  }

  lemma {:induction false} CompletionCounts(rows: seq<CompletionRow>, opcode: string)
    ensures TotalOf(One, rows) == CountWhere(IsSuccess(), rows)
    ensures TotalOf(OneOf(opcode), rows) == CountWhere(IsSuccessOf(opcode), rows)
    ensures TotalOf(PayloadOf(opcode), rows) == PayloadBytes(rows, opcode)
    ensures TotalOf(Payload, rows) == TotalOf((row: CompletionRow) => if row.success != 0 then row.payloadBytes else 0, rows)
  {
    if rows != [] {
      CompletionCounts(rows[..|rows| - 1], opcode);
    }
  }

  /** What a run leaves behind; `completions` are all of its completion rows. */
  datatype Outcome = Outcome(
    exitCode: int, rows: seq<ProtocolRow>, completions: seq<CompletionRow>, end: Option<int>, drainWindowSeconds: real)

  /** The devices' total of a column within the window. */
  ghost function InWindow(o: Outcome, column: string): int {
    TotalOver(FilterRowsByTimeNs(o.rows, o.end), column)
  }

  /** The completion rows within the window. */
  ghost function Completed(o: Outcome): seq<CompletionRow> {
    FilterByTime(CompletionTime, o.completions, o.end)
  }

  /** The fourteen conditions a run has to meet, in the order in which they are checked. */
  ghost predicate Meets(o: Outcome, k: nat) {
    if k == 0 then o.exitCode == 0
    else if k == 1 then o.rows != []
    else if k == 2 then Completed(o) != []
    else if k == 3 then InWindow(o, "OpsTerminalTotal") >= InWindow(o, "OpsSuccessTotal")
    else if k == 4 then InWindow(o, "OpsSuccessTotal") == CountWhere(IsSuccess(), Completed(o))
    else if k == 5 then InWindow(o, "SendSuccessTotal") == CountWhere(IsSuccessOf("send"), Completed(o))
    else if k == 6 then InWindow(o, "WriteSuccessTotal") == CountWhere(IsSuccessOf("write"), Completed(o))
    else if k == 7 then InWindow(o, "ReadSuccessTotal") == CountWhere(IsSuccessOf("read"), Completed(o))
    else if k == 8 then InWindow(o, "SendSuccessBytesTotal") == PayloadBytes(Completed(o), "send")
    else if k == 9 then InWindow(o, "WriteSuccessBytesTotal") == PayloadBytes(Completed(o), "write")
    else if k == 10 then InWindow(o, "ReadSuccessBytesTotal") == PayloadBytes(Completed(o), "read")
    else if k == 11 then TotalOver(o.rows, "OpsTerminalTotal") >= TotalOver(o.rows, "OpsSuccessTotal")
    else if k == 12 then TotalOver(o.rows, "OpsSuccessTotal") >= InWindow(o, "OpsSuccessTotal")
    else k == 13 ==> o.drainWindowSeconds > 0.0 ==> Drained(o.rows)
  }

  /** Nothing is in use any more. */
  ghost predicate Drained(rows: seq<ProtocolRow>) {
    && TotalOver(rows, "OpsInFlight") == 0 && TotalOver(rows, "ActiveRetryStates") == 0
    && TotalOver(rows, "ActiveReadResponseStates") == 0 && TotalOver(rows, "ReadTrackInUse") == 0
    && TotalOver(rows, "TpdcPendingSacks") == 0 && TotalOver(rows, "TpdcPendingGapNacks") == 0
  }

  /** What a run that fails condition `k` first is said to have. */
  function VerdictAt(k: nat, exitCode: int): Verdict {
    if k == 0 then RunExit(exitCode)
    else if k == 1 then ProtocolCsvMissingOrEmpty
    else if k == 2 then CompletionCsvMissingOrEmpty
    else if k == 3 then OpsTerminalTotalLessThanOpsSuccessTotal
    else if k == 4 then OpsSuccessTotalMismatchCompletionSuccessRows
    else if k == 5 then SendSuccessTotalMismatchCompletionRows
    else if k == 6 then WriteSuccessTotalMismatchCompletionRows
    else if k == 7 then ReadSuccessTotalMismatchCompletionRows
    else if k == 8 then SendSuccessBytesTotalMismatchCompletionPayload
    else if k == 9 then WriteSuccessBytesTotalMismatchCompletionPayload
    else if k == 10 then ReadSuccessBytesTotalMismatchCompletionPayload
    else if k == 11 then OpsTerminalTotalFinalLessThanOpsSuccessTotalFinal
    else if k == 12 then OpsSuccessTotalFinalLessThanWindowSuccessTotal
    else if k == 13 then DrainNotCompleted
    else Consistent
  }

  ghost predicate FailsFirst(o: Outcome, k: nat) {
    !Meets(o, k) && forall j: nat :: j < k ==> Meets(o, j)
  }

  lemma DrainedIff(rows: seq<ProtocolRow>)
    ensures Drained(rows) <==> forall g :: g in GAUGES ==> TotalOver(rows, g) == 0
  {
    assert GAUGES[0] == "OpsInFlight" && GAUGES[1] == "ActiveRetryStates" && GAUGES[2] == "ActiveReadResponseStates";
    assert GAUGES[3] == "ReadTrackInUse" && GAUGES[4] == "TpdcPendingSacks" && GAUGES[5] == "TpdcPendingGapNacks";
    assert forall i :: 0 <= i < 6 ==> GAUGES[i] in GAUGES;
  }

  /** The verdict of the code on a summary of the run. */
  ghost predicate IsVerdict(o: Outcome, s: Summary, verdict: Verdict) {
    && SummarizesLog(s, o.rows, o.end) && SummarizesCompletions(s, Completed(o))
    && s.drainWindowSeconds == o.drainWindowSeconds
    && s.drainCompleted == (forall g :: g in GAUGES ==> TotalOver(o.rows, g) == 0)
    && verdict == if o.exitCode != 0 then RunExit(o.exitCode)
                  else if o.rows == [] then ProtocolCsvMissingOrEmpty
                  else ValidateSummaryConsistency(s)
  }

  /** A summary meets the conditions that the run meets. */
  lemma SummaryMeets(o: Outcome, s: Summary)
    requires SummarizesLog(s, o.rows, o.end) && SummarizesCompletions(s, Completed(o))
    ensures Meets(o, 2) <==> s.completionRows > 0
    ensures Meets(o, 3) <==> s.opsTerminalTotal >= s.opsSuccessTotal
    ensures Meets(o, 4) <==> s.opsSuccessTotal == s.completionSuccessRows
  {
    CompletionCounts(Completed(o), "send");
  }

  lemma SummaryMeetsOpcodes(o: Outcome, s: Summary)
    requires SummarizesLog(s, o.rows, o.end) && SummarizesCompletions(s, Completed(o))
    ensures Meets(o, 5) <==> s.sendSuccessTotal == s.sendSuccessCompletions
    ensures Meets(o, 6) <==> s.writeSuccessTotal == s.writeSuccessCompletions
    ensures Meets(o, 7) <==> s.readSuccessTotal == s.readSuccessCompletions
  {
    CompletionCounts(Completed(o), "send");
    CompletionCounts(Completed(o), "write");
    CompletionCounts(Completed(o), "read");
  }

  lemma SummaryMeetsPayloads(o: Outcome, s: Summary)
    requires SummarizesLog(s, o.rows, o.end) && SummarizesCompletions(s, Completed(o))
    ensures Meets(o, 8) <==> s.sendSuccessBytes == s.sendSuccessPayloadBytes
    ensures Meets(o, 9) <==> s.writeSuccessBytes == s.writeSuccessPayloadBytes
    ensures Meets(o, 10) <==> s.readSuccessBytes == s.readSuccessPayloadBytes
  {
    CompletionCounts(Completed(o), "send");
    CompletionCounts(Completed(o), "write");
    CompletionCounts(Completed(o), "read");
  }

  lemma SummaryMeetsFinal(o: Outcome, s: Summary)
    requires SummarizesLog(s, o.rows, o.end)
    ensures Meets(o, 11) <==> s.opsTerminalTotalFinal >= s.opsSuccessTotalFinal
    ensures Meets(o, 12) <==> s.opsSuccessTotalFinal >= s.opsSuccessTotal
  {
  }

  lemma SummaryMeetsDrain(o: Outcome, s: Summary)
    requires s.drainWindowSeconds == o.drainWindowSeconds
    requires s.drainCompleted == (forall g :: g in GAUGES ==> TotalOver(o.rows, g) == 0)
    ensures Meets(o, 13) <==> s.drainWindowSeconds <= 0.0 || s.drainCompleted
  {
    DrainedIff(o.rows);
  }

  /** The verdict is the first condition that fails, and the run passes iff all fourteen are met. */
  lemma VerdictIsFirstFailure(o: Outcome, s: Summary, verdict: Verdict) returns (k: nat)
    requires IsVerdict(o, s, verdict)
    ensures k <= 14 && verdict == VerdictAt(k, o.exitCode)
    ensures forall j: nat :: j < k ==> Meets(o, j)
    ensures k < 14 ==> !Meets(o, k)
  {
    SummaryMeets(o, s);
    SummaryMeetsOpcodes(o, s);
    SummaryMeetsPayloads(o, s);
    SummaryMeetsFinal(o, s);
    SummaryMeetsDrain(o, s);
    k := if !Meets(o, 0) then 0 else if !Meets(o, 1) then 1 else if !Meets(o, 2) then 2 else if !Meets(o, 3) then 3
         else if !Meets(o, 4) then 4 else if !Meets(o, 5) then 5 else if !Meets(o, 6) then 6
         else if !Meets(o, 7) then 7 else if !Meets(o, 8) then 8 else if !Meets(o, 9) then 9
         else if !Meets(o, 10) then 10 else if !Meets(o, 11) then 11 else if !Meets(o, 12) then 12
         else if !Meets(o, 13) then 13 else 14;
  }

  lemma VerdictsDiffer(j: nat, k: nat, exitCode: int)
    requires j < k <= 14
    ensures VerdictAt(j, exitCode) != VerdictAt(k, exitCode)
  {
  }

  /** What the run is worth, from its exit code, its two logs and the window: it passes iff it meets all
      conditions, and otherwise the verdict names the first that it does not meet. */
  method CheckRun(exitCode: int, rows: seq<ProtocolRow>, completions: seq<CompletionRow>, end: Option<int>,
                  seconds: real, drainWindowSeconds: real, tables: FieldTables)
    returns (s: Summary, verdict: Verdict, passed: bool)
    requires tables.Valid() && HasCheckedFields(tables)
    ensures IsVerdict(Outcome(exitCode, rows, completions, end, drainWindowSeconds), s, verdict)
    ensures var o := Outcome(exitCode, rows, completions, end, drainWindowSeconds);
            && (passed <==> forall k: nat :: k < 14 ==> Meets(o, k))
            && forall k: nat :: k < 14 ==> (verdict == VerdictAt(k, exitCode) <==> FailsFirst(o, k))
  {
    var part := SummarizeCompletions(FilterByTime(CompletionTime, completions, end), seconds, drainWindowSeconds);
    s := SummarizeProtocol(rows, end, tables, part);
    if exitCode != 0 {
      verdict := RunExit(exitCode);
    } else if |rows| <= 0 {
      verdict := ProtocolCsvMissingOrEmpty;
    } else {
      verdict := ValidateSummaryConsistency(s);
    }
    passed := verdict.Consistent?;
    VerdictDecides(Outcome(exitCode, rows, completions, end, drainWindowSeconds), s, verdict);
  }

  lemma VerdictDecides(o: Outcome, s: Summary, verdict: Verdict)
    requires IsVerdict(o, s, verdict)
    ensures verdict.Consistent? <==> forall k: nat :: k < 14 ==> Meets(o, k)
    ensures forall k: nat :: k < 14 ==> (verdict == VerdictAt(k, o.exitCode) <==> FailsFirst(o, k))
  {
    var first := VerdictIsFirstFailure(o, s, verdict);
    forall k: nat | k < 14
      ensures verdict == VerdictAt(k, o.exitCode) <==> FailsFirst(o, k)
    {
      if k < first {
        VerdictsDiffer(k, first, o.exitCode);
      } else if k > first {
        VerdictsDiffer(first, k, o.exitCode);
      }
    }
    if first < 14 {
      VerdictsDiffer(first, 14, o.exitCode);
    }
  }

  /** A run passes only if the devices and the completion rows of the window agree on every opcode. */
  lemma PassedRunAgrees(s: Summary, rows: seq<ProtocolRow>, completions: seq<CompletionRow>, end: Option<int>)
    requires SummarizesLog(s, rows, end) && SummarizesCompletions(s, completions)
    requires ValidateSummaryConsistency(s) == Consistent
    ensures var window := FilterRowsByTimeNs(rows, end);
            && TotalOver(window, "SendSuccessTotal") + TotalOver(window, "WriteSuccessTotal")
               + TotalOver(window, "ReadSuccessTotal") <= TotalOver(window, "OpsSuccessTotal")
            && TotalOver(window, "OpsSuccessTotal") <= TotalOver(rows, "OpsSuccessTotal")
  {
    OpcodesShareSuccesses(completions);
  }
}
