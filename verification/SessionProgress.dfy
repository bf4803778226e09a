/**
 `build_tpdc_session_progress` of performance/soft_ue_truth_benchmark_lib.py: the last word of every
 TPDC session, the sessions in order of trouble, and the session that is most stuck.

 The table is filled row by row. `SessionsHold` says what it holds without mentioning the filling;
 `OrderFreeIff` says for which logs the order of the rows does not matter.
 */
module SessionProgress {
  import opened Sorting
  import opened TupleOrder
  import opened Basics
  import opened Bags

  datatype Key = Key(localFep: int, remoteFep: int, pdcId: int)

  /** The counters copied from the last row; the largest send buffer is kept beside them. */
  datatype Counters = Counters(
    txDataPackets: int, txControlPackets: int, rxDataPackets: int, rxControlPackets: int,
    ackSent: int, ackReceived: int, gapNackReceived: int, lastAckSequence: int,
    sendWindowBase: int, nextSendSequence: int, sendBufferSizeCurrent: int,
    retransmissions: int, rtoTimeouts: int, ackAdvanceEvents: int)

  datatype Row = Row(key: Key, timeNs: int, counters: Counters, sendBufferSizeMax: int)

  /** A Python dictionary: its keys in insertion order, and its content. */
  datatype Table = Table(order: seq<Key>, latest: map<Key, Row>)

  // ---------- filling the table ----------

  ghost function Absorbed(t: Table, row: Row): Table {
    if row.key !in t.latest then
      Table(t.order + [row.key], t.latest[row.key := row])
    else
      var existing := t.latest[row.key];
      var buffer := Max(existing.sendBufferSizeMax, row.sendBufferSizeMax);
      var kept := if row.timeNs >= existing.timeNs then row else existing;
      t.(latest := t.latest[row.key := kept.(sendBufferSizeMax := buffer)])
  }

  ghost function Sessions(rows: seq<Row>): Table {
    if rows == [] then Table([], map[])
    else Absorbed(Sessions(rows[..|rows| - 1]), rows[|rows| - 1])
  }

  class SessionTable {
    var order: seq<Key>
    var latest: map<Key, Row>

    ghost function Content(): Table
      reads this
    {
      Table(order, latest)
    }

    constructor ()
      ensures Content() == Table([], map[])
    {
      order, latest := [], map[];
    }

    method Absorb(row: Row)
      modifies this
      ensures Content() == Absorbed(old(Content()), row)
    {
      var candidate := row;
      if row.key !in latest {
        order := order + [row.key];
        latest := latest[row.key := candidate];
        return;
      }
      var existing := latest[row.key];
      if candidate.timeNs >= existing.timeNs {
        candidate := candidate.(sendBufferSizeMax := Max(candidate.sendBufferSizeMax, existing.sendBufferSizeMax));
        latest := latest[row.key := candidate];
      } else {
        existing := existing.(sendBufferSizeMax := Max(existing.sendBufferSizeMax, candidate.sendBufferSizeMax));
        latest := latest[row.key := existing];
      }
    }
  }

  // ---------- what the table holds ----------

  /** No row of the session comes after row `i`: none is later, and none at the same time is further down. */
  ghost predicate IsLatest(rows: seq<Row>, k: Key, i: int) {
    && 0 <= i < |rows| && rows[i].key == k
    && forall j :: 0 <= j < |rows| && rows[j].key == k ==>
         rows[j].timeNs < rows[i].timeNs || (rows[j].timeNs == rows[i].timeNs && j <= i)
  }

  ghost predicate IsLargestBuffer(rows: seq<Row>, k: Key, size: int) {
    && (exists row :: row in rows && row.key == k && row.sendBufferSizeMax == size)
    && (forall row :: row in rows && row.key == k ==> row.sendBufferSizeMax <= size)
  }

  ghost predicate HasSession(rows: seq<Row>, k: Key) {
    exists row :: row in rows && row.key == k
  }

  /** The record copies row `i`, but for the buffer size. */
  ghost predicate Copies(rows: seq<Row>, i: int, record: Row) {
    && 0 <= i < |rows|
    && record.key == rows[i].key && record.timeNs == rows[i].timeNs && record.counters == rows[i].counters
  }

  /** The last row with the greatest time, with the largest buffer of all the session's rows. */
  ghost predicate Summarizes(rows: seq<Row>, k: Key, record: Row) {
    && IsLargestBuffer(rows, k, record.sendBufferSizeMax)
    && exists i :: IsLatest(rows, k, i) && Copies(rows, i, record)
  }

  lemma SummarizesOther(rows: seq<Row>, row: Row, k: Key, record: Row)
    requires row.key != k && Summarizes(rows, k, record)
    ensures Summarizes(rows + [row], k, record)
  {
    var i :| IsLatest(rows, k, i) && Copies(rows, i, record);
    assert IsLatest(rows + [row], k, i) && Copies(rows + [row], i, record);
  }

  lemma SummarizesFirst(rows: seq<Row>, row: Row)
    requires !HasSession(rows, row.key)
    ensures Summarizes(rows + [row], row.key, row)
  {
    assert forall i :: 0 <= i < |rows| ==> rows[i] in rows;
    assert IsLatest(rows + [row], row.key, |rows|) && Copies(rows + [row], |rows|, row);
  }

  lemma LargestBufferNext(rows: seq<Row>, row: Row, size: int)
    requires IsLargestBuffer(rows, row.key, size)
    ensures IsLargestBuffer(rows + [row], row.key, Max(size, row.sendBufferSizeMax))
  {
    var all := rows + [row];
    var largest :| largest in rows && largest.key == row.key && largest.sendBufferSizeMax == size;
    assert row in all && largest in all;
  }

  lemma SummarizesNext(rows: seq<Row>, row: Row, existing: Row)
    requires Summarizes(rows, row.key, existing)
    ensures var kept := if row.timeNs >= existing.timeNs then row else existing;
            var buffer := Max(existing.sendBufferSizeMax, row.sendBufferSizeMax);
            Summarizes(rows + [row], row.key, kept.(sendBufferSizeMax := buffer))
  {
    var all := rows + [row];
    var i :| IsLatest(rows, row.key, i) && Copies(rows, i, existing);
    LargestBufferNext(rows, row, existing.sendBufferSizeMax);
    var kept := if row.timeNs >= existing.timeNs then row else existing;
    var record := kept.(sendBufferSizeMax := Max(existing.sendBufferSizeMax, row.sendBufferSizeMax));
    if row.timeNs >= existing.timeNs {
      assert IsLatest(all, row.key, |rows|) && Copies(all, |rows|, record);
    } else {
      assert IsLatest(all, row.key, i) && Copies(all, i, record);
    }
  }

  /** Every session of the log is in the table once, with its summary. */
  lemma {:induction false} SessionsHold(rows: seq<Row>)
    ensures forall k :: k in Sessions(rows).latest <==> HasSession(rows, k)
    ensures forall k :: k in Sessions(rows).latest ==> Summarizes(rows, k, Sessions(rows).latest[k])
    ensures forall k :: k in Sessions(rows).order <==> k in Sessions(rows).latest
    ensures NoDuplicates(Sessions(rows).order)
  {
    if rows != [] {
      var front, row := rows[..|rows| - 1], rows[|rows| - 1];
      var before, after := Sessions(front).latest, Sessions(rows).latest;
      assert rows == front + [row];
      SessionsHold(front);
      forall k
        ensures HasSession(rows, k) <==> HasSession(front, k) || k == row.key
      {
        assert row in rows;
        if r :| r in front && r.key == k {
          assert r in rows;
        }
      }
      forall k | k in after
        ensures Summarizes(rows, k, after[k])
      {
        if k != row.key {
          SummarizesOther(front, row, k, before[k]);
        } else if k in before {
          SummarizesNext(front, row, before[k]);
        } else {
          SummarizesFirst(front, row);
        }
      }
    }
  }

  lemma SessionSummary(rows: seq<Row>, k: Key)
    ensures k in Sessions(rows).latest <==> HasSession(rows, k)
    ensures k in Sessions(rows).latest ==> Summarizes(rows, k, Sessions(rows).latest[k])
  {
    SessionsHold(rows);
  }

  lemma SummaryUnique(rows: seq<Row>, k: Key, a: Row, b: Row)
    requires Summarizes(rows, k, a) && Summarizes(rows, k, b)
    ensures a == b
  {
    var i :| IsLatest(rows, k, i) && Copies(rows, i, a);
    var j :| IsLatest(rows, k, j) && Copies(rows, j, b);
    assert i == j;
  }

  // ---------- which logs may be reordered ----------

  ghost predicate AtGreatestTime(rows: seq<Row>, row: Row) {
    row in rows && forall r :: r in rows && r.key == row.key ==> r.timeNs <= row.timeNs
  }

  /** Rows of one session at its greatest time carry the same counters; their buffer sizes may differ. */
  ghost predicate TiesAgree(rows: seq<Row>) {
    forall x, y :: AtGreatestTime(rows, x) && AtGreatestTime(rows, y) && x.key == y.key ==> x.counters == y.counters
  }

  ghost predicate OrderFree(rows: seq<Row>) {
    forall rows' :: multiset(rows') == multiset(rows) ==> Sessions(rows').latest == Sessions(rows).latest
  }

  lemma SummaryFromMembers(rows: seq<Row>, rows': seq<Row>, k: Key, a: Row, b: Row)
    requires forall row :: row in rows <==> row in rows'
    requires TiesAgree(rows) && Summarizes(rows, k, a) && Summarizes(rows', k, b)
    ensures a == b
  {
    var i :| IsLatest(rows, k, i) && Copies(rows, i, a);
    var j :| IsLatest(rows', k, j) && Copies(rows', j, b);
    LatestAtGreatestTime(rows, k, i);
    LatestAtGreatestTime(rows', k, j);
    assert AtGreatestTime(rows, rows'[j]);
    var x :| x in rows && x.key == k && x.sendBufferSizeMax == a.sendBufferSizeMax;
    var y :| y in rows' && y.key == k && y.sendBufferSizeMax == b.sendBufferSizeMax;
  }

  lemma LatestAtGreatestTime(rows: seq<Row>, k: Key, i: int)
    requires IsLatest(rows, k, i)
    ensures AtGreatestTime(rows, rows[i])
  {
  }

  /** With agreeing ties the table depends on the set of rows only. */
  lemma SameRowsSameTable(rows: seq<Row>, rows': seq<Row>)
    requires (forall row :: row in rows <==> row in rows') && TiesAgree(rows)
    ensures Sessions(rows).latest == Sessions(rows').latest
  {
    var a, b := Sessions(rows).latest, Sessions(rows').latest;
    forall k
      ensures (k in a <==> k in b) && (k in a ==> a[k] == b[k])
    {
      SessionSummary(rows, k);
      SessionSummary(rows', k);
      assert HasSession(rows, k) <==> HasSession(rows', k);
      if k in a {
        SummaryFromMembers(rows, rows', k, a[k], b[k]);
      }
    }
  }

  /** The last row wins when nothing of its session is later. */
  lemma LastRowWins(rows: seq<Row>, row: Row)
    requires AtGreatestTime(rows + [row], row)
    ensures var latest := Sessions(rows + [row]).latest; row.key in latest && latest[row.key].counters == row.counters
  {
    var all := rows + [row];
    SessionSummary(all, row.key);
    assert HasSession(all, row.key);
    var i :| IsLatest(all, row.key, i) && Copies(all, i, Sessions(all).latest[row.key]);
    assert all[|rows|] == row;
    assert all[i] in all;
    assert i == |rows|;
  }

  lemma SameBagSameMembers(a: seq<Row>, b: seq<Row>)
    requires multiset(a) == multiset(b)
    ensures forall row :: row in a <==> row in b
  {
    assert forall row :: row in a <==> row in multiset(a);
    assert forall row :: row in b <==> row in multiset(b);
  }

  /** Two orders of one log that give two tables. */
  lemma DisagreeingTie(rows: seq<Row>, x: Row, y: Row) returns (xLast: seq<Row>, yLast: seq<Row>)
    requires AtGreatestTime(rows, x) && AtGreatestTime(rows, y) && x.key == y.key && x.counters != y.counters
    ensures multiset(xLast) == multiset(rows) && multiset(yLast) == multiset(rows)
    ensures Sessions(xLast).latest != Sessions(yLast).latest
  {
    var front := MoveToEnd(rows, x, y);
    xLast, yLast := front + [y] + [x], front + [x] + [y];
    SameBagSameMembers(rows, xLast);
    SameBagSameMembers(rows, yLast);
    LastRowWins(front + [y], x);
    LastRowWins(front + [x], y);
  }

  /** The order of the rows is immaterial exactly when rows tied for last in a session agree. */
  lemma OrderFreeIff(rows: seq<Row>)
    ensures OrderFree(rows) <==> TiesAgree(rows)
  {
    if TiesAgree(rows) {
      forall rows' | multiset(rows') == multiset(rows)
        ensures Sessions(rows').latest == Sessions(rows).latest
      {
        SameBagSameMembers(rows, rows');
        SameRowsSameTable(rows, rows');
      }
    } else {
      var x, y :| AtGreatestTime(rows, x) && AtGreatestTime(rows, y) && x.key == y.key && x.counters != y.counters;
      var xLast, yLast := DisagreeingTie(rows, x, y);
    }
  }

  // ---------- the report ----------

  datatype Hint = NoAckSeen | AckSeenNoWindowAdvance | RetransmitWithoutAckProgress | NoHint

  datatype SessionRow = SessionRow(record: Row, stuckInflight: bool, hint: Hint)

  datatype Report = Report(
    rows: seq<SessionRow>, topStuck: Option<SessionRow>, noAckProgress: nat, ackButNoCloseout: nat)

  function Annotate(record: Row): SessionRow {
    var c := record.counters;
    var stuck := c.sendBufferSizeCurrent > 0 || c.rtoTimeouts > 0 || c.retransmissions > 0;
    var hint :=
      if stuck && c.ackReceived == 0 then NoAckSeen
      else if stuck && c.ackReceived > 0 && c.ackAdvanceEvents == 0 then AckSeenNoWindowAdvance
      else if stuck && c.retransmissions > 0 && c.ackAdvanceEvents == 0 then RetransmitWithoutAckProgress
      else NoHint;
    SessionRow(record, stuck, hint)
  }

  function SortKey(row: SessionRow): seq<int> {
    var c, k := row.record.counters, row.record.key;
    [-c.sendBufferSizeCurrent, -c.rtoTimeouts, -c.retransmissions, k.localFep, k.remoteFep, k.pdcId]
  }

  predicate NotAfter(a: SessionRow, b: SessionRow) {
    TupleAtMost(SortKey(a), SortKey(b))
  }

  function RowOf(latest: map<Key, Row>, k: Key): seq<SessionRow> {
    if k in latest then [Annotate(latest[k])] else []
  }

  function SessionRows(latest: map<Key, Row>, order: seq<Key>): seq<SessionRow> {
    FlatMap((k: Key) => RowOf(latest, k), order)
  }

  function FirstStuck(rows: seq<SessionRow>): Option<SessionRow> {
    if rows == [] then None
    else if rows[0].stuckInflight then Some(rows[0])
    else FirstStuck(rows[1..])
  }

  predicate HasNoAck(row: SessionRow) {
    row.hint == NoAckSeen
  }

  predicate HasAckButBuffer(row: SessionRow) {
    row.record.counters.ackReceived > 0 && row.record.counters.sendBufferSizeCurrent > 0
  }

  function ReportOf(t: Table): Report {
    var rows := Sort(NotAfter, SessionRows(t.latest, t.order));
    Report(rows, FirstStuck(rows),
           CountWhere(HasNoAck, rows), CountWhere(HasAckButBuffer, rows))
  }

  method BuildTpdcSessionProgress(rows: seq<Row>) returns (report: Report)
    ensures report == ReportOf(Sessions(rows))
  {
    var table := new SessionTable();
    for i := 0 to |rows|
      invariant table.Content() == Sessions(rows[..i])
    {
      assert rows[..i + 1][..i] == rows[..i];
      table.Absorb(rows[i]);
    }
    assert rows[..|rows|] == rows;
    report := ReportOf(Table(table.order, table.latest));
  }

  lemma NotAfterOrders()
    ensures TotalPreorder(NotAfter)
  {
    KeyedPreorder(NotAfter, SortKey);
  }

  lemma {:induction false} SessionRowsFromTable(latest: map<Key, Row>, order: seq<Key>)
    ensures forall row :: row in SessionRows(latest, order) <==>
              exists k :: k in order && k in latest && row == Annotate(latest[k])
  {
    if order != [] {
      var front, last := order[..|order| - 1], order[|order| - 1];
      SessionRowsFromTable(latest, front);
      assert order == front + [last];
      assert SessionRows(latest, order) == SessionRows(latest, front) + RowOf(latest, last);
    }
  }

  /** No two sessions tie in the sort: the sort key ends in the session's identity. */
  lemma SessionsDistinguished(rows: seq<Row>)
    ensures Discriminates(NotAfter, SessionRows(Sessions(rows).latest, Sessions(rows).order))
  {
    var t := Sessions(rows);
    SessionsHold(rows);
    SessionRowsFromTable(t.latest, t.order);
    forall a, b | a in SessionRows(t.latest, t.order) && b in SessionRows(t.latest, t.order) && NotAfter(a, b) && NotAfter(b, a)
      ensures a == b
    {
      TupleAntisymmetric(SortKey(a), SortKey(b));
      var i :| i in t.order && i in t.latest && a == Annotate(t.latest[i]);
      var j :| j in t.order && j in t.latest && b == Annotate(t.latest[j]);
      assert t.latest[i].key == i && t.latest[j].key == j;
      assert SortKey(a)[3] == SortKey(b)[3] && SortKey(a)[4] == SortKey(b)[4] && SortKey(a)[5] == SortKey(b)[5];
    }
  }

  /** The whole report, for logs whose ties agree, ignores the order of the rows. */
  lemma ReportOrderFree(rows: seq<Row>, rows': seq<Row>)
    requires multiset(rows) == multiset(rows') && TiesAgree(rows)
    ensures ReportOf(Sessions(rows)) == ReportOf(Sessions(rows'))
  {
    var t, t' := Sessions(rows), Sessions(rows');
    SameBagSameMembers(rows, rows');
    SameRowsSameTable(rows, rows');
    SessionsHold(rows);
    SessionsHold(rows');
    SameMembersSameBag(t.order, t'.order);
    FlatMapOrderFree((k: Key) => RowOf(t.latest, k), t.order, t'.order);
    NotAfterOrders();
    SessionsDistinguished(rows);
    SortOrderFree(NotAfter, SessionRows(t.latest, t.order), SessionRows(t'.latest, t'.order));
  }

  /** The rows of the report are in order of trouble. */
  lemma ReportSorted(rows: seq<Row>)
    ensures Sorted(NotAfter, ReportOf(Sessions(rows)).rows)
  {
    NotAfterOrders();
    SortSorts(NotAfter, SessionRows(Sessions(rows).latest, Sessions(rows).order));
  }

  /** Every row of the report sums up the session it names. */
  lemma ReportLists(rows: seq<Row>, row: SessionRow)
    requires row in ReportOf(Sessions(rows)).rows
    ensures Summarizes(rows, row.record.key, row.record) && row == Annotate(row.record)
  {
    var t := Sessions(rows);
    SortPermutes(NotAfter, SessionRows(t.latest, t.order));
    SessionRowsFromTable(t.latest, t.order);
    var k :| k in t.order && k in t.latest && row == Annotate(t.latest[k]);
    SessionSummary(rows, k);
  }

  /** The report has one row for each session of the log. */
  lemma ReportCovers(rows: seq<Row>, k: Key)
    ensures HasSession(rows, k) <==> exists row :: row in ReportOf(Sessions(rows)).rows && row.record.key == k
    ensures |ReportOf(Sessions(rows)).rows| == |Sessions(rows).order|
  {
    var t := Sessions(rows);
    SessionsHold(rows);
    SortPermutes(NotAfter, SessionRows(t.latest, t.order));
    OneRowEach(t.latest, t.order);
    SessionRowsFromTable(t.latest, t.order);
    if HasSession(rows, k) {
      assert Annotate(t.latest[k]) in SessionRows(t.latest, t.order);
    }
    if row :| row in ReportOf(t).rows && row.record.key == k {
      ReportLists(rows, row);
    }
  }

  /** The report tells the whole table. */
  lemma ReportDeterminesTable(rows: seq<Row>, rows': seq<Row>)
    requires ReportOf(Sessions(rows)).rows == ReportOf(Sessions(rows')).rows
    ensures Sessions(rows).latest == Sessions(rows').latest
  {
    var a, b := Sessions(rows).latest, Sessions(rows').latest;
    forall k
      ensures k in a <==> k in b
      ensures k in a ==> a[k] == b[k]
    {
      SessionSummary(rows, k);
      SessionSummary(rows', k);
      ReportCovers(rows, k);
      ReportCovers(rows', k);
      if k in a {
        var row :| row in ReportOf(Sessions(rows)).rows && row.record.key == k;
        ReportLists(rows, row);
        ReportLists(rows', row);
        SummaryUnique(rows, k, a[k], row.record);
        SummaryUnique(rows', k, b[k], row.record);
      }
    }
  }

  ghost predicate ReportIsOrderFree(rows: seq<Row>) {
    forall rows' :: multiset(rows') == multiset(rows) ==> ReportOf(Sessions(rows')) == ReportOf(Sessions(rows))
  }

  /** The report is the same for every order of the rows exactly when rows tied for last in a session agree. */
  lemma ReportOrderFreeIff(rows: seq<Row>)
    ensures ReportIsOrderFree(rows) <==> TiesAgree(rows)
  {
    if TiesAgree(rows) {
      forall rows' | multiset(rows') == multiset(rows)
        ensures ReportOf(Sessions(rows')) == ReportOf(Sessions(rows))
      {
        ReportOrderFree(rows, rows');
      }
    }
    if ReportIsOrderFree(rows) {
      forall rows' | multiset(rows') == multiset(rows)
        ensures Sessions(rows').latest == Sessions(rows).latest
      {
        ReportDeterminesTable(rows, rows');
      }
      OrderFreeIff(rows);
    }
  }

  lemma {:induction false} OneRowEach(latest: map<Key, Row>, order: seq<Key>)
    requires forall k :: k in order ==> k in latest
    ensures |SessionRows(latest, order)| == |order|
  {
    if order != [] {
      var front, last := order[..|order| - 1], order[|order| - 1];
      assert order == front + [last];
      OneRowEach(latest, front);
    }
  }

  // ---------- the most stuck session ----------

  ghost predicate NonNegative(c: Counters) {
    c.sendBufferSizeCurrent >= 0 && c.rtoTimeouts >= 0 && c.retransmissions >= 0
  }

  /** A row that is not stuck comes after every stuck one. */
  lemma StuckFirst(a: SessionRow, b: SessionRow)
    requires a == Annotate(a.record) && b == Annotate(b.record)
    requires NonNegative(a.record.counters) && NonNegative(b.record.counters)
    requires NotAfter(a, b) && b.stuckInflight
    ensures a.stuckInflight
  {
    var x, y := SortKey(a), SortKey(b);
    TupleHead(x, y);
    if x[0] == y[0] {
      TupleHead(x[1..], y[1..]);
      if x[1] == y[1] {
        TupleHead(x[1..][1..], y[1..][1..]);
      }
    }
  }

  lemma {:induction false} FirstStuckNone(rows: seq<SessionRow>)
    ensures FirstStuck(rows) == None <==> forall row :: row in rows ==> !row.stuckInflight
  {
    if rows != [] {
      FirstStuckNone(rows[1..]);
      assert rows == [rows[0]] + rows[1..];
    }
  }

  /** The counters of the report are counters of the log. */
  lemma CopiedCounters(rows: seq<Row>, row: SessionRow)
    requires row in ReportOf(Sessions(rows)).rows
    ensures row == Annotate(row.record) && exists r :: r in rows && r.counters == row.record.counters
  {
    ReportLists(rows, row);
    var i :| IsLatest(rows, row.record.key, i) && Copies(rows, i, row.record);
    assert rows[i] in rows;
  }

  /** With non-negative counters the top stuck session is simply the first row, if any session is stuck. */
  lemma TopStuckIsFirst(rows: seq<Row>)
    requires forall row :: row in rows ==> NonNegative(row.counters)
    ensures var report := ReportOf(Sessions(rows));
            if exists row :: row in report.rows && row.stuckInflight
            then report.rows != [] && report.topStuck == Some(report.rows[0])
            else report.topStuck == None
  {
    var report := ReportOf(Sessions(rows));
    ReportSorted(rows);
    FirstStuckNone(report.rows);
    if row :| row in report.rows && row.stuckInflight {
      var i :| 0 <= i < |report.rows| && report.rows[i] == row;
      if i > 0 {
        assert report.rows[0] in report.rows;
        CopiedCounters(rows, report.rows[0]);
        CopiedCounters(rows, row);
        StuckFirst(report.rows[0], row);
      }
    }
  }

  // ---------- the report in plain terms ----------

  /** Session `a` is in more trouble than `b`: more bytes in the send buffer, else more timeouts, else more
      retransmissions, else a smaller identity. */
  ghost predicate InMoreTrouble(a: Row, b: Row) {
    var c, d := a.counters, b.counters;
    if c.sendBufferSizeCurrent != d.sendBufferSizeCurrent then c.sendBufferSizeCurrent > d.sendBufferSizeCurrent
    else if c.rtoTimeouts != d.rtoTimeouts then c.rtoTimeouts > d.rtoTimeouts
    else if c.retransmissions != d.retransmissions then c.retransmissions > d.retransmissions
    else if a.key.localFep != b.key.localFep then a.key.localFep < b.key.localFep
    else if a.key.remoteFep != b.key.remoteFep then a.key.remoteFep < b.key.remoteFep
    else a.key.pdcId < b.key.pdcId
  }

  lemma TroubleByKey(a: SessionRow, b: SessionRow)
    requires NotAfter(a, b) && a.record.key != b.record.key
    ensures InMoreTrouble(a.record, b.record)
  {
    var k := FirstDifference(SortKey(a), SortKey(b));
    var x, y := SortKey(a), SortKey(b);
    assert k == 6 ==> x == y;
    assert k > 0 ==> x[0] == y[0];
    assert k > 1 ==> x[1] == y[1];
    assert k > 2 ==> x[2] == y[2];
    assert k > 3 ==> x[3] == y[3];
    assert k > 4 ==> x[4] == y[4];
  }

  lemma DistinctSessions(rows: seq<Row>, i: nat, j: nat)
    requires i < j < |ReportOf(Sessions(rows)).rows|
    ensures ReportOf(Sessions(rows)).rows[i].record.key != ReportOf(Sessions(rows)).rows[j].record.key
  {
    var t := Sessions(rows);
    var unsorted, sorted := SessionRows(t.latest, t.order), ReportOf(t).rows;
    SessionsHold(rows);
    OneRowEach(t.latest, t.order);
    KeysInOrder(t.latest, t.order);
    SortPermutes(NotAfter, unsorted);
    if sorted[i].record.key == sorted[j].record.key {
      assert sorted[i] in sorted && sorted[j] in sorted;
      ReportLists(rows, sorted[i]);
      ReportLists(rows, sorted[j]);
      SummaryUnique(rows, sorted[i].record.key, sorted[i].record, sorted[j].record);
      TwiceInBag(sorted, i, j);
      CountDistinct(unsorted, sorted[i]);
    }
  }

  lemma TwiceInBag<T>(s: seq<T>, i: nat, j: nat)
    requires i < j < |s| && s[i] == s[j]
    ensures multiset(s)[s[i]] >= 2
  {
    assert s == s[..i] + [s[i]] + s[i + 1..j] + [s[j]] + s[j + 1..];
  }

  lemma {:induction false} KeysInOrder(latest: map<Key, Row>, order: seq<Key>)
    requires NoDuplicates(order) && forall k :: k in order ==> k in latest && latest[k].key == k
    ensures |SessionRows(latest, order)| == |order|
    ensures forall i :: 0 <= i < |order| ==> SessionRows(latest, order)[i].record.key == order[i]
    ensures NoDuplicates(SessionRows(latest, order))
  {
    if order != [] {
      var front, last := order[..|order| - 1], order[|order| - 1];
      assert order == front + [last];
      KeysInOrder(latest, front);
      assert SessionRows(latest, order) == SessionRows(latest, front) + RowOf(latest, last);
    }
  }

  /** The rows are listed in order of trouble. */
  lemma ReportInOrder(rows: seq<Row>, i: nat, j: nat)
    requires i < j < |ReportOf(Sessions(rows)).rows|
    ensures var listed := ReportOf(Sessions(rows)).rows; InMoreTrouble(listed[i].record, listed[j].record)
  {
    ReportSorted(rows);
    DistinctSessions(rows, i, j);
    TroubleByKey(ReportOf(Sessions(rows)).rows[i], ReportOf(Sessions(rows)).rows[j]);
  }

  lemma {:induction false} FirstStuckAt(rows: seq<SessionRow>) returns (i: nat)
    requires FirstStuck(rows).Some?
    ensures i < |rows| && rows[i].stuckInflight && FirstStuck(rows) == Some(rows[i])
    ensures forall j :: 0 <= j < i ==> !rows[j].stuckInflight
  {
    if rows[0].stuckInflight {
      i := 0;
    } else {
      var rest := FirstStuckAt(rows[1..]);
      i := rest + 1;
      assert forall j :: 0 < j < i ==> rows[j] == rows[1..][j - 1];
    }
  }

  ghost predicate IsStuck(record: Row) {
    record.counters.sendBufferSizeCurrent > 0 || record.counters.rtoTimeouts > 0 || record.counters.retransmissions > 0
  }

  /** The top stuck session is the stuck one in most trouble; there is none iff no session is stuck. */
  lemma TopStuckIsWorst(rows: seq<Row>)
    ensures var report := ReportOf(Sessions(rows));
            match report.topStuck
            case None => forall row :: row in report.rows ==> !IsStuck(row.record)
            case Some(top) =>
              && top in report.rows && IsStuck(top.record)
              && forall row :: row in report.rows && IsStuck(row.record) && row != top ==>
                   && InMoreTrouble(top.record, row.record)
                   && row.record.counters.sendBufferSizeCurrent <= top.record.counters.sendBufferSizeCurrent
  {
    var report := ReportOf(Sessions(rows));
    FirstStuckNone(report.rows);
    forall row | row in report.rows
      ensures row.stuckInflight <==> IsStuck(row.record)
    {
      ReportLists(rows, row);
    }
    if report.topStuck.Some? {
      var i := FirstStuckAt(report.rows);
      forall row | row in report.rows && IsStuck(row.record) && row != report.rows[i]
        ensures InMoreTrouble(report.rows[i].record, row.record)
      {
        var j :| 0 <= j < |report.rows| && report.rows[j] == row;
        ReportInOrder(rows, i, j);
      }
    }
  }

  /** What is said of a session. */
  lemma HintIff(record: Row)
    ensures Annotate(record).record == record && (Annotate(record).stuckInflight <==> IsStuck(record))
    ensures Annotate(record).hint == NoAckSeen <==> IsStuck(record) && record.counters.ackReceived == 0
    ensures Annotate(record).hint == AckSeenNoWindowAdvance
       <==> IsStuck(record) && record.counters.ackReceived > 0 && record.counters.ackAdvanceEvents == 0
  {
  }

  /** Without an acknowledgement, though stuck. */
  ghost predicate Unanswered(record: Row) {
    IsStuck(record) && record.counters.ackReceived == 0
  }

  /** How many sessions of the report are stuck without an acknowledgement, and how many have one but still
      something to send. */
  lemma ReportCounts(rows: seq<Row>) returns (unanswered: set<nat>, unfinished: set<nat>)
    ensures ReportOf(Sessions(rows)).noAckProgress == |unanswered|
    ensures ReportOf(Sessions(rows)).ackButNoCloseout == |unfinished|
    ensures var listed := ReportOf(Sessions(rows)).rows;
            && (forall i: nat :: i in unanswered <==>
                  i < |listed| && IsStuck(listed[i].record) && listed[i].record.counters.ackReceived == 0)
            && (forall i: nat :: i in unfinished <==>
                  i < |listed| && listed[i].record.counters.ackReceived > 0
                  && listed[i].record.counters.sendBufferSizeCurrent > 0)
  {
    var listed := ReportOf(Sessions(rows)).rows;
    unanswered := CountPositions(HasNoAck, listed);
    unfinished := CountPositions(HasAckButBuffer, listed);
    forall i | 0 <= i < |listed|
      ensures HasNoAck(listed[i]) <==> IsStuck(listed[i].record) && listed[i].record.counters.ackReceived == 0
    {
      ReportLists(rows, listed[i]);
      HintIff(listed[i].record);
    }
  }

  lemma HintNeedsNegativeAcks(record: Row)
    ensures (Annotate(record).hint == RetransmitWithoutAckProgress
             <==> record.counters.ackReceived < 0 && record.counters.retransmissions > 0
                  && record.counters.ackAdvanceEvents == 0)
  {
  }

  /** The third hint is dead code for real logs: no count of received acknowledgements is negative. */
  lemma ThirdHintUnreachable(rows: seq<Row>)
    requires forall row :: row in rows ==> row.counters.ackReceived >= 0
    ensures forall row :: row in ReportOf(Sessions(rows)).rows ==> row.hint != RetransmitWithoutAckProgress
  {
    forall row | row in ReportOf(Sessions(rows)).rows
      ensures row.hint != RetransmitWithoutAckProgress
    {
      CopiedCounters(rows, row);
      HintNeedsNegativeAcks(row.record);
    }
  }
}
