/**
 Device counters of performance/soft_ue_truth_benchmark_lib.py: totals over a time window, totals over
 the whole log, and the consistency check that compares them.

 A total adds up the last value each device reported. `WindowAtMostWhole` compares the totals of a
 window with those of the whole log, and `BoundedLogPasses` concludes that three of the consistency
 checks cannot fire.
 */
module ProtocolTotals {
  import opened Basics
  import opened Bags
  import opened Rounding

  datatype Device = Device(nodeId: string, ifIndex: string)

  /** A parsed row; a column that is absent or empty reads as 0. */
  datatype ProtocolRow = ProtocolRow(device: Device, timeNs: int, columns: map<string, int>) {
    function Value(column: string): int {
      if column in columns then columns[column] else 0
    }
  }

  /** The rows up to a time, or all of them. */
  function FilterByTime<T>(time: T -> int, rows: seq<T>, end: Option<int>): seq<T> {
    if end == None || rows == [] then rows
    else
      FilterByTime(time, rows[..|rows| - 1], end)
      + if time(rows[|rows| - 1]) <= end.value then [rows[|rows| - 1]] else []
  }

  /** The kept rows are those at no later a time, each once and in log order. */
  lemma {:induction false} WindowKeeps<T>(time: T -> int, rows: seq<T>, end: int) returns (at: seq<nat>)
    ensures Selects(at, rows, FilterByTime(time, rows, Some(end)))
    ensures forall i :: 0 <= i < |rows| ==> (i in at <==> time(rows[i]) <= end)
    ensures forall i :: i in at ==> i < |rows|
    ensures FilterByTime(time, rows, None) == rows
  {
    if rows == [] {
      at := [];
    } else {
      var front, last := rows[..|rows| - 1], rows[|rows| - 1];
      var before := WindowKeeps(time, front, end);
      assert rows == front + [last];
      if time(last) <= end {
        SelectsNext(before, front, last, FilterByTime(time, front, Some(end)));
        at := before + [|front|];
      } else {
        SelectsLonger(before, front, last, FilterByTime(time, front, Some(end)));
        at := before;
      }
    }
  }

  function TimeOf(row: ProtocolRow): int {
    row.timeNs
  }

  function FilterRowsByTimeNs(rows: seq<ProtocolRow>, end: Option<int>): seq<ProtocolRow> {
    FilterByTime(TimeOf, rows, end)
  }

  // ---------- the last word of every device ----------

  /** The devices in the order in which they first appear. */
  ghost function Devices(rows: seq<ProtocolRow>): seq<Device> {
    if rows == [] then []
    else
      var before, d := Devices(rows[..|rows| - 1]), rows[|rows| - 1].device;
      if d in before then before else before + [d]
  }

  /** The value in the last row of the device; 0 when it has none. */
  ghost function LastValue(rows: seq<ProtocolRow>, d: Device, column: string): int {
    if rows == [] then 0
    else if rows[|rows| - 1].device == d then rows[|rows| - 1].Value(column)
    else LastValue(rows[..|rows| - 1], d, column)
  }

  ghost function TotalOver(rows: seq<ProtocolRow>, column: string): int {
    TotalOf((d: Device) => LastValue(rows, d, column), Devices(rows))
  }

  /** The largest last value, and 0 if none is positive. */
  ghost function GreatestOver(rows: seq<ProtocolRow>, column: string): int {
    GreatestOf((d: Device) => LastValue(rows, d, column), Devices(rows))
  }

  /** The largest value in any row, and 0 if none is positive. */
  ghost function PeakOver(rows: seq<ProtocolRow>, column: string): int {
    GreatestOf((row: ProtocolRow) => row.Value(column), rows)
  }

  lemma {:induction false} DevicesOfRows(rows: seq<ProtocolRow>)
    ensures NoDuplicates(Devices(rows))
    ensures forall d :: d in Devices(rows) <==> exists row :: row in rows && row.device == d
  {
    if rows != [] {
      var front, last := rows[..|rows| - 1], rows[|rows| - 1];
      DevicesOfRows(front);
      assert rows == front + [last];
    }
  }

  /** `d`'s value comes from a row of the log. */
  lemma {:induction false} LastValueAt(rows: seq<ProtocolRow>, d: Device) returns (i: nat)
    requires d in Devices(rows)
    ensures i < |rows| && rows[i].device == d
    ensures forall j :: i < j < |rows| ==> rows[j].device != d
    ensures forall column :: LastValue(rows, d, column) == rows[i].Value(column)
  {
    if rows[|rows| - 1].device == d {
      i := |rows| - 1;
    } else {
      i := LastValueAt(rows[..|rows| - 1], d);
    }
  }

  lemma {:induction false} NoValue(rows: seq<ProtocolRow>, d: Device, column: string)
    requires d !in Devices(rows)
    ensures LastValue(rows, d, column) == 0
  {
    if rows != [] {
      NoValue(rows[..|rows| - 1], d, column);
    }
  }

  // ---------- a window of the log ----------

  /** The counter never decreases in a device's rows, and starts at no less than 0. */
  ghost predicate NeverDecreases(rows: seq<ProtocolRow>, column: string) {
    && (forall i :: 0 <= i < |rows| ==> rows[i].Value(column) >= 0)
    && (forall i, j :: 0 <= i < j < |rows| && rows[i].device == rows[j].device ==>
          rows[i].Value(column) <= rows[j].Value(column))
  }

  lemma {:induction false} WindowFromRows(rows: seq<ProtocolRow>, end: Option<int>)
    ensures forall row :: row in FilterRowsByTimeNs(rows, end)
              <==> row in rows && (end == None || row.timeNs <= end.value)
  {
    if end != None && rows != [] {
      WindowFromRows(rows[..|rows| - 1], end);
      assert rows == rows[..|rows| - 1] + [rows[|rows| - 1]];
    }
  }

  /** Nothing of its device comes later in the log at an earlier or equal time: some window ends with row `i`. */
  ghost predicate EndsSomeWindow(rows: seq<ProtocolRow>, i: nat)
    requires i < |rows|
  {
    forall j :: i < j < |rows| && rows[j].device == rows[i].device ==> rows[i].timeNs < rows[j].timeNs
  }

  /** The device's last value is not negative, and no row of it that ends some window exceeds that value. */
  ghost predicate LastIsGreatest(rows: seq<ProtocolRow>, d: Device, column: string) {
    && LastValue(rows, d, column) >= 0
    && forall i :: 0 <= i < |rows| && rows[i].device == d && EndsSomeWindow(rows, i) ==>
         rows[i].Value(column) <= LastValue(rows, d, column)
  }

  ghost predicate NoWindowExceeds(rows: seq<ProtocolRow>, d: Device, column: string) {
    forall end :: LastValue(FilterRowsByTimeNs(rows, end), d, column) <= LastValue(rows, d, column)
  }

  /** Where the last value of a device in a window stands in the log. */
  lemma {:induction false} WindowEnd(rows: seq<ProtocolRow>, end: int, d: Device) returns (i: nat)
    requires d in Devices(FilterRowsByTimeNs(rows, Some(end)))
    ensures i < |rows| && rows[i].device == d && rows[i].timeNs <= end
    ensures forall j :: i < j < |rows| && rows[j].device == d ==> rows[j].timeNs > end
    ensures forall column :: LastValue(FilterRowsByTimeNs(rows, Some(end)), d, column) == rows[i].Value(column)
  {
    var front, last := rows[..|rows| - 1], rows[|rows| - 1];
    var window := FilterRowsByTimeNs(rows, Some(end));
    if last.timeNs <= end {
      assert window[..|window| - 1] == FilterRowsByTimeNs(front, Some(end)) && window[|window| - 1] == last;
    } else {
      assert window == FilterRowsByTimeNs(front, Some(end));
    }
    if last.timeNs <= end && last.device == d {
      i := |rows| - 1;
    } else {
      i := WindowEnd(front, end, d);
    }
  }

  /** No row of the device lies in the window. */
  lemma OutsideWindow(rows: seq<ProtocolRow>, end: int, d: Device)
    requires forall row :: row in rows && row.device == d ==> row.timeNs > end
    ensures forall column :: LastValue(FilterRowsByTimeNs(rows, Some(end)), d, column) == 0
  {
    var window := FilterRowsByTimeNs(rows, Some(end));
    WindowFromRows(rows, Some(end));
    DevicesOfRows(window);
    forall column
      ensures LastValue(window, d, column) == 0
    {
      NoValue(window, d, column);
    }
  }

  /** A time before all rows. */
  lemma {:induction false} BeforeAll(rows: seq<ProtocolRow>) returns (time: int)
    ensures forall row :: row in rows ==> row.timeNs > time
  {
    if rows == [] {
      time := 0;
    } else {
      var front, last := rows[..|rows| - 1], rows[|rows| - 1];
      time := BeforeAll(front);
      time := if last.timeNs <= time then last.timeNs - 1 else time;
      assert rows == front + [last];
    }
  }

  /** Whatever the window, a device shows at most its last value in the log exactly when that value is not
      negative and none of its rows that ends some window exceeds it. */
  lemma NoWindowExceedsIff(rows: seq<ProtocolRow>, d: Device, column: string)
    ensures NoWindowExceeds(rows, d, column) <==> LastIsGreatest(rows, d, column)
  {
    if LastIsGreatest(rows, d, column) {
      forall end
        ensures LastValue(FilterRowsByTimeNs(rows, end), d, column) <= LastValue(rows, d, column)
      {
        WindowValue(rows, end, d, column);
      }
    }
    if NoWindowExceeds(rows, d, column) {
      var time := BeforeAll(rows);
      OutsideWindow(rows, time, d);
      assert LastValue(FilterRowsByTimeNs(rows, Some(time)), d, column) <= LastValue(rows, d, column);
      forall i | 0 <= i < |rows| && rows[i].device == d && EndsSomeWindow(rows, i)
        ensures rows[i].Value(column) <= LastValue(rows, d, column)
      {
        ShownByWindow(rows, i, column);
      }
    }
  }

  /** The window that ends with such a row shows its value. */
  lemma ShownByWindow(rows: seq<ProtocolRow>, i: nat, column: string)
    requires i < |rows| && EndsSomeWindow(rows, i)
    ensures LastValue(FilterRowsByTimeNs(rows, Some(rows[i].timeNs)), rows[i].device, column) == rows[i].Value(column)
  {
    var end := Some(rows[i].timeNs);
    WindowFromRows(rows, end);
    DevicesOfRows(FilterRowsByTimeNs(rows, end));
    assert rows[i] in FilterRowsByTimeNs(rows, end);
    var k := WindowEnd(rows, end.value, rows[i].device);
    assert k == i;
  }

  lemma WindowValue(rows: seq<ProtocolRow>, end: Option<int>, d: Device, column: string)
    requires LastIsGreatest(rows, d, column)
    ensures LastValue(FilterRowsByTimeNs(rows, end), d, column) <= LastValue(rows, d, column)
  {
    var window := FilterRowsByTimeNs(rows, end);
    if d !in Devices(window) {
      NoValue(window, d, column);
    } else if end.Some? {
      var i := WindowEnd(rows, end.value, d);
      assert EndsSomeWindow(rows, i);
    }
  }

  /** When that holds of every device, no window reports more than the whole log. */
  lemma WindowAtMostWhole(rows: seq<ProtocolRow>, end: Option<int>, column: string)
    requires forall d :: LastIsGreatest(rows, d, column)
    ensures TotalOver(FilterRowsByTimeNs(rows, end), column) <= TotalOver(rows, column)
    ensures GreatestOver(FilterRowsByTimeNs(rows, end), column) <= GreatestOver(rows, column)
  {
    var window := FilterRowsByTimeNs(rows, end);
    var f := (d: Device) => LastValue(window, d, column);
    var g := (d: Device) => LastValue(rows, d, column);
    DevicesOfRows(window);
    DevicesOfRows(rows);
    WindowFromRows(rows, end);
    forall d
      ensures d in Devices(window) ==> d in Devices(rows)
      ensures f(d) <= g(d) && g(d) >= 0
    {
      assert LastIsGreatest(rows, d, column);
      WindowValue(rows, end, d, column);
    }
    TotalOfPart(f, g, Devices(window), Devices(rows));
    GreatestOfPart(f, g, Devices(window), Devices(rows));
  }

  // ---------- the totals of all windows ----------

  /** No row's time lies in between. */
  ghost predicate NoRowBetween(rows: seq<ProtocolRow>, from: int, to: int) {
    forall i :: 0 <= i < |rows| ==> !(from < rows[i].timeNs <= to)
  }

  lemma {:induction false} SameWindow(rows: seq<ProtocolRow>, from: int, to: int)
    requires from <= to && NoRowBetween(rows, from, to)
    ensures FilterRowsByTimeNs(rows, Some(from)) == FilterRowsByTimeNs(rows, Some(to))
  {
    if rows != [] {
      assert NoRowBetween(rows[..|rows| - 1], from, to);
      SameWindow(rows[..|rows| - 1], from, to);
    }
  }

  /** The latest row in the window, if it has any. */
  lemma {:induction false} LatestWithin(rows: seq<ProtocolRow>, end: int) returns (i: Option<nat>)
    ensures i.None? ==> forall k :: 0 <= k < |rows| ==> rows[k].timeNs > end
    ensures i.Some? ==> i.value < |rows| && rows[i.value].timeNs <= end && NoRowBetween(rows, rows[i.value].timeNs, end)
  {
    if rows == [] {
      i := None;
    } else {
      var front, last := rows[..|rows| - 1], rows[|rows| - 1];
      i := LatestWithin(front, end);
      if last.timeNs <= end && (i == None || front[i.value].timeNs <= last.timeNs) {
        i := Some(|front|);
      }
    }
  }

  lemma {:induction false} EmptyWindow(rows: seq<ProtocolRow>, end: int)
    requires forall k :: 0 <= k < |rows| ==> rows[k].timeNs > end
    ensures FilterRowsByTimeNs(rows, Some(end)) == []
  {
    if rows != [] {
      EmptyWindow(rows[..|rows| - 1], end);
    }
  }

  ghost predicate NoWindowTotalExceeds(rows: seq<ProtocolRow>, column: string) {
    forall end :: TotalOver(FilterRowsByTimeNs(rows, end), column) <= TotalOver(rows, column)
  }

  /** The whole total is not negative, and no window that ends at the time of some row exceeds it. */
  ghost predicate WholeIsGreatest(rows: seq<ProtocolRow>, column: string) {
    && TotalOver(rows, column) >= 0
    && forall i :: 0 <= i < |rows| ==>
         TotalOver(FilterRowsByTimeNs(rows, Some(rows[i].timeNs)), column) <= TotalOver(rows, column)
  }

  /** No window's total exceeds that of the log exactly when none of these finitely many does, and the
      empty window does not either. */
  lemma NoWindowTotalExceedsIff(rows: seq<ProtocolRow>, column: string)
    ensures NoWindowTotalExceeds(rows, column) <==> WholeIsGreatest(rows, column)
  {
    if WholeIsGreatest(rows, column) {
      forall end
        ensures TotalOver(FilterRowsByTimeNs(rows, end), column) <= TotalOver(rows, column)
      {
        if end.Some? {
          var i := LatestWithin(rows, end.value);
          if i.Some? {
            SameWindow(rows, rows[i.value].timeNs, end.value);
          } else {
            EmptyWindow(rows, end.value);
          }
        }
      }
    }
    if NoWindowTotalExceeds(rows, column) {
      var time := BeforeAll(rows);
      EmptyWindow(rows, time);
      assert TotalOver(FilterRowsByTimeNs(rows, Some(time)), column) <= TotalOver(rows, column);
    }
  }

  /** Every value of a device is at most its last one, which is not negative. */
  ghost predicate ValuesAtMostLast(rows: seq<ProtocolRow>, column: string) {
    && (forall d :: LastValue(rows, d, column) >= 0)
    && forall i :: 0 <= i < |rows| ==> rows[i].Value(column) <= LastValue(rows, rows[i].device, column)
  }

  lemma AtMostLastSuffices(rows: seq<ProtocolRow>, d: Device, column: string)
    requires ValuesAtMostLast(rows, column)
    ensures LastIsGreatest(rows, d, column)
  {
  }

  /** A counter that never decreases in the log is such a column. */
  lemma NeverDecreasesSuffices(rows: seq<ProtocolRow>, column: string)
    requires NeverDecreases(rows, column)
    ensures ValuesAtMostLast(rows, column) && forall d :: LastIsGreatest(rows, d, column)
  {
    DevicesOfRows(rows);
    forall d
      ensures LastValue(rows, d, column) >= 0
    {
      if d in Devices(rows) {
        var i := LastValueAt(rows, d);
      } else {
        NoValue(rows, d, column);
      }
    }
    forall i | 0 <= i < |rows|
      ensures rows[i].Value(column) <= LastValue(rows, rows[i].device, column)
    {
      assert rows[i] in rows;
      var j := LastValueAt(rows, rows[i].device);
      assert i <= j;
    }
    forall d
      ensures LastIsGreatest(rows, d, column)
    {
      AtMostLastSuffices(rows, d, column);
    }
  }

  /** Peaks need no assumption: a window has no row that the log lacks. */
  lemma WindowPeakAtMostWhole(rows: seq<ProtocolRow>, end: Option<int>, column: string)
    ensures PeakOver(FilterRowsByTimeNs(rows, end), column) <= PeakOver(rows, column)
  {
    WindowFromRows(rows, end);
    var value := (row: ProtocolRow) => row.Value(column);
    GreatestOfPart(value, value, FilterRowsByTimeNs(rows, end), rows);
  }

  /** A counter that is at most another one in every row has the smaller total. */
  lemma TotalsOrdered(rows: seq<ProtocolRow>, column: string, column': string)
    requires forall row :: row in rows ==> row.Value(column) <= row.Value(column')
    ensures TotalOver(rows, column) <= TotalOver(rows, column')
  {
    var f := (d: Device) => LastValue(rows, d, column);
    var g := (d: Device) => LastValue(rows, d, column');
    forall d | d in Devices(rows)
      ensures f(d) <= g(d)
    {
      var i := LastValueAt(rows, d);
      assert rows[i] in rows;
    }
    TotalMonotone(f, g, Devices(rows));
  }

  // ---------- the code ----------

  /** One entry of a field table: a log column and the name of its result. */
  datatype Field = Field(column: string, target: string)

  /** The field tables: which columns are cumulative, which are gauges reported by their peak, and which
      cumulative ones are fabric-wide, so that devices repeat rather than share them. */
  datatype FieldTables = FieldTables(
    cumulative: seq<Field>, peak: seq<Field>, fabricGlobal: set<string>, fabricPeak: set<string>) {

    /** No two entries of the tables share a target. */
    ghost predicate Valid() {
      && Distinct(cumulative) && Distinct(peak)
      && (forall i, j :: 0 <= i < |cumulative| && 0 <= j < |peak| ==> cumulative[i].target != peak[j].target)
    }
  }

  ghost function CumulativeOver(rows: seq<ProtocolRow>, tables: FieldTables, field: Field): int {
    if field.target in tables.fabricGlobal then GreatestOver(rows, field.column) else TotalOver(rows, field.column)
  }

  /** `CumulativeOver` once the first `n` devices have been counted. */
  ghost function CumulativeSoFar(rows: seq<ProtocolRow>, tables: FieldTables, field: Field, n: nat): int
    requires n <= |Devices(rows)|
  {
    var value := (d: Device) => LastValue(rows, d, field.column);
    if field.target in tables.fabricGlobal then GreatestOf(value, Devices(rows)[..n])
    else TotalOf(value, Devices(rows)[..n])
  }

  ghost predicate Distinct(fields: seq<Field>) {
    forall i, j :: 0 <= i < j < |fields| ==> fields[i].target != fields[j].target
  }

  ghost predicate Covers(result: map<string, int>, fields: seq<Field>) {
    forall k :: 0 <= k < |fields| ==> fields[k].target in result
  }

  /** Only targets of `fields` differ. */
  ghost predicate ChangesOnly(before: map<string, int>, after: map<string, int>, fields: seq<Field>) {
    && after.Keys == before.Keys
    && forall t :: t in before && (forall k :: 0 <= k < |fields| ==> fields[k].target != t) ==> after[t] == before[t]
  }

  /** `final_by_device`: the dictionary of each device's last row, with its keys in insertion order. */
  method FinalByDevice(rows: seq<ProtocolRow>) returns (order: seq<Device>, final: map<Device, ProtocolRow>)
    ensures order == Devices(rows)
    ensures forall d :: d in final <==> d in order
    ensures forall d, column :: d in order ==> final[d].Value(column) == LastValue(rows, d, column)
  {
    order, final := [], map[];
    for i := 0 to |rows|
      invariant order == Devices(rows[..i])
      invariant forall d :: d in final <==> d in order
      invariant forall d, column :: d in order ==> final[d].Value(column) == LastValue(rows[..i], d, column)
    {
      assert rows[..i + 1][..i] == rows[..i];
      if rows[i].device !in final {
        order := order + [rows[i].device];
      }
      final := final[rows[i].device := rows[i]];
    }
    assert rows[..|rows|] == rows;
  }

  /** One row raises the peaks. */
  method RaisePeaks(before: map<string, int>, row: ProtocolRow, fields: seq<Field>) returns (result: map<string, int>)
    requires Distinct(fields) && Covers(before, fields)
    ensures ChangesOnly(before, result, fields)
    ensures forall k :: 0 <= k < |fields| ==>
              result[fields[k].target] == Max(before[fields[k].target], row.Value(fields[k].column))
  {
    result := before;
    for j := 0 to |fields|
      invariant ChangesOnly(before, result, fields)
      invariant forall k :: 0 <= k < |fields| ==>
                  result[fields[k].target] == if k < j then Max(before[fields[k].target], row.Value(fields[k].column))
                                              else before[fields[k].target]
    {
      result := result[fields[j].target := Max(result[fields[j].target], row.Value(fields[j].column))];
    }
  }

  /** One device's last row is counted: fabric-wide columns by maximum, the others by sum. */
  method CountDevice(before: map<string, int>, row: ProtocolRow, tables: FieldTables) returns (result: map<string, int>)
    requires tables.Valid() && Covers(before, tables.cumulative)
    ensures ChangesOnly(before, result, tables.cumulative)
    ensures forall k :: 0 <= k < |tables.cumulative| ==>
              var field := tables.cumulative[k];
              result[field.target] == if field.target in tables.fabricGlobal
                                      then Max(before[field.target], row.Value(field.column))
                                      else before[field.target] + row.Value(field.column)
  {
    result := before;
    for j := 0 to |tables.cumulative|
      invariant ChangesOnly(before, result, tables.cumulative)
      invariant forall k :: j <= k < |tables.cumulative| ==>
                  result[tables.cumulative[k].target] == before[tables.cumulative[k].target]
      invariant forall k :: 0 <= k < j ==>
                  var field := tables.cumulative[k];
                  result[field.target] == if field.target in tables.fabricGlobal
                                          then Max(before[field.target], row.Value(field.column))
                                          else before[field.target] + row.Value(field.column)
    {
      var field := tables.cumulative[j];
      var value := row.Value(field.column);
      if field.target in tables.fabricGlobal {
        result := result[field.target := Max(result[field.target], value)];
      } else {
        result := result[field.target := result[field.target] + value];
      }
    }
  }

  /** The peaks once the first `n` rows have been read. */
  ghost predicate PeaksRead(result: map<string, int>, tables: FieldTables, rows: seq<ProtocolRow>, n: nat)
    requires n <= |rows|
  {
    && Covers(result, tables.peak)
    && forall k :: 0 <= k < |tables.peak| ==>
         result[tables.peak[k].target] == PeakOver(rows[..n], tables.peak[k].column)
  }

  /** The cumulative results once the first `n` devices have been counted. */
  ghost predicate DevicesCounted(result: map<string, int>, tables: FieldTables, rows: seq<ProtocolRow>, n: nat)
    requires n <= |Devices(rows)|
  {
    && Covers(result, tables.cumulative)
    && forall k :: 0 <= k < |tables.cumulative| ==>
         result[tables.cumulative[k].target] == CumulativeSoFar(rows, tables, tables.cumulative[k], n)
  }

  lemma CountedNext(rows: seq<ProtocolRow>, tables: FieldTables, field: Field, n: nat)
    requires n < |Devices(rows)|
    ensures var value := LastValue(rows, Devices(rows)[n], field.column);
            CumulativeSoFar(rows, tables, field, n + 1)
            == if field.target in tables.fabricGlobal
               then Max(CumulativeSoFar(rows, tables, field, n), value)
               else CumulativeSoFar(rows, tables, field, n) + value
  {
    assert Devices(rows)[..n + 1][..n] == Devices(rows)[..n];
  }

  method Zeroes(fields: seq<Field>, before: map<string, int>) returns (result: map<string, int>)
    ensures Covers(result, fields) && before.Keys <= result.Keys
    ensures forall k :: 0 <= k < |fields| ==> result[fields[k].target] == 0
    ensures forall t :: t in before && (forall k :: 0 <= k < |fields| ==> fields[k].target != t) ==> result[t] == before[t]
  {
    result := before;
    for j := 0 to |fields|
      invariant before.Keys <= result.Keys
      invariant forall k :: 0 <= k < j ==> fields[k].target in result && result[fields[k].target] == 0
      invariant forall t :: t in before && (forall k :: 0 <= k < |fields| ==> fields[k].target != t) ==> result[t] == before[t]
    {
      result := result[fields[j].target := 0];
    }
  }

  method ReadPeaks(before: map<string, int>, rows: seq<ProtocolRow>, tables: FieldTables) returns (result: map<string, int>)
    requires tables.Valid() && PeaksRead(before, tables, rows, 0)
    ensures PeaksRead(result, tables, rows, |rows|) && ChangesOnly(before, result, tables.peak)
  {
    result := before;
    for i := 0 to |rows|
      invariant PeaksRead(result, tables, rows, i) && ChangesOnly(before, result, tables.peak)
    {
      assert rows[..i + 1][..i] == rows[..i];
      result := RaisePeaks(result, rows[i], tables.peak);
    }
  }

  method CountDevices(before: map<string, int>, rows: seq<ProtocolRow>, tables: FieldTables) returns (result: map<string, int>)
    requires tables.Valid() && DevicesCounted(before, tables, rows, 0)
    ensures DevicesCounted(result, tables, rows, |Devices(rows)|) && ChangesOnly(before, result, tables.cumulative)
  {
    result := before;
    var order, final := FinalByDevice(rows);
    for n := 0 to |order|
      invariant DevicesCounted(result, tables, rows, n) && ChangesOnly(before, result, tables.cumulative)
    {
      forall k | 0 <= k < |tables.cumulative| {
        CountedNext(rows, tables, tables.cumulative[k], n);
      }
      result := CountDevice(result, final[order[n]], tables);
    }
  }

  /** The code raises the fabric peaks a second time, which changes nothing. */
  method RepeatFabricPeaks(before: map<string, int>, rows: seq<ProtocolRow>, tables: FieldTables)
    returns (result: map<string, int>)
    requires PeaksRead(before, tables, rows, |rows|)
    ensures result == before
  {
    result := before;
    for i := 0 to |rows|
      invariant result == before
    {
      for j := 0 to |tables.peak|
        invariant result == before
      {
        var field := tables.peak[j];
        if field.target in tables.fabricPeak {
          PeakBounds(rows, i, field.column);
          result := result[field.target := Max(result[field.target], rows[i].Value(field.column))];
        }
      }
    }
  }

  lemma PeakBounds(rows: seq<ProtocolRow>, i: nat, column: string)
    requires i < |rows|
    ensures rows[i].Value(column) <= PeakOver(rows[..|rows|], column)
  {
    assert rows[..|rows|] == rows;
    GreatestBounds((row: ProtocolRow) => row.Value(column), rows);
    assert rows[i] in rows;
  }

  /** The fields of the two tables, and the number of rows. */
  method AggregateProtocolRows(rows: seq<ProtocolRow>, tables: FieldTables)
    returns (result: map<string, int>, protocolRows: nat)
    requires tables.Valid()
    ensures protocolRows == |rows|
    ensures Covers(result, tables.cumulative) && Covers(result, tables.peak)
    ensures forall k :: 0 <= k < |tables.cumulative| ==>
              result[tables.cumulative[k].target] == CumulativeOver(rows, tables, tables.cumulative[k])
    ensures forall k :: 0 <= k < |tables.peak| ==>
              result[tables.peak[k].target] == PeakOver(rows, tables.peak[k].column)
  {
    result := Zeroes(tables.cumulative, map[]);
    result := Zeroes(tables.peak, result);
    protocolRows := |rows|;
    assert DevicesCounted(result, tables, rows, 0) && PeaksRead(result, tables, rows, 0);
    result := ReadPeaks(result, rows, tables);
    result := CountDevices(result, rows, tables);
    assert PeaksRead(result, tables, rows, |rows|);
    result := RepeatFabricPeaks(result, rows, tables);
    assert rows[..|rows|] == rows && Devices(rows)[..|Devices(rows)|] == Devices(rows);
  }

  // ---------- the state at the end of the log ----------

  /** Operations and resources still in use. */
  const GAUGES: seq<string> := [
    "OpsInFlight", "ActiveRetryStates", "ActiveReadResponseStates",
    "ReadTrackInUse", "TpdcPendingSacks", "TpdcPendingGapNacks"]

  const FINAL_COLUMNS: seq<string> := [
    "OpsStartedTotal", "OpsTerminalTotal", "OpsSuccessTotal", "OpsFailedTotal"] + GAUGES

  /** The final totals, under the names of their columns. */
  datatype FinalState = FinalState(
    totals: map<string, int>, completionRatePct: real, terminalizationRatePct: real, drainCompleted: bool)

  /** A rate in percent, 0 when nothing was started. */
  function RatePct(part: int, started: int): real {
    if started > 0 then Round6((part * 100) as real / started as real) else 0.0
  }

  ghost predicate IsFinalState(rows: seq<ProtocolRow>, state: FinalState) {
    && (forall column :: column in state.totals <==> column in FINAL_COLUMNS)
    && (forall column :: column in FINAL_COLUMNS ==> state.totals[column] == TotalOver(rows, column))
    && state.completionRatePct == RatePct(TotalOver(rows, "OpsSuccessTotal"), TotalOver(rows, "OpsStartedTotal"))
    && state.terminalizationRatePct == RatePct(TotalOver(rows, "OpsTerminalTotal"), TotalOver(rows, "OpsStartedTotal"))
    && state.drainCompleted == forall g :: g in GAUGES ==> TotalOver(rows, g) == 0
  }

  ghost function TotalSoFar(rows: seq<ProtocolRow>, column: string, n: nat): int
    requires n <= |Devices(rows)|
  {
    TotalOf((d: Device) => LastValue(rows, d, column), Devices(rows)[..n])
  }

  lemma TotalNext(rows: seq<ProtocolRow>, column: string, n: nat)
    requires n < |Devices(rows)|
    ensures TotalSoFar(rows, column, n + 1) == TotalSoFar(rows, column, n) + LastValue(rows, Devices(rows)[n], column)
  {
    assert Devices(rows)[..n + 1][..n] == Devices(rows)[..n];
  }

  /** One row is added to the totals of the listed columns. */
  method AddRow(before: map<string, int>, row: ProtocolRow, columns: seq<string>) returns (totals: map<string, int>)
    requires NoDuplicates(columns) && forall column :: column in before <==> column in columns
    ensures forall column :: column in totals <==> column in columns
    ensures forall column :: column in columns ==> totals[column] == before[column] + row.Value(column)
  {
    totals := before;
    for k := 0 to |columns|
      invariant forall column :: column in totals <==> column in columns
      invariant forall column :: column in columns[..k] ==> totals[column] == before[column] + row.Value(column)
      invariant forall column :: column in columns[k..] ==> totals[column] == before[column]
    {
      NextColumn(columns, k);
      totals := totals[columns[k] := totals[columns[k]] + row.Value(columns[k])];
    }
    assert columns[..|columns|] == columns;
  }

  /** The totals of the listed columns, over the last rows of all devices. */
  method FinalTotals(rows: seq<ProtocolRow>, columns: seq<string>) returns (totals: map<string, int>)
    requires NoDuplicates(columns)
    ensures forall column :: column in totals <==> column in columns
    ensures forall column :: column in columns ==> totals[column] == TotalOver(rows, column)
  {
    var order, final := FinalByDevice(rows);
    totals := map column | column in columns :: 0;
    for n := 0 to |order|
      invariant forall column :: column in totals <==> column in columns
      invariant forall column :: column in columns ==> totals[column] == TotalSoFar(rows, column, n)
    {
      forall column | column in columns {
        TotalNext(rows, column, n);
      }
      totals := AddRow(totals, final[order[n]], columns);
    }
    assert order[..|order|] == order;
  }

  lemma NextColumn(columns: seq<string>, k: nat)
    requires NoDuplicates(columns) && k < |columns|
    ensures columns[k] !in columns[..k] && columns[k] !in columns[k + 1..] && columns[k] in columns[k..]
    ensures forall column :: column in columns[..k + 1] <==> column in columns[..k] || column == columns[k]
    ensures forall column :: column in columns[k + 1..] ==> column in columns[k..]
  {
    assert columns[k..] == [columns[k]] + columns[k + 1..];
  }

  lemma FinalColumnsDistinct()
    ensures NoDuplicates(FINAL_COLUMNS)
    ensures forall g :: g in GAUGES ==> g in FINAL_COLUMNS
    ensures "OpsStartedTotal" in FINAL_COLUMNS && "OpsTerminalTotal" in FINAL_COLUMNS && "OpsSuccessTotal" in FINAL_COLUMNS
  {
    assert FINAL_COLUMNS[0] == "OpsStartedTotal" && FINAL_COLUMNS[1] == "OpsTerminalTotal" && FINAL_COLUMNS[2] == "OpsSuccessTotal";
  }

  method AggregateFinalProtocolState(rows: seq<ProtocolRow>) returns (state: FinalState)
    ensures IsFinalState(rows, state)
    ensures var started := TotalOver(rows, "OpsStartedTotal");
            && state.completionRatePct == RatePct(TotalOver(rows, "OpsSuccessTotal"), started)
            && state.terminalizationRatePct == RatePct(TotalOver(rows, "OpsTerminalTotal"), started)
  {
    FinalColumnsDistinct();
    var totals := FinalTotals(rows, FINAL_COLUMNS);
    var drained := true;
    for k := 0 to |GAUGES|
      invariant drained <==> forall g :: g in GAUGES[..k] ==> TotalOver(rows, g) == 0
    {
      assert GAUGES[..k + 1] == GAUGES[..k] + [GAUGES[k]];
      drained := drained && totals[GAUGES[k]] == 0;
    }
    assert GAUGES[..|GAUGES|] == GAUGES;
    state := FinalState(totals,
                        RatePct(totals["OpsSuccessTotal"], totals["OpsStartedTotal"]),
                        RatePct(totals["OpsTerminalTotal"], totals["OpsStartedTotal"]),
                        drained);
  }

  lemma {:induction false} TotalZeroIff<T>(f: T -> int, s: seq<T>)
    requires forall x :: x in s ==> f(x) >= 0
    ensures TotalOf(f, s) == 0 <==> forall x :: x in s ==> f(x) == 0
  {
    if s != [] {
      var front, last := s[..|s| - 1], s[|s| - 1];
      assert s == front + [last];
      TotalZeroIff(f, front);
      TotalNonNegative(f, front);
    }
  }

  ghost predicate NeverNegative(rows: seq<ProtocolRow>, column: string) {
    forall row :: row in rows ==> row.Value(column) >= 0
  }

  /** Every device's last row has 0 in the column. */
  ghost predicate Idle(rows: seq<ProtocolRow>, column: string) {
    forall d :: d in Devices(rows) ==> LastValue(rows, d, column) == 0
  }

  lemma GaugeZeroIff(rows: seq<ProtocolRow>, column: string)
    requires NeverNegative(rows, column)
    ensures TotalOver(rows, column) == 0 <==> Idle(rows, column)
  {
    forall d | d in Devices(rows)
      ensures LastValue(rows, d, column) >= 0
    {
      var i := LastValueAt(rows, d);
      assert rows[i] in rows;
    }
    TotalZeroIff((d: Device) => LastValue(rows, d, column), Devices(rows));
  }

  /** With gauges that are never negative, the drain is complete iff every device's last row is idle. */
  lemma DrainCompletedIff(rows: seq<ProtocolRow>, state: FinalState)
    requires IsFinalState(rows, state)
    requires forall g :: g in GAUGES ==> NeverNegative(rows, g)
    ensures state.drainCompleted <==> forall g :: g in GAUGES ==> Idle(rows, g)
  {
    forall g | g in GAUGES
      ensures TotalOver(rows, g) == 0 <==> Idle(rows, g)
    {
      GaugeZeroIff(rows, g);
    }
  }

  lemma RateMonotone(part: int, part': int, started: int)
    requires part <= part'
    ensures RatePct(part, started) <= RatePct(part', started)
  {
    if started > 0 {
      RoundMonotone((part * 100) as real / started as real, (part' * 100) as real / started as real);
    }
  }

  /** A rate is the part in percent of the operations started, up to the rounding. */
  lemma RateIs(part: int, started: int)
    ensures started <= 0 ==> RatePct(part, started) == 0.0
    ensures started > 0 ==>
              var exact := (100 * part) as real / started as real;
              exact - 0.0000005 <= RatePct(part, started) <= exact + 0.0000005
  {
    if started > 0 {
      RoundError((part * 100) as real / started as real);
    }
  }

  /** No more operations can be reported complete than terminated, in percent too. */
  lemma RatesOrdered(rows: seq<ProtocolRow>, state: FinalState)
    requires IsFinalState(rows, state)
    requires forall row :: row in rows ==> row.Value("OpsSuccessTotal") <= row.Value("OpsTerminalTotal")
    ensures state.completionRatePct <= state.terminalizationRatePct
  {
    TotalsOrdered(rows, "OpsSuccessTotal", "OpsTerminalTotal");
    RateMonotone(TotalOver(rows, "OpsSuccessTotal"), TotalOver(rows, "OpsTerminalTotal"), TotalOver(rows, "OpsStartedTotal"));
  }

  // ---------- the consistency check ----------

  datatype Summary = Summary(
    completionRows: int, completionSuccessRows: int,
    opsTerminalTotal: int, opsSuccessTotal: int,
    sendSuccessTotal: int, writeSuccessTotal: int, readSuccessTotal: int,
    sendSuccessCompletions: int, writeSuccessCompletions: int, readSuccessCompletions: int,
    sendSuccessBytes: int, writeSuccessBytes: int, readSuccessBytes: int,
    sendSuccessPayloadBytes: int, writeSuccessPayloadBytes: int, readSuccessPayloadBytes: int,
    opsTerminalTotalFinal: int, opsSuccessTotalFinal: int,
    drainWindowSeconds: real, drainCompleted: bool)

  datatype Verdict =
    | Consistent
    | RunExit(code: int)
    | ProtocolCsvMissingOrEmpty
    | CompletionCsvMissingOrEmpty
    | OpsTerminalTotalLessThanOpsSuccessTotal
    | OpsSuccessTotalMismatchCompletionSuccessRows
    | SendSuccessTotalMismatchCompletionRows
    | WriteSuccessTotalMismatchCompletionRows
    | ReadSuccessTotalMismatchCompletionRows
    | SendSuccessBytesTotalMismatchCompletionPayload
    | WriteSuccessBytesTotalMismatchCompletionPayload
    | ReadSuccessBytesTotalMismatchCompletionPayload
    | OpsTerminalTotalFinalLessThanOpsSuccessTotalFinal
    | OpsSuccessTotalFinalLessThanWindowSuccessTotal
    | DrainNotCompleted

  function ValidateSummaryConsistency(s: Summary): Verdict {
    if s.completionRows <= 0 then CompletionCsvMissingOrEmpty
    else if s.opsTerminalTotal < s.opsSuccessTotal then OpsTerminalTotalLessThanOpsSuccessTotal
    else if s.opsSuccessTotal != s.completionSuccessRows then OpsSuccessTotalMismatchCompletionSuccessRows
    else if s.sendSuccessTotal != s.sendSuccessCompletions then SendSuccessTotalMismatchCompletionRows
    else if s.writeSuccessTotal != s.writeSuccessCompletions then WriteSuccessTotalMismatchCompletionRows
    else if s.readSuccessTotal != s.readSuccessCompletions then ReadSuccessTotalMismatchCompletionRows
    else if s.sendSuccessBytes != s.sendSuccessPayloadBytes then SendSuccessBytesTotalMismatchCompletionPayload
    else if s.writeSuccessBytes != s.writeSuccessPayloadBytes then WriteSuccessBytesTotalMismatchCompletionPayload
    else if s.readSuccessBytes != s.readSuccessPayloadBytes then ReadSuccessBytesTotalMismatchCompletionPayload
    else if s.opsTerminalTotalFinal < s.opsSuccessTotalFinal then OpsTerminalTotalFinalLessThanOpsSuccessTotalFinal
    else if s.opsSuccessTotalFinal < s.opsSuccessTotal then OpsSuccessTotalFinalLessThanWindowSuccessTotal
    else if s.drainWindowSeconds > 0.0 && !s.drainCompleted then DrainNotCompleted
    else Consistent
  }

  /** The protocol part of a run's summary: windowed totals beside those of the whole log. */
  ghost predicate SummarizesLog(s: Summary, rows: seq<ProtocolRow>, end: Option<int>) {
    var window := FilterRowsByTimeNs(rows, end);
    && s.opsTerminalTotal == TotalOver(window, "OpsTerminalTotal")
    && s.opsSuccessTotal == TotalOver(window, "OpsSuccessTotal")
    && s.sendSuccessTotal == TotalOver(window, "SendSuccessTotal")
    && s.writeSuccessTotal == TotalOver(window, "WriteSuccessTotal")
    && s.readSuccessTotal == TotalOver(window, "ReadSuccessTotal")
    && s.sendSuccessBytes == TotalOver(window, "SendSuccessBytesTotal")
    && s.writeSuccessBytes == TotalOver(window, "WriteSuccessBytesTotal")
    && s.readSuccessBytes == TotalOver(window, "ReadSuccessBytesTotal")
    && s.opsTerminalTotalFinal == TotalOver(rows, "OpsTerminalTotal")
    && s.opsSuccessTotalFinal == TotalOver(rows, "OpsSuccessTotal")
  }

  /** Three checks compare the log with itself; for logs whose counters behave they cannot fire, whatever
      the window and whatever the completion rows say. */
  lemma BoundedLogPasses(s: Summary, rows: seq<ProtocolRow>, end: Option<int>)
    requires SummarizesLog(s, rows, end)
    requires WholeIsGreatest(rows, "OpsSuccessTotal")
    requires forall row :: row in rows ==> row.Value("OpsSuccessTotal") <= row.Value("OpsTerminalTotal")
    ensures ValidateSummaryConsistency(s) != OpsTerminalTotalLessThanOpsSuccessTotal
    ensures ValidateSummaryConsistency(s) != OpsTerminalTotalFinalLessThanOpsSuccessTotalFinal
    ensures ValidateSummaryConsistency(s) != OpsSuccessTotalFinalLessThanWindowSuccessTotal
  {
    WindowFromRows(rows, end);
    TotalsOrdered(FilterRowsByTimeNs(rows, end), "OpsSuccessTotal", "OpsTerminalTotal");
    TotalsOrdered(rows, "OpsSuccessTotal", "OpsTerminalTotal");
    NoWindowTotalExceedsIff(rows, "OpsSuccessTotal");
  }

  /** It is enough that the condition holds device by device. */
  lemma DevicesSuffice(rows: seq<ProtocolRow>, column: string)
    requires forall d :: LastIsGreatest(rows, d, column)
    ensures WholeIsGreatest(rows, column)
  {
    forall end
      ensures TotalOver(FilterRowsByTimeNs(rows, end), column) <= TotalOver(rows, column)
    {
      WindowAtMostWhole(rows, end, column);
    }
    NoWindowTotalExceedsIff(rows, column);
  }

  lemma OneDevice(rows: seq<ProtocolRow>, d: Device, column: string)
    requires Devices(rows) == [d]
    ensures TotalOver(rows, column) == LastValue(rows, d, column)
  {
    var value := (x: Device) => LastValue(rows, x, column);
    assert TotalOf(value, [d]) == TotalOf(value, [d][..0]) + value(d);
  }

  lemma TwoRows(early: ProtocolRow, late: ProtocolRow, end: int)
    requires early.device == late.device && early.timeNs <= end < late.timeNs
    ensures forall column ::
              && TotalOver(FilterRowsByTimeNs([early, late], Some(end)), column) == early.Value(column)
              && TotalOver([early, late], column) == late.Value(column)
  {
    var d, rows := early.device, [early, late];
    assert rows[..|rows| - 1] == [early] && [early][..|[early]| - 1] == [];
    assert FilterByTime(TimeOf, [], Some(end)) == [];
    assert FilterRowsByTimeNs([early], Some(end)) == [] + [early];
    assert FilterRowsByTimeNs(rows, Some(end)) == [early] + [] == [early];
    assert Devices([]) == [];
    assert Devices([early]) == [d];
    assert Devices(rows) == [d];
    forall column
      ensures TotalOver([early], column) == early.Value(column) && TotalOver(rows, column) == late.Value(column)
    {
      OneDevice([early], d, column);
      OneDevice(rows, d, column);
    }
  }

  /** The summary of such a log when the completion rows agree with the window. */
  function AgreeingSummary(early: ProtocolRow, late: ProtocolRow): Summary {
    var success := early.Value("OpsSuccessTotal");
    var sends, writes, fetches :=
      early.Value("SendSuccessTotal"), early.Value("WriteSuccessTotal"), early.Value("ReadSuccessTotal");
    var sent, written, fetched :=
      early.Value("SendSuccessBytesTotal"), early.Value("WriteSuccessBytesTotal"), early.Value("ReadSuccessBytesTotal");
    Summary(1, success, early.Value("OpsTerminalTotal"), success,
            sends, writes, fetches, sends, writes, fetches, sent, written, fetched, sent, written, fetched,
            late.Value("OpsTerminalTotal"), late.Value("OpsSuccessTotal"), 0.0, true)
  }

  lemma SummarizesTwoRows(early: ProtocolRow, late: ProtocolRow, end: int)
    requires early.device == late.device && early.timeNs <= end < late.timeNs
    ensures SummarizesLog(AgreeingSummary(early, late), [early, late], Some(end))
  {
    TwoRows(early, late, end);
  }

  lemma VerdictOfTwoRows(early: ProtocolRow, late: ProtocolRow)
    requires early.Value("OpsSuccessTotal") == 1 == early.Value("OpsTerminalTotal")
    requires late.Value("OpsSuccessTotal") == 0 == late.Value("OpsTerminalTotal")
    ensures ValidateSummaryConsistency(AgreeingSummary(early, late)) == OpsSuccessTotalFinalLessThanWindowSuccessTotal
  {
  }

  /** A counter that is reset within the log makes the last of the three fire. */
  lemma ResetCounterFires() returns (s: Summary, rows: seq<ProtocolRow>, end: Option<int>)
    ensures SummarizesLog(s, rows, end)
    ensures forall row :: row in rows ==> row.Value("OpsSuccessTotal") <= row.Value("OpsTerminalTotal")
    ensures ValidateSummaryConsistency(s) == OpsSuccessTotalFinalLessThanWindowSuccessTotal
  {
    var d := Device("0", "1");
    var early := ProtocolRow(d, 1, map["OpsSuccessTotal" := 1, "OpsTerminalTotal" := 1]);
    var late := ProtocolRow(d, 2, map[]);
    rows, end, s := [early, late], Some(1), AgreeingSummary(early, late);
    SummarizesTwoRows(early, late, 1);
    VerdictOfTwoRows(early, late);
  }
}
