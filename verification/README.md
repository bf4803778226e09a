# Verified models of the ns-3 / soft-ue tools

Dafny models of the algorithmic code in this repository: the configuration-path search of the
documentation generator, the load order of the Python bindings, the line fixer of the style checker,
the aggregation of benchmark traces, three small numeric loops and a chunked socket writer. Each model
follows its source file branch by branch; code that updates objects, dictionaries or buffers in place
is a class or a method with loops here, proved against a specification, and the properties are proved
about that specification for all inputs and all runs.

`dafny verify dfyconfig.toml` checks the whole project.

| module (file) | source | main results |
|---|---|---|
| `TypeGraph`, `ConfigPaths` (`StaticInformation.dfy`) | utils/print-introspected-doxygen.cc | the search records exactly the simple labelled paths, once each, in depth-first order, on any graph with any cycles; both stacks are restored |
| `LoadOrder` | bindings/python/ns__init__.py | step k holds the libraries whose longest dependency chain has k links; the run completes iff no library reaches a cycle or a missing library |
| `StyleText`, `StyleFixer` | utils/check-style-clang-format.py | files that were fixed pass the next run, even when fixing creates a format guard; exactly which lines such a guard hides |
| `Percentiles` | performance/soft_ue_truth_benchmark_lib.py | percentiles interpolate between neighbours, are monotone in the percentile and in the data, and independent of row order |
| `SessionProgress` | same | last row and largest buffer per session; the order of the report; it ignores the row order iff tied last rows agree |
| `ProtocolTotals`, `RunVerdict` | same | totals of a window against totals of the whole log; exactly when some window shows more; a run passes iff its logs meet fourteen conditions, and the verdict is the first it fails |
| `PeerPairs`, `PeerPairReport`, `PeerPairOrder` | same | what every record and top pair counts; completions are conserved iff no failure row names a completion counter as its stage; the report depends on the row order iff two tied records were first met in the same log |
| `MixedRadix`, `MatrixExpansion` | same | the expansion is counting in mixed radix; the last override layer wins |
| `Welford` | utils/bench-scheduler.cc | the one-pass average and second moment equal their two-pass definitions |
| `Fairness` | examples/tcp/dctcp-example.cc | exactly when the printed index is that of the formula, though its 64-bit operands may wrap; where nothing wraps it lies in [1/n, 1] |
| `ChunkedWriter` | examples/socket/socket-bound-tcp-static-routing.cc | over every interleaving, the accepted bytes are the buffer repeated cyclically; the lists of calls under which every flow reaches its own socket |
| `StageShares` | performance/run-soft-ue-fabric-read-stage-diagnose.py | six rounded shares sum to 100 up to the rounding, and the dominant stage has the largest |

`Basics`, `Bags`, `Sorting`, `StableSort`, `TupleOrder` and `Rounding` hold what the models share: multisets
of sequences, Python's stable sort, its order on tuples, and `round(x, 6)` on mathematical reals.

## Where the code differs from what one would expect

- `SessionProgress.HintNeedsNegativeAcks`: the hint `retransmit_without_ack_progress` is given only if a
  count of received acknowledgements is negative; the two branches above it take every other case.
- `PeerPairs.ConservedIff`: a failure row's `Stage` is used as a key of the pair's record, so a stage
  called `success_completions` bumps that counter; the sum is right iff no failure row has such a stage.
- `PeerPairs.RecordNamesPairIff`: a stage called `local_fep` changes the identity the record is sorted by.
  Records can tie then, and the report depends on the row order in exactly the cases that
  `PeerPairOrder.OrderFreeIff` gives; `StageCanReorder` is one of them.
- `MatrixExpansion.AskedForIff`: overrides of the name `default` are never applied in the five groups other
  than `profile_overrides`, though the validation accepts them (`DefaultOverrideIgnored`).
- `MatrixExpansion.FilterWithoutEffectIff`: an empty profile filter filters nothing.
- `StyleFixer.HiddenIff`: expanding a tab can turn a comment into a format guard, after which the lines
  behind it, up to the next guard, are no longer looked at; `FixCanCreateGuard` is a file where it does.
- `ChunkedWriter.Writer.WriteUntilBufferFull`: the writer also closes a socket whose transmit buffer is
  full; it does so at once, with nothing written, iff it is called without space before the total is
  reached (`ClosedEarly`).
- `ChunkedWriter.FlowsApartIff`: the byte counter belongs to no socket. What is sent of a flow is sure to
  go to its own socket iff no socket is called back with space while its flow is not the latest; in the run of
  `SharedCounter` one socket gets 20001 bytes and the other, whose flow it was, is closed with none.
- `Fairness.IndexIsFormulaIff`: both operands of the index are taken modulo 2^64, and the quotient is right
  iff they wrap alike. Ten equal flows of 2 GiB have no index at all (`FairFlowsWrap`), with one byte more
  each it is right (`WrappedAndRight`), and a single active flow of 2 GiB among ten is given 0.5 instead of
  0.1 (`WrongIndexPrinted`).
- `ProtocolTotals.NoWindowTotalExceedsIff`: when a window can show a larger total than the whole log, and
  `NoWindowExceedsIff` when a device can; a counter that is reset does (`ResetCounterFires`).
- `ConfigPaths.GetDistinctIff`: the comment on `Uniquefy` says that it works in place, but `Gather` gives it
  a copy. The output keeps the order of the search, and lists a path twice iff two simple walks spell it.

## Model

| member | source | states |
|---|---|---|
| TypeGraph.ExploreExact | utils/print-introspected-doxygen.cc:437-521 | the depth-first search reports a walk if and only if it meets no type twice and avoids the stack |
| TypeGraph.ExploreOrdered | utils/print-introspected-doxygen.cc:446-520 | the reported walks are strictly increasing in depth-first order, hence none twice |
| TypeGraph.ExploreIsTheList | utils/print-introspected-doxygen.cc:437-521 | any ordered list of exactly the simple walks is the list the search reports |
| TypeGraph.ReportedWalkShort | utils/print-introspected-doxygen.cc:437-521 | a reported path has at most (number of types - 1) components |
| TypeGraph.EnterType | utils/print-introspected-doxygen.cc:467-468 | the termination measure: pushing a type that is not on the stack leaves fewer types to enter |
| ConfigPaths.StaticInformation.RecordAggregationInfo | utils/print-introspected-doxygen.cc:318-338 | the first unregistered name is noted; otherwise one aggregation between the named types is added |
| ConfigPaths.StaticInformation.GetCurrentPath | utils/print-introspected-doxygen.cc:350-360 | cut at its slashes, the path is the empty piece followed by the pieces of every component of the path stack in order |
| ConfigPaths.StaticInformation.RecordOutput | utils/print-introspected-doxygen.cc:362-367 | exactly one entry is appended: the type with the current path |
| ConfigPaths.StaticInformation.HasAlreadyBeenProcessed | utils/print-introspected-doxygen.cc:369-381 | true if and only if the type is on the stack |
| ConfigPaths.StaticInformation.DoGather | utils/print-introspected-doxygen.cc:437-521 | terminates on every graph, restores both stacks, keeps them equally long and free of duplicates, and appends exactly what the search finds |
| ConfigPaths.StaticInformation.Gather | utils/print-introspected-doxygen.cc:429-435 | from empty stacks to empty stacks, appending what the search from the root finds |
| ConfigPaths.StaticInformation.GatherRoots | utils/print-introspected-doxygen.cc:576-580 | the whole run over the root namespace objects |
| ConfigPaths.StaticInformation.Get | utils/print-introspected-doxygen.cc:383-396 | the recorded paths of one type, in recording order |
| ConfigPaths.FoundRecords | utils/print-introspected-doxygen.cc:437-521 | the entries recorded by the code are the rendered walks of the search, in its order |
| ConfigPaths.GetIsRenderedWalks | utils/print-introspected-doxygen.cc:383-435 | the paths of a type are the renderings, in search order, of the walks that end there, one each |
| ConfigPaths.GetListsSimpleWalks | utils/print-introspected-doxygen.cc:383-521 | after one `Gather`, `Get` lists a path if and only if some simple walk from the root to the type spells it |
| ConfigPaths.SpellsIff | utils/print-introspected-doxygen.cc:350-381 | what it is to spell a path: the walk is simple, ends at the type, and the path cut at its slashes is the empty piece and the pieces of the walk's labels |
| ConfigPaths.GetDistinctIff | utils/print-introspected-doxygen.cc:398-435 | nothing removes repetitions: no path is listed twice if and only if no two simple walks to the type spell the same one |
| ConfigPaths.GetAfterRun | utils/print-introspected-doxygen.cc:383-580 | `Get` lists a path after the run over all roots if and only if some simple walk from some root spells it |
| LoadOrder.LoadedIffChainsWithin | bindings/python/ns__init__.py:440-451 | a library is loaded within n rounds if and only if its longest dependency chain has at most n libraries, none missing |
| LoadOrder.LoadedEventually | bindings/python/ns__init__.py:440-468 | a library is ever loaded if and only if it reaches no cycle and no missing library |
| LoadOrder.StepIsLongestChain | bindings/python/ns__init__.py:458-468 | step k holds exactly the libraries whose longest dependency chain has k links |
| LoadOrder.StepInKeyOrder | bindings/python/ns__init__.py:440-468 | a step lists its libraries in the order of the dictionary |
| LoadOrder.OrderIsTopological | bindings/python/ns__init__.py:470-475 | a completed order is a permutation of the keys with every dependency before its dependents |
| LoadOrder.StuckNeverCompletes | bindings/python/ns__init__.py:456-468 | a round that loads nothing while libraries are pending dooms the run |
| LoadOrder.StepsNonempty | bindings/python/ns__init__.py:456-468 | no step of a completed run is empty |
| LoadOrder.CompletesIff | bindings/python/ns__init__.py:453-468 | the run completes if and only if no library reaches a cycle or a missing library, and then within as many rounds as there are libraries |
| LoadOrder.Loader.ModulesThatCanBeLoaded | bindings/python/ns__init__.py:440-451 | the pending libraries whose dependencies are all loaded, in pending order |
| LoadOrder.Loader.LoadModules | bindings/python/ns__init__.py:458-465 | the listed libraries leave the pending list, join the loaded list and form the step |
| LoadOrder.Loader.DependencyOrder | bindings/python/ns__init__.py:453-468 | returns the steps if and only if all is loaded within the recursion bound, and a RecursionError otherwise |
| LoadOrder.Loader.SortToDependencies | bindings/python/ns__init__.py:470-475 | the flattened steps: a permutation of the keys, dependencies first |
| StyleText.ReadLinesOfJoin | utils/check-style-clang-format.py:643-678 | reading back the written lines gives the same lines |
| StyleText.NewlinesRead | utils/check-style-clang-format.py:643-644 | reading turns each of the three line breaks into a newline and keeps the text before it |
| StyleText.StripSplits | utils/check-style-clang-format.py:649-649 | `strip` removes white space at both ends, and all of it |
| StyleText.ExpansionKeepsStripped | utils/check-style-clang-format.py:979-983 | expanding tabs keeps the stripped text of a line whose stripped text has no tab |
| StyleText.ExpandedNext | utils/check-style-clang-format.py:979-983 | a tab becomes one to four spaces up to the next multiple of four columns; every other character stays |
| StyleFixer.CheckLines | utils/check-style-clang-format.py:646-673 | the in-place loop over the lines: verdict, every fixed line, and the line numbers reported |
| StyleFixer.LineTreated | utils/check-style-clang-format.py:646-673 | a line is fixed if and only if it is not compliant and, where guards count, no off guard precedes it without a guard after it; otherwise it is kept |
| StyleFixer.CompliantByLine | utils/check-style-clang-format.py:646-673 | a file is compliant if and only if every line that is looked at is |
| StyleFixer.FormatGuards | utils/check-style-clang-format.py:47-57 | which lines switch formatting on and off |
| StyleFixer.Directory.CheckManuallyFile | utils/check-style-clang-format.py:619-680 | the verdict is about the file before the call; only this file changes, only in fix mode, to its fixed lines |
| StyleFixer.Directory.CheckStyleFiles | utils/check-style-clang-format.py:428-495 | one check on its files: the verdict, and every file fixed in fix mode |
| StyleFixer.Directory.CheckStyle | utils/check-style-clang-format.py:409-425 | the loop over the enabled checks, each on its own files: the verdict, and the fixes one check after the other |
| StyleFixer.OtherFilesKept | utils/check-style-clang-format.py:409-425 | a fix run leaves every file alone that no check names |
| StyleFixer.TabsSound | utils/check-style-clang-format.py:959-991 | a line fixed by the tabs check is compliant, is one line, and is the same guard if it was one |
| StyleFixer.WhitespaceSound | utils/check-style-clang-format.py:926-956 | the same for the whitespace check |
| StyleFixer.WhitespaceLine | utils/check-style-clang-format.py:926-956 | the fixed line is the line without its trailing white space, and a newline; compliant if and only if only a newline was trailing |
| StyleFixer.TabsLine | utils/check-style-clang-format.py:959-991 | compliant if and only if there is no tab; otherwise the tabs are expanded and none is left |
| StyleFixer.CleanFile | utils/check-style-clang-format.py:619-680 | what the two checks find compliant: no line with white space before its newline, and no tab in a line that is not behind an off guard |
| StyleFixer.EnabledSimulation | utils/check-style-clang-format.py:646-673 | wherever formatting is enabled in the second pass, it was enabled in the first |
| StyleFixer.FixThenCheckPasses | utils/check-style-clang-format.py:619-680 | after a fix pass with any sound check, guards respected or not, a check pass finds the file compliant |
| StyleFixer.CompliantIffUnchanged | utils/check-style-clang-format.py:666-678 | a file is reported compliant if and only if a fix pass leaves its lines, or its content, alone |
| StyleFixer.TabsPassKeepsWhitespace | utils/check-style-clang-format.py:959-991 | a tabs pass keeps every file free of trailing white space |
| StyleFixer.StyleFixedPasses | utils/check-style-clang-format.py:409-425 | after a run in fix mode a run in check mode succeeds on all files, for any checks, by line or by tool, that settle their files and keep what the checks before them settled |
| StyleFixer.WhitespaceThenTabsPasses | utils/check-style-clang-format.py:380-393 | the whitespace and tabs checks are such checks, on any files |
| StyleFixer.HiddenIff | utils/check-style-clang-format.py:646-668 | a line is looked at in the first pass and not in the second if and only if an earlier line became an off guard when it was fixed and no guard follows it up to there |
| StyleFixer.FixCanCreateGuard | utils/check-style-clang-format.py:646-668 | a file whose first line becomes a guard when it is fixed, hiding the second line from the next pass |
| Percentiles.PercentileMonotone | performance/soft_ue_truth_benchmark_lib.py:1023-1033 | a higher percentile is never smaller, across interpolation boundaries |
| Percentiles.PercentileInterpolates | performance/soft_ue_truth_benchmark_lib.py:1023-1033 | at position k + w of the sorted values, w from 0 to 1 with both ends included, the percentile is the rounded point that divides values k and k + 1 in that ratio |
| Percentiles.FewValues | performance/soft_ue_truth_benchmark_lib.py:1024-1028 | of no values every percentile is 0, of a single one it is that value, rounded |
| Percentiles.PercentileEnds | performance/soft_ue_truth_benchmark_lib.py:1023-1033 | percentiles 0 and 1 are the rounded minimum and maximum |
| Percentiles.PercentileBounded | performance/soft_ue_truth_benchmark_lib.py:1023-1033 | every percentile lies between the rounded bounds of the data |
| Percentiles.PercentileOrderFree | performance/soft_ue_truth_benchmark_lib.py:1023-1033 | permuting the input changes nothing |
| Percentiles.SortDominated | performance/soft_ue_truth_benchmark_lib.py:1026-1026 | sorting preserves pointwise order |
| Percentiles.PercentileDominated | performance/soft_ue_truth_benchmark_lib.py:1023-1033 | pointwise larger data has a larger percentile |
| Percentiles.BuildSendStageLatency | performance/soft_ue_truth_benchmark_lib.py:1183-1229 | the successful, valid sends and no others, in row order, with their identifiers and all measured columns |
| Percentiles.AggregateSendStageRows | performance/soft_ue_truth_benchmark_lib.py:1427-1544 | the sample count, and exactly the reported percentiles and means of all 21 metrics over those rows |
| Percentiles.FiguresOfMetric | performance/soft_ue_truth_benchmark_lib.py:1427-1544 | which fraction each of p50, p95 and p99 is of a metric's retained values, and the mean, zero without any |
| Percentiles.ReportedStatistics | performance/soft_ue_truth_benchmark_lib.py:1446-1544 | which statistics are reported of which metrics |
| Percentiles.SummaryDominated | performance/soft_ue_truth_benchmark_lib.py:1427-1544 | if one metric is at most another in every retained send, so is every figure that both report |
| Percentiles.EndToEndDominatesInflight | performance/soft_ue_truth_benchmark_lib.py:1427-1544 | if no retained send ends before it was in flight, every end-to-end figure is at least the in-flight one |
| Percentiles.ReportOrdered | performance/soft_ue_truth_benchmark_lib.py:1427-1544 | p50 <= p95 <= p99 in every metric that reports them |
| Percentiles.SummaryOrderFree | performance/soft_ue_truth_benchmark_lib.py:1427-1544 | the send-stage summary does not depend on the order of the rows |
| SessionProgress.SessionTable.Absorb | performance/soft_ue_truth_benchmark_lib.py:2186-2225 | one row is folded into the table |
| SessionProgress.SessionsHold | performance/soft_ue_truth_benchmark_lib.py:2186-2225 | each session is kept once: the last row with the greatest time, and the largest buffer of all its rows |
| SessionProgress.SummaryUnique | performance/soft_ue_truth_benchmark_lib.py:2186-2225 | that description determines the record |
| SessionProgress.OrderFreeIff | performance/soft_ue_truth_benchmark_lib.py:2213-2225 | the table ignores the row order if and only if rows tied for last in a session carry equal counters |
| SessionProgress.BuildTpdcSessionProgress | performance/soft_ue_truth_benchmark_lib.py:2183-2283 | the report of the table that the rows determine |
| SessionProgress.ReportCovers | performance/soft_ue_truth_benchmark_lib.py:2227-2263 | the report has a row for a session if and only if the log has one, and as many rows as sessions |
| SessionProgress.ReportLists | performance/soft_ue_truth_benchmark_lib.py:2227-2263 | every row of the report sums up the session it names |
| SessionProgress.ReportInOrder | performance/soft_ue_truth_benchmark_lib.py:2254-2263 | an earlier row of the report has the larger send buffer, or on a tie the more timeouts, or then the more retransmissions, or then the smaller identity |
| SessionProgress.TopStuckIsWorst | performance/soft_ue_truth_benchmark_lib.py:2265-2274 | the top stuck session precedes every other stuck one in that order, so none has a larger send buffer; there is none if and only if no session is stuck |
| SessionProgress.HintIff | performance/soft_ue_truth_benchmark_lib.py:2229-2251 | which sessions are stuck, and which of them get the first hint and the second |
| SessionProgress.ReportCounts | performance/soft_ue_truth_benchmark_lib.py:2275-2282 | the two counts of the report are the numbers of its rows that meet the two conditions on the counters |
| SessionProgress.ReportOrderFreeIff | performance/soft_ue_truth_benchmark_lib.py:2183-2283 | the whole report is the same for every order of the rows if and only if such ties agree |
| SessionProgress.TopStuckIsFirst | performance/soft_ue_truth_benchmark_lib.py:2254-2274 | if no counter of the log is negative, the top stuck session is the first row if any session is stuck, and absent otherwise |
| SessionProgress.HintNeedsNegativeAcks | performance/soft_ue_truth_benchmark_lib.py:2234-2249 | when exactly the third hint is given |
| SessionProgress.ThirdHintUnreachable | performance/soft_ue_truth_benchmark_lib.py:2234-2249 | without negative acknowledgement counts the third hint never appears |
| ProtocolTotals.FinalByDevice | performance/soft_ue_truth_benchmark_lib.py:1091-1094 | each device's last row, devices in order of appearance |
| ProtocolTotals.AggregateProtocolRows | performance/soft_ue_truth_benchmark_lib.py:1046-1108 | the number of rows; cumulative fields: sum (or, fabric-wide, maximum) of the devices' last values; peak fields: maximum over all rows |
| ProtocolTotals.WindowKeeps | performance/soft_ue_truth_benchmark_lib.py:1040-1043 | the rows of a window are those at no later a time than its end, each once and in log order |
| ProtocolTotals.NoWindowExceedsIff | performance/soft_ue_truth_benchmark_lib.py:1040-1104 | no window shows more of a device's counter than the log if and only if its last value is not negative and no row that ends some window exceeds it |
| ProtocolTotals.WindowAtMostWhole | performance/soft_ue_truth_benchmark_lib.py:1040-1104 | when that holds of every device, the total of any window is at most that of the whole log |
| ProtocolTotals.NoWindowTotalExceedsIff | performance/soft_ue_truth_benchmark_lib.py:1040-1104 | no window's total exceeds that of the log if and only if the latter is not negative and no window ending at the time of some row exceeds it |
| ProtocolTotals.DevicesSuffice | performance/soft_ue_truth_benchmark_lib.py:1040-1104 | so it is when it is so device by device |
| ProtocolTotals.NeverDecreasesSuffices | performance/soft_ue_truth_benchmark_lib.py:1040-1104 | it holds of counters that never decrease |
| ProtocolTotals.AtMostLastSuffices | performance/soft_ue_truth_benchmark_lib.py:1040-1104 | it holds of counters whose values are at most the device's last one |
| ProtocolTotals.WindowPeakAtMostWhole | performance/soft_ue_truth_benchmark_lib.py:1040-1096 | peaks of a window never exceed those of the log |
| ProtocolTotals.TotalsOrdered | performance/soft_ue_truth_benchmark_lib.py:1098-1104 | a column that is at most another in every row has the smaller total |
| ProtocolTotals.AggregateFinalProtocolState | performance/soft_ue_truth_benchmark_lib.py:2018-2071 | final totals, rates and drain verdict from the devices' last rows |
| ProtocolTotals.RateIs | performance/soft_ue_truth_benchmark_lib.py:2049-2061 | a rate is the percentage of the started operations, up to the rounding, and zero if none started |
| ProtocolTotals.DrainCompletedIff | performance/soft_ue_truth_benchmark_lib.py:2063-2070 | with non-negative gauges, drained if and only if every device's last row is idle |
| ProtocolTotals.RatesOrdered | performance/soft_ue_truth_benchmark_lib.py:2049-2061 | the completion rate is at most the terminalization rate |
| ProtocolTotals.BoundedLogPasses | performance/soft_ue_truth_benchmark_lib.py:2286-2308 | for such counters, with successes at most terminations in every row, three of the consistency checks cannot fire, for any window |
| ProtocolTotals.ResetCounterFires | performance/soft_ue_truth_benchmark_lib.py:2307-2308 | a log with a reset counter on which the last of them fires |
| RunVerdict.AggregateCompletionRows | performance/soft_ue_truth_benchmark_lib.py:1138-1180 | rows, successes, payload, goodput and latency percentiles, in all and by opcode |
| RunVerdict.LatenciesOfSuccesses | performance/soft_ue_truth_benchmark_lib.py:1153-1161 | exactly the successful rows have a latency, in row order and in microseconds |
| RunVerdict.GoodputIs | performance/soft_ue_truth_benchmark_lib.py:1167-1179 | the goodput is the bits per second in millions, up to the rounding, and zero for a window of no length |
| RunVerdict.OpcodesShareSuccesses | performance/soft_ue_truth_benchmark_lib.py:1153-1165 | the three opcodes together count at most the successes, and exactly those if and only if every success has one of them |
| RunVerdict.CheckRun | performance/soft_ue_truth_benchmark_lib.py:2807-2963 | the run passes if and only if its exit code and its two logs meet fourteen conditions, and it is given a verdict if and only if the condition of that verdict is the first it does not meet |
| RunVerdict.VerdictIsFirstFailure | performance/soft_ue_truth_benchmark_lib.py:2286-2311 | the summary's verdict against the conditions stated over the rows of the logs: totals, successes by opcode, payload bytes, and the gauges of a drained run |
| RunVerdict.PassedRunAgrees | performance/soft_ue_truth_benchmark_lib.py:2286-2311 | in a run that passes, the devices count no more successes by opcode than in all, and no more in the window than in the log |
| PeerPairs.TableOf | performance/soft_ue_truth_benchmark_lib.py:2094-2152 | the table that the events determine: the pairs in order of first mention, each key starting from its initial value and raised once per mention |
| PeerPairs.PairTable.Absorb | performance/soft_ue_truth_benchmark_lib.py:2096-2152 | after each row the table holds, per mentioned pair, how often every counter was raised |
| PeerPairReport.BuildPeerPairProgress | performance/soft_ue_truth_benchmark_lib.py:2089-2180 | the three loops record all events of the three logs; the rows are listed by timeouts, then no-matches, then late responses, then identity; unless a stage names a key field, each of the five top pairs has the largest number of the log rows that its metric counts |
| PeerPairReport.RecordContents | performance/soft_ue_truth_benchmark_lib.py:2094-2152 | every field of a pair's record is the number of completion, failure and diagnostic rows that it counts, plus the failure rows whose stage is its name |
| PeerPairReport.RecordedIff | performance/soft_ue_truth_benchmark_lib.py:2094-2141 | a pair has a record if and only if some completion, failure or recognised diagnostic row mentions it |
| PeerPairReport.RowsListed | performance/soft_ue_truth_benchmark_lib.py:2154-2163 | the order of the rows, counter by counter |
| PeerPairReport.TopPairs | performance/soft_ue_truth_benchmark_lib.py:2165-2180 | which rows of the logs the count of each of the five top pairs counts, that no pair has more, and that ties go to the smaller endpoints |
| PeerPairReport.TopPairsExist | performance/soft_ue_truth_benchmark_lib.py:2165-2180 | whatever the stages name, each of the five is there if and only if such a row is |
| PeerPairs.ConservationLaw | performance/soft_ue_truth_benchmark_lib.py:2115-2130 | completions over all pairs equal the completion rows plus the failure rows that name a completion counter |
| PeerPairs.ConservedIff | performance/soft_ue_truth_benchmark_lib.py:2115-2130 | success plus failed equals the completion rows if and only if no failure row does |
| PeerPairs.RecordNamesPairIff | performance/soft_ue_truth_benchmark_lib.py:2122-2130 | a record names its pair if and only if no event of that pair raises one of the two keys that do |
| StableSort.SortedAlikeIff | performance/soft_ue_truth_benchmark_lib.py:2154-2163 | two arrangements of the same records are sorted alike if and only if they agree within every class of ties |
| PeerPairOrder.OrderFreeIff | performance/soft_ue_truth_benchmark_lib.py:2089-2180 | the report is the same for all orders of the rows in each log if and only if no two pairs first met in the same log have equal sort keys and different records |
| PeerPairOrder.ReportOrderFree | performance/soft_ue_truth_benchmark_lib.py:2089-2180 | so it is when no stage names a key field |
| PeerPairs.KeysKeptIff | performance/soft_ue_truth_benchmark_lib.py:2122-2130 | that condition in terms of the failure rows alone |
| PeerPairOrder.StageCanReorder | performance/soft_ue_truth_benchmark_lib.py:2127-2163 | logs where a stage that names a key field makes the report depend on the order |
| PeerPairs.TopPairExistsIff | performance/soft_ue_truth_benchmark_lib.py:2165-2171 | there is a top pair if and only if some pair has a positive count |
| PeerPairs.TopPairIsMaximum | performance/soft_ue_truth_benchmark_lib.py:2165-2171 | the top pair is the unique maximum under its tie-break |
| MixedRadix.ProductAt | performance/soft_ue_truth_benchmark_lib.py:888-897 | position i of the Cartesian product holds the mixed-radix digits of i |
| MixedRadix.ProductOrdered | performance/soft_ue_truth_benchmark_lib.py:888-897 | earlier positions have lexicographically smaller digits, the last dimension being the fastest |
| MixedRadix.ProductLength | performance/soft_ue_truth_benchmark_lib.py:888-897 | the product has as many elements as the product of the sizes |
| MixedRadix.EncodeDecode | performance/soft_ue_truth_benchmark_lib.py:888-898 | every position is recovered from its digits |
| MixedRadix.DecodeEncode | performance/soft_ue_truth_benchmark_lib.py:888-898 | every digit vector stands at the position it encodes |
| MatrixExpansion.ExpandMatrix | performance/soft_ue_truth_benchmark_lib.py:872-958 | run i is the one counting puts there, for exactly the product of dimensions and repetitions; fails if and only if `int` refuses the flow count or payload of some run |
| MatrixExpansion.EveryCombinationOnce | performance/soft_ue_truth_benchmark_lib.py:888-898 | each choice of digits is made by exactly one run |
| MatrixExpansion.RunOfDigits | performance/soft_ue_truth_benchmark_lib.py:888-956 | which combination and repetition a choice of digits gives, repetition fastest |
| MatrixExpansion.EffectiveDimensions | performance/soft_ue_truth_benchmark_lib.py:873-883 | which dimensions are multiplied out: those listed, or `default` or null where none are |
| MatrixExpansion.SeedsDistinct | performance/soft_ue_truth_benchmark_lib.py:885-957 | `RngRun` is the base plus the run's position, hence distinct |
| MatrixExpansion.BuildParams | performance/soft_ue_truth_benchmark_lib.py:899-917 | the layered updates, the run's own keys and the required parameters |
| MatrixExpansion.LastLayerWins | performance/soft_ue_truth_benchmark_lib.py:899-917 | every key that the run or the matrix does not set has the value of the last layer that defines it, and is absent if none does |
| MatrixExpansion.LastDefinedAt | performance/soft_ue_truth_benchmark_lib.py:899-910 | which layer that is: one that has the key, with no later one that has it |
| MatrixExpansion.LayersByName | performance/soft_ue_truth_benchmark_lib.py:899-910 | the layers by name, from the resource overrides down to the defaults: the first that is applied and defines the key decides |
| MatrixExpansion.RunKeysSet | performance/soft_ue_truth_benchmark_lib.py:911-917 | the values of the keys that the run, the matrix and the requirements set |
| MatrixExpansion.NamedIff | performance/soft_ue_truth_benchmark_lib.py:901-910 | the overrides of a name are applied if and only if the name is not `default` or there are none |
| MatrixExpansion.AskedForIff | performance/soft_ue_truth_benchmark_lib.py:899-910 | a run gets all the layers it asks for if and only if none of its five names hides overrides in this way |
| MatrixExpansion.DefaultOverrideIgnored | performance/soft_ue_truth_benchmark_lib.py:833-851 | an accepted configuration with an override that its one run does not get |
| MatrixExpansion.FilterWithoutEffectIff | performance/soft_ue_truth_benchmark_lib.py:874-876 | a filter has no effect if and only if it is empty or names every profile; otherwise it keeps the profiles it names |
| MatrixExpansion.RequiredParams | performance/soft_ue_truth_benchmark_lib.py:854-857 | every run carries the required parameters |
| MatrixExpansion.HasIntegerIff | performance/soft_ue_truth_benchmark_lib.py:918-919 | which values `int` takes |
| MatrixExpansion.AcceptsIff | performance/soft_ue_truth_benchmark_lib.py:784-851 | a configuration is accepted if and only if no group sets a mode or class that is not allowed and every listed name but a profile's has overrides |
| MatrixExpansion.AcceptedScenario | performance/soft_ue_truth_benchmark_lib.py:784-851 | in an accepted configuration the scenario mode of a run is allowed, or null with no layer above the defaults defining it |
| Welford.Accumulate | utils/bench-scheduler.cc:347-351 | one step of the macro keeps average and second moment those of the samples so far |
| Welford.WelfordStep | utils/bench-scheduler.cc:347-351 | the identity behind the step |
| Welford.BenchSuite.Log | utils/bench-scheduler.cc:320-361 | all six averages are the means, all six second moments the sums of squared deviations from them; nothing for fewer than two results |
| Welford.MomentsNonNegative | utils/bench-scheduler.cc:363-370 | the second moment is never negative, and zero only for equal samples |
| Welford.MomentsOrderFree | utils/bench-scheduler.cc:340-361 | the order of the results does not matter |
| Welford.AverageMinimizes | utils/bench-scheduler.cc:340-361 | no centre has smaller squared deviations than the average |
| Welford.TextbookFormula | utils/bench-scheduler.cc:331-361 | the second moment equals the difference of large numbers that the one-pass form avoids |
| Fairness.FlowGroup.TraceSink | examples/tcp/dctcp-example.cc:114-118 | one counter grows by the packet size, modulo 2^64 |
| Fairness.FlowGroup.InitializeCounters | examples/tcp/dctcp-example.cc:132-147 | every counter is zero |
| Fairness.FlowGroup.SumFlows | examples/tcp/dctcp-example.cc:180-184 | both sums, modulo 2^64 |
| Fairness.FlowGroup.PrintFairness | examples/tcp/dctcp-example.cc:172-189 | the average throughput from the wrapped sum, and the index as the quotient of the two wrapped products |
| Fairness.AverageIs | examples/tcp/dctcp-example.cc:185-185 | average times flows times seconds is what was received, up to the division into whole bytes |
| Fairness.IndexIsFormulaIff | examples/tcp/dctcp-example.cc:186-189 | the printed index is that of the formula if and only if the remainders of its operands modulo 2^64 are in the proportion of the multiples dropped |
| Fairness.EqualFlowsIndex | examples/tcp/dctcp-example.cc:180-189 | equal flows get index 1 if and only if n * n * b * b is not a multiple of 2^64, and none otherwise |
| Fairness.WrongIndexPrinted | examples/tcp/dctcp-example.cc:180-189 | one active flow of 2 GiB among ten is printed as 0.5, where the formula gives 0.1 |
| Fairness.WrappedAndRight | examples/tcp/dctcp-example.cc:180-189 | equal flows for which both operands wrap and the index is right |
| Fairness.ExactIff | examples/tcp/dctcp-example.cc:186-186 | neither operand wraps if and only if n times the sum of squares is below 2^64 |
| Fairness.SmallFlowsExact | examples/tcp/dctcp-example.cc:180-186 | flows of at most (2^32 - 1) / n bytes are safe |
| Fairness.GapSign | examples/tcp/dctcp-example.cc:172-186 | the square of the sum is at most n times the sum of squares, with equality only for equal flows |
| Fairness.SquaresWithinSquare | examples/tcp/dctcp-example.cc:172-186 | the sum of squares is at most the square of the sum, with equality only for a single active flow |
| Fairness.IndexBounds | examples/tcp/dctcp-example.cc:172-189 | the index lies in [1/n, 1] and when it reaches either end |
| Fairness.FairFlowsWrap | examples/tcp/dctcp-example.cc:186-186 | equal flows whose index is lost to wrap-around |
| ChunkedWriter.SentIsCycled | examples/socket/socket-bound-tcp-static-routing.cc:202-221 | in every legal history the bytes accepted since the last `StartFlow` are a prefix of the buffer repeated cyclically, at most 20000 long |
| ChunkedWriter.CycledExtends | examples/socket/socket-bound-tcp-static-routing.cc:208-212 | the chunk at the offset modulo the buffer size continues the cyclic stream |
| ChunkedWriter.Writer.OfferChunk | examples/socket/socket-bound-tcp-static-routing.cc:207-218 | one turn of the loop: exactly as much is offered as buffer, total and free space allow; the history grows by what was accepted or refused |
| ChunkedWriter.Writer.WriteUntilBufferFull | examples/socket/socket-bound-tcp-static-routing.cc:202-221 | terminates for every behaviour of the socket; accepted chunks, then an error or the close, all of it legal; a close short of the total is for lack of space, and happens at once if and only if there was none at first |
| ChunkedWriter.Writer.StartFlow | examples/socket/socket-bound-tcp-static-routing.cc:188-200 | the counter starts over, the socket is bound, connected and given its callback, and the first write follows |
| ChunkedWriter.Writer.Run | examples/socket/socket-bound-tcp-static-routing.cc:128-142 | any list of flows and callbacks on any sockets has one of its possible outcomes, a history of whole calls, and leaves the cyclic prefix of length `currentTxBytes`, at most the total |
| ChunkedWriter.DeliveredIffOwnersOnly | examples/socket/socket-bound-tcp-static-routing.cc:188-221 | at all times every flow has gone whole to its own socket, if and only if only the socket of the latest `StartFlow` ever accepts bytes |
| ChunkedWriter.SocketGetsItsFlow | examples/socket/socket-bound-tcp-static-routing.cc:188-221 | then a socket started once has, in all, the bytes of its own flow: a prefix of the stream, at most 20000 long, and nothing before its start |
| ChunkedWriter.FlowsApartIff | examples/socket/socket-bound-tcp-static-routing.cc:188-221 | whatever the sockets do, every flow goes whole to its own socket, if and only if no call goes to a socket with space whose flow is not the latest |
| ChunkedWriter.RunSeparately | examples/socket/socket-bound-tcp-static-routing.cc:128-142 | a simulation of such calls that starts each flow at most once gives every socket such a prefix |
| ChunkedWriter.SharedCounter | examples/socket/socket-bound-tcp-static-routing.cc:35-36 | a history of whole calls, with nothing written to a closed socket, in which one socket gets 20001 bytes and the other, whose flow it is, is closed with none |
| ChunkedWriter.ClosedEarly | examples/socket/socket-bound-tcp-static-routing.cc:205-220 | a whole call that closes a socket before anything is sent |
| StageShares.ClassifyDominantStage | performance/run-soft-ue-fabric-read-stage-diagnose.py:101-104 | the first stage with the greatest mean |
| StageShares.MeansByStage | performance/run-soft-ue-fabric-read-stage-diagnose.py:88-98 | which column holds the mean of which stage, zero where it is missing |
| StageShares.DominantUnique | performance/run-soft-ue-fabric-read-stage-diagnose.py:103-103 | there is only one such stage |
| StageShares.DiagnoseRow.AddStageShares | performance/run-soft-ue-fabric-read-stage-diagnose.py:169-191 | the row shows the share of every stage, all zero for a total that is not positive, and is otherwise untouched |
| StageShares.ShareIs | performance/run-soft-ue-fabric-read-stage-diagnose.py:169-191 | a share is the percentage of the total of the six means, up to the rounding |
| StageShares.SharesByStage | performance/run-soft-ue-fabric-read-stage-diagnose.py:180-191 | which column shows the share of which stage |
| StageShares.ShareInRange | performance/run-soft-ue-fabric-read-stage-diagnose.py:180-191 | every share of non-negative means lies in [0, 100] |
| StageShares.SharesSum | performance/run-soft-ue-fabric-read-stage-diagnose.py:169-191 | the shares sum to 100 within 0.000003, or are all zero when all means are |
| StageShares.DominantShare | performance/run-soft-ue-fabric-read-stage-diagnose.py:101-191 | the dominant stage has the largest share, at least the rounded sixth |
| StageShares.TiedShares | performance/run-soft-ue-fabric-read-stage-diagnose.py:180-191 | stages that show equal shares differ by at most a millionth of a percent |
| StageShares.SharesScale | performance/run-soft-ue-fabric-read-stage-diagnose.py:169-191 | the shares of a row do not depend on the unit of time |
| StageShares.DominanceScales | performance/run-soft-ue-fabric-read-stage-diagnose.py:101-104 | neither does its dominant stage |
| StageShares.SharesIdempotent | performance/run-soft-ue-fabric-read-stage-diagnose.py:169-191 | adding the shares a second time changes nothing |

## Left out

- Floating-point error: reals are exact here, and `round(x, 6)` rounds to the nearest millionth, ties to even.
- Reading of CSV and JSON, opcode canonicalisation and regular expressions: rows arrive parsed, a missing number as 0, and the peer found in a `Detail` text as an option.
- The text of run ids, hints and top-pair strings: the values they are made of are returned instead; run ids may collide and are not claimed distinct.
- MatrixExpansion.ExpandMatrix: leaves out the text of the run ids, which are made of modelled values and sanitised by a regular expression.
- MatrixExpansion.AcceptedScenario: error messages of the validation are not modelled, only acceptance; keys the code never mentions are one family `Other`.
- ProtocolTotals.AggregateProtocolRows: leaves out the rates and utilisations derived afterwards (lines 1110-1180), which divide by wall-clock durations.
- RunVerdict.CheckRun: takes the exit code, the length of the window and the field tables as given; subprocess and artifact handling, and the parts of the summary the check does not read, are not modelled.
- `build_profile_comparison` and the other `aggregate_` and `build_` reports: sums and averages of the same kind.
- LoadOrder: the libraries linked by a binary are given; `ldd` and the file search are not modelled.
- LoadOrder.Loader.DependencyOrder: Python's recursion limit is a parameter, the number of nested calls left.
- ConfigPaths: `IsChildOf`, the attribute checkers and the registry are data of the model; `Print`, `GetNoTypeIds` and the markup are left out. Names determine types in the registry.
- StyleFixer.Directory.CheckStyle: takes any table of checks, of which the whitespace and tabs checks are defined here; what the other line checks and the formatting and encoding tools accept and repair, the search for files and the parallel jobs are not modelled.
- StyleFixer.CheckLines: reports line numbers; the text of verbose messages is not modelled.
- Welford.BenchSuite.Log: stops before the square root; the standard deviation follows from the second moment.
- Fairness.FlowGroup.PrintFairness: takes one group of flows and a window of positive length; the sums over all flows (lines 218 on) and the formatting are left out, and the division is exact.
- ChunkedWriter.Writer.WriteUntilBufferFull: the socket accepts a non-empty prefix or returns an error, as a stream socket with free space does; with sends that accept nothing the loop would not end. Binding and connecting always succeed.
- StageShares.ClassifyDominantStage: returns the stage, not its label.
- The Ultra Ethernet stack, its retransmission timers and the ns-3 library are not part of this model.
