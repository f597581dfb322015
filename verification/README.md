# Process exporter: the update pass as a state transition

A Dafny model of a small Prometheus exporter. For a fixed list of process names,
the exporter samples each process's CPU percentage, memory percentage and pid into
three gauge families (`Cpuinfo`, `Meminfo`, `Pidinfo`). Each family is labelled by
`process`. The exporter also prints the gathered series to the console.

The model covers the decision logic of one tick:

- `Resolver` is `getPID`. It scans a process listing in enumeration order for the
  first exact name match. It answers 0 when the enumeration failed or nothing
  matched, so 0 also means "not found".
- `Update` is `updateMetrics`, written as a pure function of the store. The store
  holds the three gauge families and the `lastUpdate` map. The pass visits the
  configured names in order:
  - a name that resolves to 0 gets all three gauges set to 0, keeps its timestamp,
    and the pass goes on;
  - a name sampled less than 5 s ago is skipped;
  - otherwise the sample is written, with a clock reading taken after the reads as
    its timestamp.

  The first read error ends the whole pass. A failed memory read comes after the
  CPU gauge has already been written. `Run` applies one pass per timer tick.
- `UpdateLaws` states what a pass changes and what it leaves alone:
  - how one visit sits inside the loop;
  - what an early return leaves behind;
  - the frame condition on names the pass did not reach;
  - the coherence of the store;
  - the zero placeholder of a name that is never found, across any number of ticks.
- `Reporter` is the console filter of `printMetrics`. A series is printed iff it
  has a label and its first label's name does not start with `go_`. The printed
  series keep their gathered order, and a separator closes the dump. A gathering
  error prints only the error line.
- `Launcher` is the argument check of `main`. An empty name list is a usage error.
  An empty argument vector, with not even the program name, makes the slice at
  main.go:44 panic.

The outside world enters as plain values:

- Each visited name gets a `Probe`. It holds:
  - the process listing the resolver enumerated (`None` when the enumeration failed);
  - the clock reading of the staleness test (`checkedAt`, main.go:90);
  - whether the process handle opened;
  - the CPU and memory readings (`None` on a read error);
  - the clock reading of the new timestamp (`stampedAt`, main.go:117). It is taken
    after the readings.
- Clock readings are integers in nanoseconds. The staleness interval is
  `5 * 10^9` ns.
- Gauge values are `real`s. They are copied, never computed on. The pid gauge
  holds the pid as a real.

Four behaviours of the code are easy to miss:

- A failed memory read leaves the new CPU value next to the old memory and pid
  values. The CPU gauge is written at main.go:103, before memory is read at
  main.go:106-110 (`Update.Visit`, `UpdateLaws.MemFailureKeepsCpu`).
- After the first pass, a name that pass did not reach has no gauges
  (`UpdateLaws.NoSeriesUntilReached`).
  The first read error returns from the whole pass (main.go:94, 101, 109), and the
  later names keep whatever they had (`UpdateLaws.PassFrame`). After a pass that runs
  to the end, every configured name has all three gauges
  (`UpdateLaws.CompletedPassCoversNames`).
- The console filter tests the name of the series' first label, not the family
  name (main.go:154, `Reporter.FilterIgnoresFamilyName`).
- The timestamp is taken after the readings (main.go:117), so it is later than the
  staleness test of the same visit (main.go:90). On a steady 5 s tick, the next
  test measures less than 5 s, and the name is skipped for that tick
  (`UpdateLaws.SteadyTickSkipsAfterSlowStamp`).

## Model

| member | source | states |
|---|---|---|
| Resolver.DisplayName | main.go:130 | The name compared is the process's name, or the empty string when reading the name failed, because that error is discarded. |
| Resolver.Scan | main.go:129-136 | The scan answers the pid of the first process in listing order whose name equals the query, and 0 when no process has that name. |
| Resolver.GetPid | main.go:122-137 | A failed enumeration answers 0. Otherwise the answer is the pid of the first exact name match, or 0 when nothing matches. |
| Resolver.ResolvedMeansFirstMatch | main.go:122-136 | A non-zero answer comes from a successful enumeration and is the pid of the first process whose name equals the query. |
| Resolver.NotFoundCases | main.go:129-136 | When some process has the queried name, the answer is 0 exactly when the first such process has pid 0. With GetPid, this gives every way the answer can mean "not found". |
| Resolver.LaterDuplicatesIgnored | main.go:129-133 | Once a listing contains a match, processes enumerated after it never change the answer. |
| Update.Visit | main.go:79-118 | Per name: only that name's entries can change. Not found: cpu, mem and pid are set to 0, the timestamp is kept, and the pass continues. Found but sampled less than 5 s ago: nothing changes. Open or CPU failure: nothing changes and the pass ends. Memory failure: only cpu holds the new reading, and the pass ends. Success: cpu, mem, pid and `lastUpdate` = the stamp reading are written. The staleness test uses the visit's own check reading. |
| Update.Due | main.go:88-90 | A name is due when it has no recorded success, or when the check reading is at least 5 s after it. Exactly 5 s counts as due. |
| Update.Pass | main.go:72-120 | The names are visited in order. The pass returns early only at a position of the list, and only at a name that resolved to a non-zero pid and whose probe reports an open, CPU or memory failure. |
| UpdateLaws.AbortedAtDueName | main.go:88-110 | When a pass returns early at position `at`, every name before `at` got through, and the name at `at` was due. Its read was therefore attempted inside the staleness gate. |
| UpdateLaws.NoSeriesUntilReached | main.go:77-119 | Starting from the empty store, a name the pass did not reach has no cpu, mem or pid series and no timestamp afterwards. |
| Update.Run | main.go:51-55 | The update timer runs one pass per tick, in order, whether or not the previous pass returned early. |
| UpdateLaws.VisitInPass | main.go:77-119 | After the first i names, the pass over i+1 names is either an early return at position i or a continuation with the store produced by visiting name i. |
| UpdateLaws.AbortIsFinal | main.go:94-109 | Once the pass has returned early, the names after that point change nothing. |
| UpdateLaws.PrefixCompleted | main.go:94-109 | A pass that got through its first b names also got through every shorter prefix, since no early return is ever undone. |
| UpdateLaws.NotFoundContinues | main.go:79-86 | A name resolving to 0 gets cpu = mem = pid = 0. Its timestamps and every other name's entries are unchanged, and the pass continues. |
| UpdateLaws.FreshNameSkipped | main.go:88-90 | A resolved name whose last success is less than 5 s old leaves the store exactly as it was, and the pass continues. |
| UpdateLaws.SampleRecorded | main.go:98-117 | A resolved, due name whose readings succeed ends with the sampled cpu and mem, its pid, and the stamp reading taken after the reads as its last success. |
| UpdateLaws.OpenOrCpuFailureAborts | main.go:91-102 | If opening the process or reading CPU fails, the whole pass ends with the store exactly as before this name. This name and every later name are untouched. |
| UpdateLaws.MemFailureKeepsCpu | main.go:103-110 | If the memory read fails, the whole pass ends. The store is the one before this name, except that this name's cpu holds the new reading. |
| UpdateLaws.PassFrame | main.go:77-119 | A key that is not among the names the pass reached keeps its entries in all four maps. |
| UpdateLaws.PassLeavesOthers | main.go:77-119 | A key that is not a configured name is untouched by a pass. |
| UpdateLaws.UnconfiguredNamesUntouched | main.go:51-55 | Across any number of timer ticks, a key that is not a configured name keeps its entries. |
| UpdateLaws.CompletesWithoutReadErrors | main.go:77-119 | A pass in which every name that resolves opens and reads successfully visits every name. Names that do not resolve never stop the others. |
| UpdateLaws.StampsFromThisPass | main.go:116-117 | After a pass, every recorded last-success time is either the one it had before the pass or the stamp reading of one of that name's own visits in the pass. |
| UpdateLaws.VisitKeepsCoherent | main.go:79-117 | A visit never removes a series, and a name with a timestamp keeps all three series. A visit that lets the pass continue leaves its name with all three series. |
| UpdateLaws.PassKeepsCoherent | main.go:77-119 | A pass keeps every timestamped name with all three series, and never removes a series or a timestamp. |
| UpdateLaws.CompletedPassCoversNames | main.go:77-119 | After a pass that ran to the end from a coherent store, every configured name has cpu, mem and pid series. |
| UpdateLaws.NeverFoundPass | main.go:79-86 | If no visit of a name in a pass resolves it, the pass leaves every existing series of that name at 0. |
| UpdateLaws.NeverFoundStaysZero | main.go:52-53 | If a name never resolves, it shows cpu = mem = pid = 0 (or no series) after any number of timer ticks. |
| UpdateLaws.SegmentFrame | main.go:77-119 | Between two points of a pass, a key that none of the visits in between names keeps its entries in all four maps. |
| UpdateLaws.SkippedAtNextVisit | main.go:88-90 | Take a name listed twice and sampled successfully at its first visit. If its next visit's staleness check comes less than 5 s after the first visit's stamp, the next visit leaves the store unchanged while the name still resolves. |
| UpdateLaws.ResampledAtNextVisit | main.go:88-117 | In the same situation, if the next check comes 5 s or more after the stamp (a slow read in between), the name is due again. Successful readings then overwrite its stamp with the new stamp reading. |
| UpdateLaws.SteadyTickSkipsAfterSlowStamp | main.go:88-117 | Suppose a tick samples a name and its stamp is later than its check. If the next tick checks exactly 5 s after the first check, the name is not yet due, and that pass leaves the store unchanged. |
| Reporter.HasPrefix | main.go:154 | The prefix test holds iff the string is at least as long as the prefix and agrees with it position by position. |
| Reporter.Shown | main.go:154 | A series is printed iff it has at least one label and its first label's name does not start with `go_`. |
| Reporter.Report | main.go:151-158 | The printed series are exactly the gathered series that have a first label whose name does not start with `go_`. |
| Reporter.Dump | main.go:145-159 | A gathering error prints only the error line. Otherwise every shown series is printed in order, followed by one separator line. |
| Reporter.ReportAppend | main.go:151-158 | Filtering keeps gathered order: the report of a concatenation is the concatenation of the reports. |
| Reporter.ReportIdempotent | main.go:151-158 | Filtering an already printed selection again changes nothing. |
| Reporter.ProcessSeriesShown | main.go:154 | Every series of the exporter's own families is printed, since its only label is `process`. |
| Reporter.FilterIgnoresFamilyName | main.go:154 | An unlabelled series is never printed. A family named `go_...` is still printed when its first label's name does not start with `go_`. |
| Launcher.Launch | main.go:44-48 | An empty argument vector panics at the slice. A vector holding only the program name is the usage error. Otherwise the names after the program name are monitored, in order. |
| Launcher.LaunchRoundTrip | main.go:44-48 | The names written after the program name are exactly the names monitored. No names at all is the usage error. |

## Left out

- The HTTP server and the `/metrics` exposition handler: network I/O in a library
  that is not part of this model.
- Metric registration and gathering: the three families are plain maps in `Update.Store`.
  The reporter takes the gathered series as an input.
- The process library calls (enumeration, opening a process, the CPU, memory and
  name reads): foreign I/O. Their results are the fields of `Update.Probe` and
  `Resolver.Proc`.
- The two timer goroutines and the mutex: each pass and each dump is one atomic step.
  `Update.Run` folds the passes of a sequence of ticks. The reporter's interleaving
  with it is not modelled.
- Update.Due: the elapsed time is a plain integer difference. The saturation of the
  `time.Duration` subtraction in `updateMetrics` at the extremes of its 64-bit range
  is not modelled. Wall-clock jumps are not modelled either, since
  `time.Since` uses the monotonic clock.
- Floating-point values: the CPU and memory percentages are opaque `real`s. NaN and
  rounding are not modelled. The float32-to-float64 widening of the memory reading
  is exact, so it is a plain copy.
- Strings: process names, label names and label values are compared as sequences
  of characters. Go compares them as bytes (`name == processName` at main.go:131,
  `strings.HasPrefix` at main.go:154). The two agree when the bytes are valid UTF-8.
  A name that is not valid UTF-8 cannot be written in the model, and neither can
  the panic it causes when the metric library rejects it as a label value
  (`WithLabelValues` at main.go:82 and main.go:103).
- The text of the console lines and of the log messages (`fmt` formatting).
- Reporter.Report: the nested loop over families and their series is flattened into
  one sequence of series in gathered order.
