/** The console reporter (`printMetrics`): which gathered series are printed,
    in what order, and the separator that closes each dump. Gathering the
    registry is an input; formatting of the printed line is not modelled. */
module Reporter {
  import opened Wrappers

  /** A label pair of a series. */
  datatype Label = Label(name: string, value: string)

  /** One gathered series: the name of its family, its labels in order, and
      its gauge value. */
  datatype Series = Series(family: string, labels: seq<Label>, value: real)

  /** One line of console output. */
  datatype Line = Entry(series: Series) | Separator | GatherError

  /** The prefix that marks a label as internal to the runtime. */
  const InternalPrefix: string := "go_"

  /** The label that the three exporter families carry. */
  const ProcessLabel: string := "process"

  /** `strings.HasPrefix`. */
  function HasPrefix(s: string, prefix: string): (b: bool)
    ensures b <==> |prefix| <= |s| && forall i :: 0 <= i < |prefix| ==> s[i] == prefix[i]
  {
    |prefix| <= |s| && s[..|prefix|] == prefix
  }

  /** The console filter: the series has a label, and its first label's name
      does not start with the internal prefix. */
  predicate Shown(m: Series)
  {
    |m.labels| > 0 && !HasPrefix(m.labels[0].name, InternalPrefix)
  }

  /** The shown series of a gathered snapshot, in gathered order. */
  function Report(gathered: seq<Series>): (out: seq<Series>)
    ensures |out| <= |gathered|
    ensures forall m :: m in out ==> m in gathered && Shown(m)
    ensures forall m :: m in gathered && Shown(m) ==> m in out
  {
    if |gathered| == 0 then []
    else
      var rest := Report(gathered[1..]);
      assert forall m :: m in gathered[1..] ==> m in gathered;
      if Shown(gathered[0]) then [gathered[0]] + rest else rest
  }

  /** One dump: the shown series followed by the separator, or only the error
      line when gathering failed (then no separator is printed). */
  function Dump(gathered: Option<seq<Series>>): (lines: seq<Line>)
    ensures gathered.None? ==> lines == [GatherError]
    ensures gathered.Some? ==>
      && |lines| == |Report(gathered.value)| + 1
      && lines[|lines| - 1] == Separator
      && forall i :: 0 <= i < |lines| - 1 ==> lines[i] == Entry(Report(gathered.value)[i])
  {
    match gathered
    case None => [GatherError]
    case Some(g) =>
      var shown := Report(g);
      seq(|shown|, i requires 0 <= i < |shown| => Entry(shown[i])) + [Separator]
  }

  /** Filtering keeps order: the report of a concatenation is the
      concatenation of the reports. */
  lemma {:induction false} ReportAppend(a: seq<Series>, b: seq<Series>)
    ensures Report(a + b) == Report(a) + Report(b)
    decreases |a|
  {
    if |a| > 0 {
      assert (a + b)[1..] == a[1..] + b;
      ReportAppend(a[1..], b);
    } else {
      assert a + b == b;
    }
  }

  /** Reporting an already reported snapshot prints it unchanged. */
  lemma {:induction false} ReportIdempotent(gathered: seq<Series>)
    ensures Report(Report(gathered)) == Report(gathered)
    decreases |gathered|
  {
    if |gathered| > 0 {
      ReportIdempotent(gathered[1..]);
      if Shown(gathered[0]) {
        assert ([gathered[0]] + Report(gathered[1..]))[1..] == Report(gathered[1..]);
      }
    }
  }

  /** Every series of the three exporter families (one label, `process`) is
      printed, whatever the process name and value. */
  lemma ProcessSeriesShown(family: string, name: string, value: real)
    ensures Shown(Series(family, [Label(ProcessLabel, name)], value))
  {
    assert ProcessLabel[0] != InternalPrefix[0];
  }

  /** The filter looks at the first label's name only: a family whose own name
      starts with the internal prefix is printed when its first label does not,
      and an unlabelled series is never printed. */
  lemma FilterIgnoresFamilyName(family: string, labels: seq<Label>, value: real)
    ensures |labels| == 0 ==> !Shown(Series(family, labels, value))
    ensures |labels| > 0 && !HasPrefix(labels[0].name, InternalPrefix) ==>
      Shown(Series(InternalPrefix + family, labels, value))
  {
  }
}
