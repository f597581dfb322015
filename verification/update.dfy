/** The per-tick update pass (`updateMetrics`) as a pure state transition.
    Everything the pass learns from the operating system and the clock arrives
    in a `Probe` per visited name; clock readings are integers in nanoseconds.
    The lock held around the pass makes it one atomic step. */
module Update {
  import opened Wrappers
  import opened Resolver

  /** One second, in the clock's unit (nanoseconds). */
  const Second: int := 1_000_000_000

  /** Minimum age of a name's last success before it is sampled again. */
  const Interval: int := 5 * Second

  /** The three gauge families, each keyed by the `process` label, and the
      time of each name's last successful sample. Each family is its own map:
      writing one series never creates a series in another family. */
  datatype Store = Store(
    cpu: map<string, real>,
    mem: map<string, real>,
    pid: map<string, real>,
    lastUpdate: map<string, int>)

  /** The state before the first pass. */
  const Initial: Store := Store(map[], map[], map[], map[])

  /** What the outside world answers while one name is being visited:
      the process enumeration made by the resolver, the clock reading taken
      by the staleness test, whether the process handle could be opened, the
      two readings (None = read error), and the clock reading taken for the
      new timestamp after the readings. */
  datatype Probe = Probe(
    listing: Option<seq<Proc>>,
    checkedAt: int,
    opens: bool,
    cpu: Option<real>,
    mem: Option<real>,
    stampedAt: int)

  /** The process could be opened and both readings succeeded. */
  predicate ReadsSucceed(p: Probe)
  {
    p.opens && p.cpu.Some? && p.mem.Some?
  }

  /** The effect of visiting one name: carry on with the next name, or end the
      pass here (with whatever was already written). */
  datatype Step = Next(store: Store) | Stop(store: Store)

  /** The effect of a whole pass: every name was visited, or the pass ended
      early while visiting position `at`. */
  datatype Outcome = Completed(store: Store) | Aborted(store: Store, at: nat)

  /** Two stores agree on every entry for key `k`, in all four maps. */
  predicate SameAt(a: Store, b: Store, k: string)
  {
    && (k in a.cpu <==> k in b.cpu) && (k in a.cpu ==> a.cpu[k] == b.cpu[k])
    && (k in a.mem <==> k in b.mem) && (k in a.mem ==> a.mem[k] == b.mem[k])
    && (k in a.pid <==> k in b.pid) && (k in a.pid ==> a.pid[k] == b.pid[k])
    && (k in a.lastUpdate <==> k in b.lastUpdate)
    && (k in a.lastUpdate ==> a.lastUpdate[k] == b.lastUpdate[k])
  }

  /** The not-found placeholder: all three gauges of `k` are present and 0. */
  predicate ZeroedAt(s: Store, k: string)
  {
    && k in s.cpu && s.cpu[k] == 0.0
    && k in s.mem && s.mem[k] == 0.0
    && k in s.pid && s.pid[k] == 0.0
  }

  /** The staleness gate, read at clock value `now`: no success recorded yet,
      or at least `Interval` since it (exactly `Interval` counts as due). */
  predicate Due(s: Store, name: string, now: int)
  {
    name !in s.lastUpdate || now - s.lastUpdate[name] >= Interval
  }

  /** One iteration of the loop body, for the name `name`. */
  function Visit(name: string, probe: Probe, s: Store): (r: Step)
    // only entries of `name` can change
    ensures forall k :: k != name ==> SameAt(s, r.store, k)
    // not found: all three gauges zeroed, timestamp kept, the pass goes on
    ensures GetPid(probe.listing, name) == 0 ==>
      && r.Next? && ZeroedAt(r.store, name)
      && (name in r.store.lastUpdate <==> name in s.lastUpdate)
      && (name in s.lastUpdate ==> r.store.lastUpdate[name] == s.lastUpdate[name])
    // found, but sampled less than `Interval` ago: nothing changes
    ensures GetPid(probe.listing, name) != 0 && !Due(s, name, probe.checkedAt) ==> r == Next(s)
    // opening the process or reading CPU fails: nothing changes, the pass ends
    ensures GetPid(probe.listing, name) != 0 && Due(s, name, probe.checkedAt) && (!probe.opens || probe.cpu.None?) ==>
      r == Stop(s)
    // the memory read fails: CPU already overwritten, the rest kept, the pass ends
    ensures GetPid(probe.listing, name) != 0 && Due(s, name, probe.checkedAt) && probe.opens && probe.cpu.Some? && probe.mem.None? ==>
      && r.Stop? && name in r.store.cpu && r.store.cpu[name] == probe.cpu.value
      && r.store.mem == s.mem && r.store.pid == s.pid && r.store.lastUpdate == s.lastUpdate
    // both readings succeed: the fresh sample and the stamp reading are recorded
    ensures GetPid(probe.listing, name) != 0 && Due(s, name, probe.checkedAt) && probe.opens && probe.cpu.Some? && probe.mem.Some? ==>
      && r.Next?
      && name in r.store.cpu && r.store.cpu[name] == probe.cpu.value
      && name in r.store.mem && r.store.mem[name] == probe.mem.value
      && name in r.store.pid && r.store.pid[name] == GetPid(probe.listing, name) as real
      && name in r.store.lastUpdate && r.store.lastUpdate[name] == probe.stampedAt
  {
    var pid := GetPid(probe.listing, name);
    if pid == 0 then
      Next(s.(cpu := s.cpu[name := 0.0], mem := s.mem[name := 0.0], pid := s.pid[name := 0.0]))
    else if !Due(s, name, probe.checkedAt) then
      Next(s)
    else if !probe.opens || probe.cpu.None? then
      Stop(s)
    else
      var withCpu := s.(cpu := s.cpu[name := probe.cpu.value]);
      if probe.mem.None? then
        Stop(withCpu)
      else
        Next(withCpu.(
          mem := s.mem[name := probe.mem.value],
          pid := s.pid[name := pid as real],
          lastUpdate := s.lastUpdate[name := probe.stampedAt]))
  }

  /** `updateMetrics`: the names visited in order, each with its own probe,
      stopping at the first read error. Defined on the prefix, so that
      `Pass(names[..i], ...)` is the state of the loop before position `i`. */
  function Pass(names: seq<string>, probes: seq<Probe>, s: Store): (r: Outcome)
    requires |probes| == |names|
    ensures r.Aborted? ==> r.at < |names|
    // the pass ends early only at a name that resolved and then met a read error
    ensures r.Aborted? ==> GetPid(probes[r.at].listing, names[r.at]) != 0 && !ReadsSucceed(probes[r.at])
    decreases |names|
  {
    if |names| == 0 then Completed(s)
    else
      var n := |names| - 1;
      match Pass(names[..n], probes[..n], s)
      case Aborted(s', at) =>
        assert names[..n][at] == names[at] && probes[..n][at] == probes[at];
        Aborted(s', at)
      case Completed(s') =>
        match Visit(names[n], probes[n], s')
        case Stop(s'') => Aborted(s'', n)
        case Next(s'') => Completed(s'')
  }

  /** How many names of a pass over `n` names were visited. */
  function Reached(r: Outcome, n: nat): nat
  {
    if r.Aborted? then r.at + 1 else n
  }

  /** Every tick of the update timer brings one probe per configured name. */
  predicate WellFormed(names: seq<string>, ticks: seq<seq<Probe>>)
  {
    forall t :: t in ticks ==> |t| == |names|
  }

  /** The update timer: one pass per tick, in order, whatever each pass's outcome. */
  function Run(names: seq<string>, ticks: seq<seq<Probe>>, s: Store): Store
    requires WellFormed(names, ticks)
    decreases |ticks|
  {
    if |ticks| == 0 then s
    else
      assert ticks[0] in ticks;
      Run(names, ticks[1..], Pass(names, ticks[0], s).store)
  }
}
