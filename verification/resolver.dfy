/** Process resolution: the `getPID` step of the exporter.
    The enumeration of live processes is an input here (the listing), and a
    failed enumeration is `None`. */
module Resolver {
  import opened Wrappers

  /** A process identifier as the process library reports it: a signed 32-bit value. */
  type Pid = p: int | -0x8000_0000 <= p < 0x8000_0000

  /** One enumerated process. `name` is None when reading the name failed. */
  datatype Proc = Proc(pid: Pid, name: Option<string>)

  /** The name the resolver compares against. `getPID` discards the error of a
      failed name read, which leaves the empty string behind. */
  function DisplayName(p: Proc): string
  {
    p.name.GetOr("")
  }

  /** Position `i` holds the first process whose name is exactly `query`. */
  predicate IsFirstMatch(procs: seq<Proc>, query: string, i: int)
  {
    && 0 <= i < |procs|
    && DisplayName(procs[i]) == query
    && forall j :: 0 <= j < i ==> DisplayName(procs[j]) != query
  }

  /** No process in the listing carries the name `query`. */
  predicate NoMatch(procs: seq<Proc>, query: string)
  {
    forall i :: 0 <= i < |procs| ==> DisplayName(procs[i]) != query
  }

  /** The scan over an enumerated listing, in enumeration order. */
  function Scan(procs: seq<Proc>, query: string): (r: int)
    ensures NoMatch(procs, query) ==> r == 0
    ensures forall i :: IsFirstMatch(procs, query, i) ==> r == procs[i].pid
  {
    if |procs| == 0 then 0
    else if DisplayName(procs[0]) == query then procs[0].pid
    else
      var r := Scan(procs[1..], query);
      assert forall i :: 0 < i && IsFirstMatch(procs, query, i) ==> IsFirstMatch(procs[1..], query, i - 1);
      r
  }

  /** `getPID`: the pid of the first process named `query`, and 0 when the
      enumeration failed or nothing matched. 0 therefore also means "not found". */
  function GetPid(listing: Option<seq<Proc>>, query: string): (r: int)
    ensures listing.None? ==> r == 0
    ensures listing.Some? && NoMatch(listing.value, query) ==> r == 0
    ensures listing.Some? ==> forall i :: IsFirstMatch(listing.value, query, i) ==> r == listing.value[i].pid
  {
    match listing
    case None => 0
    case Some(procs) => Scan(procs, query)
  }

  /** Some match exists exactly when a first match exists. */
  lemma {:induction false} FirstMatchExists(procs: seq<Proc>, query: string)
    requires !NoMatch(procs, query)
    ensures exists i :: IsFirstMatch(procs, query, i)
    decreases |procs|
  {
    if DisplayName(procs[0]) == query {
      assert IsFirstMatch(procs, query, 0);
    } else {
      var k :| 0 <= k < |procs| && DisplayName(procs[k]) == query;
      assert k > 0;
      assert DisplayName(procs[1..][k - 1]) == query;
      FirstMatchExists(procs[1..], query);
      var i :| IsFirstMatch(procs[1..], query, i);
      assert IsFirstMatch(procs, query, i + 1);
    }
  }

  /** A non-zero answer is always the pid of the first process with that
      exact name. */
  lemma ResolvedMeansFirstMatch(listing: Option<seq<Proc>>, query: string)
    requires GetPid(listing, query) != 0
    ensures listing.Some?
    ensures exists i :: IsFirstMatch(listing.value, query, i) && listing.value[i].pid == GetPid(listing, query)
  {
    FirstMatchExists(listing.value, query);
  }

  /** When some process has the queried name, the answer is 0 exactly when
      the first such process has pid 0. */
  lemma NotFoundCases(listing: Option<seq<Proc>>, query: string)
    requires listing.Some? && !NoMatch(listing.value, query)
    ensures GetPid(listing, query) == 0 <==> exists i :: IsFirstMatch(listing.value, query, i) && listing.value[i].pid == 0
  {
    FirstMatchExists(listing.value, query);
  }

  /** Only the first match counts: a later process with the same name never
      decides the answer. */
  lemma {:induction false} LaterDuplicatesIgnored(procs: seq<Proc>, query: string, extra: seq<Proc>)
    requires !NoMatch(procs, query)
    ensures Scan(procs + extra, query) == Scan(procs, query)
  {
    FirstMatchExists(procs, query);
    var i :| IsFirstMatch(procs, query, i);
    assert IsFirstMatch(procs + extra, query, i);
  }
}
