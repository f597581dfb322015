/** Laws of the update pass: how one visit sits inside a pass, what an early
    return leaves behind, which entries a pass may touch, and what holds
    across any number of ticks. */
module UpdateLaws {
  import opened Resolver
  import opened Update

  /** The loop body law: once the pass has come through the first `i` names,
      visiting position `i` either ends the pass there or carries on with
      the store the visit produced. */
  lemma VisitInPass(names: seq<string>, probes: seq<Probe>, s: Store, i: nat)
    requires |probes| == |names| && i < |names|
    requires Pass(names[..i], probes[..i], s).Completed?
    ensures var before := Pass(names[..i], probes[..i], s).store;
      Pass(names[..i + 1], probes[..i + 1], s) ==
        match Visit(names[i], probes[i], before)
        case Stop(x) => Aborted(x, i)
        case Next(x) => Completed(x)
  {
    assert names[..i + 1][..i] == names[..i];
    assert probes[..i + 1][..i] == probes[..i];
  }

  /** Once a pass has ended early, the names after that point change nothing:
      the outcome of the whole pass is the outcome of the prefix. */
  lemma {:induction false} AbortIsFinal(names: seq<string>, probes: seq<Probe>, s: Store, i: nat)
    requires |probes| == |names| && i <= |names|
    requires Pass(names[..i], probes[..i], s).Aborted?
    ensures Pass(names, probes, s) == Pass(names[..i], probes[..i], s)
    decreases |names| - i
  {
    if i == |names| {
      assert names[..i] == names && probes[..i] == probes;
    } else {
      PrefixOfPrefix(names, i + 1, i);
      PrefixOfPrefix(probes, i + 1, i);
      AbortCarriesOver(names[..i + 1], probes[..i + 1], s);
      AbortIsFinal(names, probes, s, i + 1);
    }
  }

  /** One step of the loop after an early return changes nothing. */
  lemma AbortCarriesOver(names: seq<string>, probes: seq<Probe>, s: Store)
    requires |probes| == |names| && |names| > 0
    requires Pass(names[..|names| - 1], probes[..|names| - 1], s).Aborted?
    ensures Pass(names, probes, s) == Pass(names[..|names| - 1], probes[..|names| - 1], s)
  {
  }

  /** Cutting a prefix shorter still is cutting the whole sequence there. */
  lemma PrefixOfPrefix<T>(xs: seq<T>, n: nat, i: nat)
    requires i <= n <= |xs|
    ensures xs[..n][..i] == xs[..i]
  {
  }

  /** A name the resolver cannot find has its three gauges zeroed, keeps its
      timestamp, and never ends the pass. */
  lemma NotFoundContinues(names: seq<string>, probes: seq<Probe>, s: Store, i: nat)
    requires |probes| == |names| && i < |names|
    requires Pass(names[..i], probes[..i], s).Completed?
    requires GetPid(probes[i].listing, names[i]) == 0
    ensures var before := Pass(names[..i], probes[..i], s).store;
      var after := Pass(names[..i + 1], probes[..i + 1], s);
      && after.Completed?
      && ZeroedAt(after.store, names[i])
      && after.store.lastUpdate == before.lastUpdate
      && forall k :: k != names[i] ==> SameAt(before, after.store, k)
  {
    VisitInPass(names, probes, s, i);
    var before := Pass(names[..i], probes[..i], s).store;
    var after := Pass(names[..i + 1], probes[..i + 1], s);
    assert after.store.lastUpdate.Keys == before.lastUpdate.Keys by {
      assert forall k :: k != names[i] ==> SameAt(before, after.store, k);
    }
  }

  /** A found name sampled less than `Interval` ago is skipped: the store is
      exactly as it was and the pass goes on. */
  lemma FreshNameSkipped(names: seq<string>, probes: seq<Probe>, s: Store, i: nat)
    requires |probes| == |names| && i < |names|
    requires Pass(names[..i], probes[..i], s).Completed?
    requires GetPid(probes[i].listing, names[i]) != 0
    requires !Due(Pass(names[..i], probes[..i], s).store, names[i], probes[i].checkedAt)
    ensures Pass(names[..i + 1], probes[..i + 1], s) == Pass(names[..i], probes[..i], s)
  {
    VisitInPass(names, probes, s, i);
  }

  /** A found, due name whose two readings succeed gets the sampled CPU and
      memory values, its pid, and the stamp reading as its last success. */
  lemma SampleRecorded(names: seq<string>, probes: seq<Probe>, s: Store, i: nat)
    requires |probes| == |names| && i < |names|
    requires Pass(names[..i], probes[..i], s).Completed?
    requires GetPid(probes[i].listing, names[i]) != 0
    requires Due(Pass(names[..i], probes[..i], s).store, names[i], probes[i].checkedAt)
    requires ReadsSucceed(probes[i])
    ensures var after := Pass(names[..i + 1], probes[..i + 1], s);
      && after.Completed?
      && names[i] in after.store.cpu && after.store.cpu[names[i]] == probes[i].cpu.value
      && names[i] in after.store.mem && after.store.mem[names[i]] == probes[i].mem.value
      && names[i] in after.store.pid && after.store.pid[names[i]] == GetPid(probes[i].listing, names[i]) as real
      && names[i] in after.store.lastUpdate && after.store.lastUpdate[names[i]] == probes[i].stampedAt
  {
    VisitInPass(names, probes, s, i);
  }

  /** Opening the process or reading its CPU fails: the whole pass ends at
      once with the store as it was before this name, so neither this name
      nor any later one changes. */
  lemma OpenOrCpuFailureAborts(names: seq<string>, probes: seq<Probe>, s: Store, i: nat)
    requires |probes| == |names| && i < |names|
    requires Pass(names[..i], probes[..i], s).Completed?
    requires GetPid(probes[i].listing, names[i]) != 0
    requires Due(Pass(names[..i], probes[..i], s).store, names[i], probes[i].checkedAt)
    requires !probes[i].opens || probes[i].cpu.None?
    ensures Pass(names, probes, s) == Aborted(Pass(names[..i], probes[..i], s).store, i)
  {
    VisitInPass(names, probes, s, i);
    AbortIsFinal(names, probes, s, i + 1);
  }

  /** The memory read fails: the pass ends at once; the CPU gauge of this name
      already holds the new reading, everything else is as before this name. */
  lemma MemFailureKeepsCpu(names: seq<string>, probes: seq<Probe>, s: Store, i: nat)
    requires |probes| == |names| && i < |names|
    requires Pass(names[..i], probes[..i], s).Completed?
    requires GetPid(probes[i].listing, names[i]) != 0
    requires Due(Pass(names[..i], probes[..i], s).store, names[i], probes[i].checkedAt)
    requires probes[i].opens && probes[i].cpu.Some? && probes[i].mem.None?
    ensures var before := Pass(names[..i], probes[..i], s).store;
      Pass(names, probes, s) == Aborted(before.(cpu := before.cpu[names[i] := probes[i].cpu.value]), i)
  {
    VisitInPass(names, probes, s, i);
    AbortIsFinal(names, probes, s, i + 1);
  }

  /** Only keys in `touched` may differ between `s` and `t`. */
  ghost predicate Framed(s: Store, t: Store, touched: seq<string>)
  {
    forall k :: k !in touched ==> SameAt(s, t, k)
  }

  /** Frame condition: a pass changes nothing for a key that is not among the
      names it reached, in any of the four maps. */
  lemma {:induction false} PassFrame(names: seq<string>, probes: seq<Probe>, s: Store)
    requires |probes| == |names|
    ensures Framed(s, Pass(names, probes, s).store, names[..Reached(Pass(names, probes, s), |names|)])
    decreases |names|
  {
    if |names| > 0 {
      var n := |names| - 1;
      PassFrame(names[..n], probes[..n], s);
      var r := Pass(names, probes, s);
      var p := Pass(names[..n], probes[..n], s);
      if p.Aborted? {
        assert r == p;
        assert names[..n][..p.at + 1] == names[..p.at + 1];
      } else {
        var v := Visit(names[n], probes[n], p.store);
        assert names[..n][..n] == names[..n];
        forall k | k !in names[..Reached(r, |names|)]
          ensures SameAt(s, r.store, k)
        {
          assert names[..Reached(r, |names|)] == names;
          assert k !in names[..n];
          assert SameAt(s, p.store, k);
          assert SameAt(p.store, v.store, k);
        }
      }
    }
  }

  /** A name that is not one of the configured names is untouched by a pass. */
  lemma PassLeavesOthers(names: seq<string>, probes: seq<Probe>, s: Store, k: string)
    requires |probes| == |names|
    requires k !in names
    ensures SameAt(s, Pass(names, probes, s).store, k)
  {
    PassFrame(names, probes, s);
    var r := Pass(names, probes, s);
    assert k !in names[..Reached(r, |names|)];
  }

  /** Starting from the empty store, a name the pass did not reach has no
      series and no timestamp afterwards. */
  lemma NoSeriesUntilReached(names: seq<string>, probes: seq<Probe>, k: string)
    requires |probes| == |names|
    requires k !in names[..Reached(Pass(names, probes, Initial), |names|)]
    ensures var r := Pass(names, probes, Initial).store;
      k !in r.cpu && k !in r.mem && k !in r.pid && k !in r.lastUpdate
  {
  }

  /** A name that is not configured at all is never touched by the update timer. */
  lemma {:induction false} UnconfiguredNamesUntouched(names: seq<string>, ticks: seq<seq<Probe>>, s: Store, k: string)
    requires WellFormed(names, ticks)
    requires k !in names
    ensures SameAt(s, Run(names, ticks, s), k)
    decreases |ticks|
  {
    if |ticks| > 0 {
      assert ticks[0] in ticks;
      var r := Pass(names, ticks[0], s);
      PassLeavesOthers(names, ticks[0], s, k);
      assert WellFormed(names, ticks[1..]) by {
        assert forall t :: t in ticks[1..] ==> t in ticks;
      }
      UnconfiguredNamesUntouched(names, ticks[1..], r.store, k);
      assert Run(names, ticks, s) == Run(names, ticks[1..], r.store);
    }
  }

  /** A pass in which every name that resolves opens and reads successfully
      always completes; names that do not resolve never stop it. */
  lemma CompletesWithoutReadErrors(names: seq<string>, probes: seq<Probe>, s: Store)
    requires |probes| == |names|
    requires forall i :: 0 <= i < |probes| && GetPid(probes[i].listing, names[i]) != 0 ==> ReadsSucceed(probes[i])
    ensures Pass(names, probes, s).Completed?
  {
  }

  /** Some visit of `k` in the pass took its stamp reading at time `at`. */
  ghost predicate StampedBy(names: seq<string>, probes: seq<Probe>, k: string, at: int)
    requires |probes| == |names|
  {
    exists i :: 0 <= i < |names| && names[i] == k && probes[i].stampedAt == at
  }

  /** Every recorded last-success time is either the one the pass started with
      or the stamp reading of one of that name's own visits in the pass. */
  lemma {:induction false} StampsFromThisPass(names: seq<string>, probes: seq<Probe>, s: Store)
    requires |probes| == |names|
    ensures var r := Pass(names, probes, s).store;
      forall k :: k in r.lastUpdate ==>
        (k in s.lastUpdate && r.lastUpdate[k] == s.lastUpdate[k]) || StampedBy(names, probes, k, r.lastUpdate[k])
    decreases |names|
  {
    if |names| > 0 {
      var n := |names| - 1;
      StampsFromThisPass(names[..n], probes[..n], s);
      var p := Pass(names[..n], probes[..n], s);
      var r := Pass(names, probes, s).store;
      forall k | k in r.lastUpdate && !(k in s.lastUpdate && r.lastUpdate[k] == s.lastUpdate[k])
        ensures StampedBy(names, probes, k, r.lastUpdate[k])
      {
        if k in p.store.lastUpdate && r.lastUpdate[k] == p.store.lastUpdate[k] {
          assert StampedBy(names[..n], probes[..n], k, r.lastUpdate[k]);
          var i :| 0 <= i < n && names[..n][i] == k && probes[..n][i].stampedAt == r.lastUpdate[k];
          assert names[i] == k && probes[i].stampedAt == r.lastUpdate[k];
        } else {
          assert p.Completed?;
          assert names[n] == k && probes[n].stampedAt == r.lastUpdate[k];
        }
      }
    }
  }

  /** Every name with a recorded success has all three gauge series. */
  predicate Coherent(s: Store)
  {
    && s.lastUpdate.Keys <= s.cpu.Keys
    && s.lastUpdate.Keys <= s.mem.Keys
    && s.lastUpdate.Keys <= s.pid.Keys
  }

  /** No series and no timestamp of `s` is missing from `t`. */
  predicate Grows(s: Store, t: Store)
  {
    && s.cpu.Keys <= t.cpu.Keys && s.mem.Keys <= t.mem.Keys && s.pid.Keys <= t.pid.Keys
    && s.lastUpdate.Keys <= t.lastUpdate.Keys
  }

  /** One visit keeps the store coherent and never removes a series; a visit
      that lets the pass go on leaves the name with its three series. */
  lemma VisitKeepsCoherent(name: string, probe: Probe, s: Store)
    requires Coherent(s)
    ensures var v := Visit(name, probe, s).store;
      && Coherent(v) && Grows(s, v)
      && (Visit(name, probe, s).Next? ==> name in v.cpu && name in v.mem && name in v.pid)
  {
  }

  /** Every name in `names` has all three gauge series in `t`. */
  predicate Covers(t: Store, names: seq<string>)
  {
    forall i :: 0 <= i < |names| ==> names[i] in t.cpu && names[i] in t.mem && names[i] in t.pid
  }

  /** A pass keeps the store coherent and never removes a series. */
  lemma {:induction false} PassKeepsCoherent(names: seq<string>, probes: seq<Probe>, s: Store)
    requires |probes| == |names|
    requires Coherent(s)
    ensures Coherent(Pass(names, probes, s).store) && Grows(s, Pass(names, probes, s).store)
    decreases |names|
  {
    if |names| > 0 {
      var n := |names| - 1;
      PassKeepsCoherent(names[..n], probes[..n], s);
      var p := Pass(names[..n], probes[..n], s);
      if p.Completed? {
        VisitKeepsCoherent(names[n], probes[n], p.store);
      }
    }
  }

  /** After a completed pass every configured name has its three gauge series
      (coherence and growth come from `PassKeepsCoherent`). */
  lemma {:induction false} CompletedPassCoversNames(names: seq<string>, probes: seq<Probe>, s: Store)
    requires |probes| == |names|
    requires Coherent(s)
    ensures Pass(names, probes, s).Completed? ==> Covers(Pass(names, probes, s).store, names)
    decreases |names|
  {
    if |names| > 0 {
      var n := |names| - 1;
      CompletedPassCoversNames(names[..n], probes[..n], s);
      PassKeepsCoherent(names[..n], probes[..n], s);
      var p := Pass(names[..n], probes[..n], s);
      var r := Pass(names, probes, s);
      if r.Completed? {
        assert p.Completed?;
        assert Covers(p.store, names[..n]);
        var v := Visit(names[n], probes[n], p.store);
        VisitKeepsCoherent(names[n], probes[n], p.store);
        assert r.store == v.store;
        assert Covers(r.store, names);
      }
    }
  }

  /** The not-found placeholder for `k`: every series of `k` that exists reads 0. */
  predicate ZeroOrAbsent(s: Store, k: string)
  {
    && (k in s.cpu ==> s.cpu[k] == 0.0)
    && (k in s.mem ==> s.mem[k] == 0.0)
    && (k in s.pid ==> s.pid[k] == 0.0)
  }

  /** In this pass every occurrence of `k` in the name list failed to resolve. */
  predicate NeverFoundIn(names: seq<string>, probes: seq<Probe>, k: string)
    requires |probes| == |names|
  {
    forall i :: 0 <= i < |names| && names[i] == k ==> GetPid(probes[i].listing, k) == 0
  }

  /** One pass keeps the placeholder of a name that none of its visits resolves. */
  lemma {:induction false} NeverFoundPass(names: seq<string>, probes: seq<Probe>, s: Store, k: string)
    requires |probes| == |names|
    requires NeverFoundIn(names, probes, k)
    requires ZeroOrAbsent(s, k)
    ensures ZeroOrAbsent(Pass(names, probes, s).store, k)
    decreases |names|
  {
    if |names| > 0 {
      var n := |names| - 1;
      assert NeverFoundIn(names[..n], probes[..n], k) by {
        assert forall i :: 0 <= i < n ==> names[..n][i] == names[i] && probes[..n][i] == probes[i];
      }
      NeverFoundPass(names[..n], probes[..n], s, k);
    }
  }

  /** A configured name that no tick ever resolves shows cpu = mem = pid = 0
      (or no series at all) after any number of ticks. */
  lemma {:induction false} NeverFoundStaysZero(names: seq<string>, ticks: seq<seq<Probe>>, s: Store, k: string)
    requires WellFormed(names, ticks)
    requires forall t :: t in ticks ==> NeverFoundIn(names, t, k)
    requires ZeroOrAbsent(s, k)
    ensures ZeroOrAbsent(Run(names, ticks, s), k)
    decreases |ticks|
  {
    if |ticks| > 0 {
      assert ticks[0] in ticks;
      NeverFoundPass(names, ticks[0], s, k);
      assert forall t :: t in ticks[1..] ==> t in ticks;
      NeverFoundStaysZero(names, ticks[1..], Pass(names, ticks[0], s).store, k);
    }
  }

  /** A prefix of a pass that got through `b` names got through too. */
  lemma {:induction false} PrefixCompleted(names: seq<string>, probes: seq<Probe>, s: Store, a: nat, b: nat)
    requires |probes| == |names| && a <= b <= |names|
    requires Pass(names[..b], probes[..b], s).Completed?
    ensures Pass(names[..a], probes[..a], s).Completed?
  {
    if Pass(names[..a], probes[..a], s).Aborted? {
      assert names[..b][..a] == names[..a] && probes[..b][..a] == probes[..a];
      AbortIsFinal(names[..b], probes[..b], s, a);
    }
  }

  /** Between the first `a` and the first `b` names of a pass that got through
      `b` names, the entries of a key that none of those visits names stay as
      they were. */
  lemma {:induction false} SegmentFrame(names: seq<string>, probes: seq<Probe>, s: Store, a: nat, b: nat, k: string)
    requires |probes| == |names| && a <= b <= |names|
    requires Pass(names[..b], probes[..b], s).Completed?
    requires k !in names[a..b]
    ensures Pass(names[..a], probes[..a], s).Completed?
    ensures SameAt(Pass(names[..a], probes[..a], s).store, Pass(names[..b], probes[..b], s).store, k)
    decreases b - a
  {
    if a < b {
      var m := b - 1;
      assert names[..b][..m] == names[..m] && probes[..b][..m] == probes[..m];
      assert Pass(names[..m], probes[..m], s).Completed?;
      assert names[a..m] <= names[a..b];
      assert names[m] == names[a..b][m - a];
      SegmentFrame(names, probes, s, a, m, k);
      VisitInPass(names, probes, s, m);
    }
  }

  /** A name sampled successfully at position i and visited next at position j
      is not sampled again there when its staleness check at j comes less than
      `Interval` after the stamp taken at i: if it still resolves, the visit
      leaves the store unchanged. */
  lemma SkippedAtNextVisit(names: seq<string>, probes: seq<Probe>, s: Store, i: nat, j: nat)
    requires |probes| == |names| && i < j < |names| && names[i] == names[j]
    requires names[i] !in names[i + 1..j]
    requires Pass(names[..j], probes[..j], s).Completed?
    requires GetPid(probes[i].listing, names[i]) != 0
    requires Due(Pass(names[..i], probes[..i], s).store, names[i], probes[i].checkedAt)
    requires ReadsSucceed(probes[i])
    requires GetPid(probes[j].listing, names[j]) != 0
    requires probes[j].checkedAt - probes[i].stampedAt < Interval
    ensures Pass(names[..j + 1], probes[..j + 1], s) == Pass(names[..j], probes[..j], s)
  {
    PrefixCompleted(names, probes, s, i, j);
    VisitInPass(names, probes, s, i);
    SegmentFrame(names, probes, s, i + 1, j, names[i]);
    VisitInPass(names, probes, s, j);
  }

  /** The same situation, but the staleness check at j comes `Interval` or more
      after the stamp taken at i (a slow read in between): the name is due
      again, and successful readings at j overwrite its stamp. */
  lemma ResampledAtNextVisit(names: seq<string>, probes: seq<Probe>, s: Store, i: nat, j: nat)
    requires |probes| == |names| && i < j < |names| && names[i] == names[j]
    requires names[i] !in names[i + 1..j]
    requires Pass(names[..j], probes[..j], s).Completed?
    requires GetPid(probes[i].listing, names[i]) != 0
    requires Due(Pass(names[..i], probes[..i], s).store, names[i], probes[i].checkedAt)
    requires ReadsSucceed(probes[i])
    requires GetPid(probes[j].listing, names[j]) != 0
    requires probes[j].checkedAt - probes[i].stampedAt >= Interval
    ensures Due(Pass(names[..j], probes[..j], s).store, names[j], probes[j].checkedAt)
    ensures ReadsSucceed(probes[j]) ==>
      var after := Pass(names[..j + 1], probes[..j + 1], s).store;
      names[j] in after.lastUpdate && after.lastUpdate[names[j]] == probes[j].stampedAt
  {
    PrefixCompleted(names, probes, s, i, j);
    VisitInPass(names, probes, s, i);
    SegmentFrame(names, probes, s, i + 1, j, names[i]);
    VisitInPass(names, probes, s, j);
  }

  /** On a steady tick, the next staleness check comes exactly `Interval` after
      the previous one. The stamp is taken after the readings, so it is later
      than that check. The next tick then finds the name not yet due and
      leaves it as it was. */
  lemma SteadyTickSkipsAfterSlowStamp(k: string, p1: Probe, p2: Probe, s: Store)
    requires GetPid(p1.listing, k) != 0 && Due(s, k, p1.checkedAt) && ReadsSucceed(p1)
    requires p1.checkedAt < p1.stampedAt
    requires GetPid(p2.listing, k) != 0 && p2.checkedAt == p1.checkedAt + Interval
    ensures Pass([k], [p1], s).Completed?
    ensures Pass([k], [p2], Pass([k], [p1], s).store) == Completed(Pass([k], [p1], s).store)
  {
  }

  /** A pass ends early only at a name that was due, after every name before
      it got through: the early returns sit inside the staleness gate. */
  lemma {:induction false} AbortedAtDueName(names: seq<string>, probes: seq<Probe>, s: Store)
    requires |probes| == |names|
    ensures var r := Pass(names, probes, s);
      r.Aborted? ==>
        && Pass(names[..r.at], probes[..r.at], s).Completed?
        && Due(Pass(names[..r.at], probes[..r.at], s).store, names[r.at], probes[r.at].checkedAt)
    decreases |names|
  {
    if |names| > 0 {
      var n := |names| - 1;
      AbortedAtDueName(names[..n], probes[..n], s);
      var p := Pass(names[..n], probes[..n], s);
      if p.Aborted? {
        assert names[..n][..p.at] == names[..p.at];
        assert probes[..n][..p.at] == probes[..p.at];
      } else {
        var v := Visit(names[n], probes[n], p.store);
        if v.Stop? {
          assert Pass(names, probes, s) == Aborted(v.store, n);
          assert Due(p.store, names[n], probes[n].checkedAt);
        }
      }
    }
  }
}
