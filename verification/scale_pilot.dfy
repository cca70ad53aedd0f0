/** `ScalePilot.run`: the gate, the apply loop, the hold, the revert loop,
    and what a run leaves behind. */
module ScalePilot {
  import opened Wrappers
  import opened Cluster
  import opened OrderedDict
  import opened EventConfig
  import opened ApplyPhase
  import opened RevertPhase

  /** What other actors do to the namespace while the pilot sleeps: delete
      some autoscalers, rewrite others. */
  datatype Drift = Drift(deleted: set<string>, rewritten: map<string, Hpa>)

  /** Nobody touches the namespace during the hold. */
  const NoDrift := Drift({}, map[])

  /** `sleep_temporarily`: a phase boundary at which the cluster may drift. */
  function Hold(cluster: Cluster, drift: Drift): (r: Cluster)
    ensures drift == NoDrift ==> r == cluster
    ensures r.Keys == (cluster.Keys - drift.deleted) + drift.rewritten.Keys
    ensures forall n :: n in cluster && n !in drift.deleted && n !in drift.rewritten ==> r[n] == cluster[n]
  {
    (cluster - drift.deleted) + drift.rewritten
  }

  /** The oracle for a whole run: one per phase. */
  datatype RunFaults = RunFaults(apply: PhaseFaults, revert: PhaseFaults)

  /** The largest value of CPython's internal time type, a signed 64-bit
      count of nanoseconds. */
  const MaxNanoseconds := 0x7FFF_FFFF_FFFF_FFFF

  /** `time.sleep` raises an error that nothing catches when the duration is
      negative (`ValueError`) or when the duration in nanoseconds does not
      fit the signed 64-bit time type (`OverflowError`). */
  predicate SleepCrashes(cfg: RunConfig) {
    cfg.sleepTime < 0 || cfg.sleepTime * 1_000_000_000 > MaxNanoseconds
  }

  /** The sleep goes through exactly for 0 to 9223372036 seconds. */
  lemma SleepRange(cfg: RunConfig)
    ensures !SleepCrashes(cfg) <==> 0 <= cfg.sleepTime <= 9_223_372_036
  {
    if cfg.sleepTime > 9_223_372_036 {
      assert cfg.sleepTime * 1_000_000_000 >= 9_223_372_037 * 1_000_000_000;
    }
  }

  /** How a run ends. A refused configuration touches nothing; an apply
      failure ends the process with the cluster as the apply loop left it and
      no hold or revert; a crash in the hold ends it after a complete apply
      loop, again with no revert; a completed run went through both loops. */
  datatype Outcome =
    | ConfigAbort(defects: set<ConfigDefect>)
    | ApplyAbort(cluster: Cluster, originals: Entries, applyCalls: seq<Call>, halt: Halt)
    | HoldCrash(cluster: Cluster, originals: Entries, applyCalls: seq<Call>)
    | Completed(cluster: Cluster, originals: Entries, applyCalls: seq<Call>, revertCalls: seq<Call>, statuses: seq<RevertStatus>)

  /** `run`. */
  function Run(cfg: RunConfig, catalog: Catalog, cluster: Cluster, faults: RunFaults, drift: Drift): (r: Outcome)
    ensures r.ConfigAbort? <==> CheckEventConfig(cfg, catalog).Failure?
    ensures r.ConfigAbort? ==> r.defects != {}
    ensures r.ApplyAbort? ==> r.cluster.Keys == cluster.Keys
    ensures r.ApplyAbort? ==> forall c :: c in r.applyCalls ==> c.step <= r.halt.at
    ensures r.Completed? ==> |r.statuses| == |r.originals| && ReadNames(r.revertCalls) == KeyOrder(r.originals)
    ensures r.ApplyAbort? ==> ReadBeforePatch(r.applyCalls)
    ensures r.HoldCrash? ==> SleepCrashes(cfg) && r.cluster.Keys == cluster.Keys
    ensures r.HoldCrash? ==> ReadBeforePatch(r.applyCalls)
    ensures r.Completed? ==> !SleepCrashes(cfg)
    ensures r.Completed? ==> ReadBeforePatch(r.applyCalls + r.revertCalls)
  {
    match CheckEventConfig(cfg, catalog)
    case Failure(defects) => ConfigAbort(defects)
    case Success(targets) =>
      var applied := Apply(targets, cluster, faults.apply);
      if applied.halt.Some? then
        ApplyAbort(applied.cluster, applied.originals, applied.calls, applied.halt.value)
      else if SleepCrashes(cfg) then
        HoldCrash(applied.cluster, applied.originals, applied.calls)
      else
        var reverted := Revert(applied.originals, Hold(applied.cluster, drift), faults.revert);
        ReadBeforePatchAppend(applied.calls, reverted.calls);
        Completed(reverted.cluster, applied.originals, applied.calls, reverted.calls, reverted.statuses)
  }

  /** The process exit status: every `exit(1)`, and the uncaught error of a
      sleep out of range, give 1; only a run that returns from `run`, after the
      end of the revert loop, exits with 0, however many of its reverts failed. */
  function ExitCode(o: Outcome): (code: int)
    ensures code == 0 || code == 1
    ensures code == 0 <==> o.Completed?
  {
    if o.Completed? then 0 else 1
  }

  /** A run exits with 0 exactly when the gate passes, every target of the
      event goes through, and the sleep lasts 0 to 9223372036 seconds; the
      revert loop's own failures never change it. */
  lemma ExitCodeZeroIff(cfg: RunConfig, catalog: Catalog, cluster: Cluster, faults: RunFaults, drift: Drift)
    ensures ExitCode(Run(cfg, catalog, cluster, faults, drift)) == 0 <==>
      && CheckEventConfig(cfg, catalog).Success?
      && AllSucceed(TargetsOf(cfg, catalog), 0, |TargetsOf(cfg, catalog)|, cluster.Keys, faults.apply)
      && 0 <= cfg.sleepTime <= 9_223_372_036
  {
    SleepRange(cfg);
  }

  /** A sleep that crashes, after a complete apply loop, ends the process
      before `revert_hpa`: the cluster stays as the apply loop left it, with
      every target at its new minimum, no revert call is made, and the exit
      status is 1. */
  lemma SleepCrashSkipsRevert(cfg: RunConfig, catalog: Catalog, cluster: Cluster, faults: RunFaults, drift: Drift)
    requires CheckEventConfig(cfg, catalog).Success?
    requires Apply(TargetsOf(cfg, catalog), cluster, faults.apply).halt.None?
    requires cfg.sleepTime < 0 || cfg.sleepTime > 9_223_372_036
    ensures var r := Run(cfg, catalog, cluster, faults, drift);
      var a := Apply(TargetsOf(cfg, catalog), cluster, faults.apply);
      && r == HoldCrash(a.cluster, a.originals, a.calls)
      && ExitCode(r) == 1
  {
    SleepRange(cfg);
  }

  /** The targets a run that passed the gate works through. */
  function TargetsOf(cfg: RunConfig, catalog: Catalog): seq<Target>
    requires CheckEventConfig(cfg, catalog).Success?
  {
    CheckEventConfig(cfg, catalog).value
  }

  /** A target whose `minCount` is missing or below 1 ends the run at that
      target: neither it nor any later target is read or patched, and the
      hold and revert never happen. */
  lemma InvalidTargetStopsRun(cfg: RunConfig, catalog: Catalog, cluster: Cluster, faults: RunFaults, drift: Drift, k: nat)
    requires CheckEventConfig(cfg, catalog).Success?
    requires k < |TargetsOf(cfg, catalog)|
    requires !ValidMinCount(TargetsOf(cfg, catalog)[k])
    requires AllSucceed(TargetsOf(cfg, catalog), 0, k, cluster.Keys, faults.apply)
    ensures var r := Run(cfg, catalog, cluster, faults, drift);
      && r.ApplyAbort? && r.halt == Halt(k, InvalidMinCount)
      && (forall c :: c in r.applyCalls ==> c.step < k)
      && ExitCode(r) != 0
  {
    var ts := TargetsOf(cfg, catalog);
    assert !StepSucceeds(ts[k], k, cluster.Keys, faults.apply);
    var a := Apply(ts, cluster, faults.apply);
  }

  /** Fail-fast: when target `k` is the first whose read or patch fails, the
      run ends there. No call is issued for a later target, every service
      that is not one of the first `k` targets keeps its autoscaler exactly,
      and the hold and revert never happen. */
  lemma ApplyFailureStopsRun(cfg: RunConfig, catalog: Catalog, cluster: Cluster, faults: RunFaults, drift: Drift, k: nat)
    requires CheckEventConfig(cfg, catalog).Success?
    requires k < |TargetsOf(cfg, catalog)|
    requires !StepSucceeds(TargetsOf(cfg, catalog)[k], k, cluster.Keys, faults.apply)
    requires AllSucceed(TargetsOf(cfg, catalog), 0, k, cluster.Keys, faults.apply)
    ensures var r := Run(cfg, catalog, cluster, faults, drift);
      var a := Apply(TargetsOf(cfg, catalog), cluster, faults.apply);
      && r.ApplyAbort? && r.halt.at == k
      && r == ApplyAbort(a.cluster, a.originals, a.calls, r.halt)
      && (forall c :: c in r.applyCalls ==> c.step <= k)
      && (forall n :: n in cluster && n !in NameSet(TargetsOf(cfg, catalog), 0, k) ==> r.cluster[n] == cluster[n])
      && ExitCode(r) != 0
  {
    var ts := TargetsOf(cfg, catalog);
    var a := Apply(ts, cluster, faults.apply);
    ApplyFromUntouched(ts, faults.apply, 0, cluster, Empty);
  }

  /** After a completed apply loop `original_values` holds exactly the
      services of the event, once each. */
  lemma CompletedRecordsEveryTarget(cfg: RunConfig, catalog: Catalog, cluster: Cluster, faults: RunFaults, drift: Drift)
    requires Run(cfg, catalog, cluster, faults, drift).Completed?
    ensures CheckEventConfig(cfg, catalog).Success?
    ensures var r := Run(cfg, catalog, cluster, faults, drift);
      var ts := TargetsOf(cfg, catalog);
      KeySet(r.originals) == NameSet(ts, 0, |ts|) && NoDupKeys(r.originals)
  {
    var ts := TargetsOf(cfg, catalog);
    ApplyFromKeys(ts, faults.apply, 0, cluster, Empty);
    ApplyFromNoDupKeys(ts, faults.apply, 0, cluster, Empty);
  }

  /** With distinct service names, `original_values` of a completed run lists
      the services in catalog order, each with the `minReplicas` it had
      before the run, never the new minimum. */
  lemma CompletedRecordsPrePatchValues(cfg: RunConfig, catalog: Catalog, cluster: Cluster, faults: RunFaults, drift: Drift)
    requires Run(cfg, catalog, cluster, faults, drift).Completed?
    requires cfg.eventName.Some? && cfg.eventName.value in catalog
    requires DistinctNames(catalog[cfg.eventName.value])
    ensures var r := Run(cfg, catalog, cluster, faults, drift);
      var ts := catalog[cfg.eventName.value];
      && KeyOrder(r.originals) == Names(ts)
      && forall j :: 0 <= j < |ts| ==>
           ts[j].name in cluster && r.originals[j] == (ts[j].name, cluster[ts[j].name].minReplicas)
  {
    var ts := TargetsOf(cfg, catalog);
    var a := Apply(ts, cluster, faults.apply);
    assert a.halt.None? && Run(cfg, catalog, cluster, faults, drift).originals == a.originals;
    CompletedApplyRecords(ts, cluster, faults.apply);
    assert |KeyOrder(a.originals)| == |Names(ts)|;
  }

  /** The revert loop is isolated per service: it attempts every entry of
      `original_values` exactly once, in insertion order, and how each
      attempt ends depends only on that entry, never on earlier failures. */
  lemma RevertIsolatedPerService(cfg: RunConfig, catalog: Catalog, cluster: Cluster, faults: RunFaults, drift: Drift)
    requires Run(cfg, catalog, cluster, faults, drift).Completed?
    ensures var r := Run(cfg, catalog, cluster, faults, drift);
      && ReadNames(r.revertCalls) == KeyOrder(r.originals)
      && |r.statuses| == |r.originals|
      && forall t :: 0 <= t < |r.originals| ==>
           r.statuses[t] == ExpectedStatus(r.originals[t].0, t, Hold(Apply(TargetsOf(cfg, catalog), cluster, faults.apply).cluster, drift).Keys, faults.revert)
  {
  }

  /** Whatever happens during the hold, the revert loop changes only
      `minReplicas` of the services it restores, keeping every other field of
      the object as it reads it then. */
  lemma RevertKeepsOtherFields(cfg: RunConfig, catalog: Catalog, cluster: Cluster, faults: RunFaults, drift: Drift)
    requires Run(cfg, catalog, cluster, faults, drift).Completed?
    ensures var r := Run(cfg, catalog, cluster, faults, drift);
      var held := Hold(Apply(TargetsOf(cfg, catalog), cluster, faults.apply).cluster, drift);
      && r.cluster.Keys == held.Keys
      && (forall t :: 0 <= t < |r.originals| && r.statuses[t] == Restored ==>
            r.originals[t].0 in held
            && r.cluster[r.originals[t].0] == Hpa(r.originals[t].1, held[r.originals[t].0].otherFields))
      && (forall n :: n in held && n !in KeySet(r.originals) ==> r.cluster[n] == held[n])
  {
    var ts := TargetsOf(cfg, catalog);
    var a := Apply(ts, cluster, faults.apply);
    var held := Hold(a.cluster, drift);
    ApplyFromNoDupKeys(ts, faults.apply, 0, cluster, Empty);
    RevertFromRestores(a.originals, faults.revert, 0, held);
    RevertFromFrame(a.originals, faults.revert, 0, held);
    assert a.originals[0..] == a.originals;
  }

  /** The bookkeeping behind the round trip: if each catalog service was
      recorded with its starting value, moved only in `minReplicas`, and then
      restored with the fields it had, while every other service stayed put,
      the cluster is back where it started. */
  lemma RestoredEverywhere(cluster: Cluster, applied: Cluster, final: Cluster, ts: seq<Target>, originals: Entries, statuses: seq<RevertStatus>)
    requires |originals| == |ts| == |statuses|
    requires applied.Keys == cluster.Keys && final.Keys == cluster.Keys
    requires forall t :: 0 <= t < |ts| ==>
      ts[t].name in cluster && originals[t] == (ts[t].name, cluster[ts[t].name].minReplicas)
    requires forall t :: 0 <= t < |ts| ==> applied[ts[t].name].otherFields == cluster[ts[t].name].otherFields
    requires forall n :: n in cluster && n !in NameSet(ts, 0, |ts|) ==> applied[n] == cluster[n]
    requires forall t :: 0 <= t < |statuses| ==> statuses[t] == Restored
    requires forall t :: 0 <= t < |originals| && statuses[t] == Restored ==>
      final[originals[t].0] == Hpa(originals[t].1, applied[originals[t].0].otherFields)
    requires forall n :: n in applied && n !in KeySet(originals) ==> final[n] == applied[n]
    ensures final == cluster
  {
    forall n | n in cluster
      ensures final[n] == cluster[n]
    {
      if n in NameSet(ts, 0, |ts|) {
        var j :| 0 <= j < |ts| && ts[j].name == n;
        assert originals[j] == (n, cluster[n].minReplicas);
        assert statuses[j] == Restored;
      } else {
        assert n !in KeySet(originals);
      }
    }
  }

  /** `ApplyPhase.CompletedLoopRecords` restated for `Apply`, the form the
      round trip uses: this lemma only bridges `Apply` to the loop started
      from the empty dict. */
  lemma CompletedApplyRecords(ts: seq<Target>, cluster: Cluster, faults: PhaseFaults)
    requires DistinctNames(ts)
    requires Apply(ts, cluster, faults).halt.None?
    ensures var a := Apply(ts, cluster, faults);
      && |a.originals| == |ts|
      && NoDupKeys(a.originals)
      && (forall t :: 0 <= t < |ts| ==>
            ts[t].name in cluster && a.originals[t] == (ts[t].name, cluster[ts[t].name].minReplicas))
  {
    assert Apply(ts, cluster, faults) == ApplyFrom(ts, faults, 0, cluster, Empty);
    CompletedLoopRecords(ts, faults, cluster);
  }

  /** What a completed apply loop over distinct names does to the cluster:
      only `minReplicas` of the catalog services moves. */
  lemma CompletedApplyCluster(ts: seq<Target>, cluster: Cluster, faults: PhaseFaults)
    requires DistinctNames(ts)
    requires Apply(ts, cluster, faults).halt.None?
    ensures var a := Apply(ts, cluster, faults);
      && a.cluster.Keys == cluster.Keys
      && (forall t :: 0 <= t < |ts| ==> ts[t].name in cluster && a.cluster[ts[t].name].otherFields == cluster[ts[t].name].otherFields)
      && (forall n :: n in cluster && n !in NameSet(ts, 0, |ts|) ==> a.cluster[n] == cluster[n])
  {
    assert AllSucceed(ts, 0, |ts|, cluster.Keys, faults);
    ApplyFromFinalCluster(ts, faults, 0, cluster, Empty);
    ApplyFromUntouched(ts, faults, 0, cluster, Empty);
  }

  /** What a revert loop over a dict whose every service exists, with every
      call accepted, leaves behind, in the form the round trip needs. */
  lemma FaultlessRevertShape(originals: Entries, cluster: Cluster)
    requires NoDupKeys(originals)
    requires forall t :: 0 <= t < |originals| ==> originals[t].0 in cluster
    ensures var rv := Revert(originals, cluster, NoFaults);
      && |rv.statuses| == |originals|
      && rv.cluster.Keys == cluster.Keys
      && (forall t :: 0 <= t < |rv.statuses| ==> rv.statuses[t] == Restored)
      && (forall t :: 0 <= t < |originals| && rv.statuses[t] == Restored ==>
            rv.cluster[originals[t].0] == Hpa(originals[t].1, cluster[originals[t].0].otherFields))
      && (forall n :: n in cluster && n !in KeySet(originals) ==> rv.cluster[n] == cluster[n])
  {
    var rv := Revert(originals, cluster, NoFaults);
    assert rv == RevertFrom(originals, NoFaults, 0, cluster);
    forall t | 0 <= t < |rv.statuses|
      ensures rv.statuses[t] == Restored
    {
      assert rv.statuses[t] == ExpectedStatus(originals[t].0, t, cluster.Keys, NoFaults);
    }
    RevertFromRestores(originals, NoFaults, 0, cluster);
    assert originals[0..] == originals;
    RevertFromFrame(originals, NoFaults, 0, cluster);
  }

  /** The round trip at the level of the two loops: with distinct names, a
      completed apply loop followed directly by a revert loop whose calls all
      succeed gives back the cluster it started from. */
  lemma ApplyThenRevert(ts: seq<Target>, cluster: Cluster, faults: PhaseFaults)
    requires DistinctNames(ts)
    requires Apply(ts, cluster, faults).halt.None?
    ensures var a := Apply(ts, cluster, faults);
      var rv := Revert(a.originals, a.cluster, NoFaults);
      && rv.cluster == cluster
      && forall t :: 0 <= t < |rv.statuses| ==> rv.statuses[t] == Restored
  {
    var a := Apply(ts, cluster, faults);
    CompletedApplyRecords(ts, cluster, faults);
    CompletedApplyCluster(ts, cluster, faults);
    FaultlessRevertShape(a.originals, a.cluster);
    var rv := Revert(a.originals, a.cluster, NoFaults);
    RestoredEverywhere(cluster, a.cluster, rv.cluster, ts, a.originals, rv.statuses);
  }

  /** The round trip: with distinct service names, nothing changed during the
      hold and every revert call accepted, a completed run leaves the
      namespace exactly as it found it, whatever minimums it applied. */
  lemma RoundTrip(cfg: RunConfig, catalog: Catalog, cluster: Cluster, faults: RunFaults)
    requires Run(cfg, catalog, cluster, faults, NoDrift).Completed?
    requires cfg.eventName.Some? && cfg.eventName.value in catalog
    requires DistinctNames(catalog[cfg.eventName.value])
    requires faults.revert == NoFaults
    ensures Run(cfg, catalog, cluster, faults, NoDrift).cluster == cluster
    ensures forall t :: 0 <= t < |Run(cfg, catalog, cluster, faults, NoDrift).statuses| ==>
      Run(cfg, catalog, cluster, faults, NoDrift).statuses[t] == Restored
  {
    var ts := TargetsOf(cfg, catalog);
    var a := Apply(ts, cluster, faults.apply);
    assert Hold(a.cluster, NoDrift) == a.cluster;
    ApplyThenRevert(ts, cluster, faults.apply);
  }

  /** A service named twice, first with minimum `a`, then `b`: the second
      read sees `a` and overwrites the recorded original with it, so the
      service ends the apply loop at `b` and a revert with no failures puts
      it at `a`, not at the value it started with. */
  lemma DuplicateNameRecordsFirstTarget(n: string, a: int, b: int, cluster: Cluster)
    requires n in cluster && a >= 1 && b >= 1
    ensures var ap := Apply([Target(n, Some(a)), Target(n, Some(b))], cluster, NoFaults);
      && ap.halt.None?
      && ap.originals == [(n, a)]
      && ap.cluster[n] == Hpa(b, cluster[n].otherFields)
      && Revert(ap.originals, ap.cluster, NoFaults).cluster[n] == Hpa(a, cluster[n].otherFields)
  {
    var ts := [Target(n, Some(a)), Target(n, Some(b))];
    var s0 := UpdateHpa(ts[0], 0, cluster, Empty, NoFaults);
    assert s0.originals == [(n, cluster[n].minReplicas)];
    var s1 := UpdateHpa(ts[1], 1, s0.cluster, s0.originals, NoFaults);
    assert s1.originals == [(n, a)];
    assert s0.abort.None? && s1.abort.None?;
    var last := ApplyFrom(ts, NoFaults, 2, s1.cluster, s1.originals);
    assert last.cluster == s1.cluster && last.originals == s1.originals;
    var mid := ApplyFrom(ts, NoFaults, 1, s0.cluster, s0.originals);
    assert mid.cluster == s1.cluster && mid.originals == s1.originals;
    var ap := Apply(ts, cluster, NoFaults);
    assert ap == ApplyFrom(ts, NoFaults, 0, cluster, Empty);
    assert ap.cluster == s1.cluster && ap.originals == s1.originals;
    var one := RevertOne((n, a), 0, ap.cluster, NoFaults);
    assert Revert(ap.originals, ap.cluster, NoFaults).cluster == RevertFrom(ap.originals, NoFaults, 1, one.cluster).cluster;
  }
}
