/** The apply phase: `update_hpa` for each target of the event, in catalog
    order, stopping the whole run at the first target that cannot be applied. */
module ApplyPhase {
  import opened Wrappers
  import opened Cluster
  import opened OrderedDict
  import opened EventConfig

  /** Why an apply step ends the run. */
  datatype Abort = InvalidMinCount | ReadFailed(err: ApiError) | PatchFailed(err: ApiError)

  /** What one `update_hpa` call leaves behind: the cluster, the
      `original_values` dict, the calls it issued, and the reason it ended
      the run, if it did. */
  datatype Step = Step(cluster: Cluster, originals: Entries, calls: seq<Call>, abort: Option<Abort>)

  /** What goes wrong at an apply step, decided only by the target, whether
      its autoscaler exists, and the oracle. */
  function ExpectedAbort(t: Target, step: nat, keys: set<string>, faults: PhaseFaults): Option<Abort> {
    if !ValidMinCount(t) then Some(InvalidMinCount)
    else if t.name !in keys then Some(ReadFailed(NotFound))
    else if step in faults.readFails then Some(ReadFailed(ApiFailure))
    else if step in faults.patchFails then Some(PatchFailed(ApiFailure))
    else None
  }

  /** The step gets as far as recording the original value. */
  predicate ReadSucceeds(t: Target, step: nat, keys: set<string>, faults: PhaseFaults) {
    ValidMinCount(t) && t.name in keys && step !in faults.readFails
  }

  predicate StepSucceeds(t: Target, step: nat, keys: set<string>, faults: PhaseFaults) {
    ExpectedAbort(t, step, keys, faults).None?
  }

  /** `update_hpa(name, minCount)` as the `step`-th target of the event. */
  function UpdateHpa(t: Target, step: nat, cluster: Cluster, originals: Entries, faults: PhaseFaults): (r: Step)
    // an invalid target is refused before its autoscaler is read
    ensures !ValidMinCount(t) ==> r == Step(cluster, originals, [], Some(InvalidMinCount))
    ensures r.abort == ExpectedAbort(t, step, cluster.Keys, faults)
    // the original is recorded once the read succeeds, whether or not the patch does,
    // and it is the value read, not the new minimum
    ensures ReadSucceeds(t, step, cluster.Keys, faults) ==>
      r.originals == Put(originals, t.name, cluster[t.name].minReplicas)
    ensures !ReadSucceeds(t, step, cluster.Keys, faults) ==> r.originals == originals
    // a failed step changes nothing in the cluster; a successful one changes
    // only `minReplicas` of this one service
    ensures r.abort.Some? ==> r.cluster == cluster
    ensures r.abort.None? ==>
      && r.cluster.Keys == cluster.Keys
      && r.cluster[t.name] == Hpa(t.minCount.value, cluster[t.name].otherFields)
      && forall n :: n in cluster && n != t.name ==> r.cluster[n] == cluster[n]
    // calls issued: none for an invalid target, a read, then a patch only after a good read
    ensures |r.calls| == if !ValidMinCount(t) then 0 else if !ReadSucceeds(t, step, cluster.Keys, faults) then 1 else 2
    ensures ValidMinCount(t) && !ReadSucceeds(t, step, cluster.Keys, faults) ==> r.calls == [ReadCall(step, t.name)]
    // read-modify-write: the patch sends back the object just read with only
    // `minReplicas` changed
    ensures ReadSucceeds(t, step, cluster.Keys, faults) ==>
      r.calls == [ReadCall(step, t.name), PatchCall(step, t.name, Hpa(t.minCount.value, cluster[t.name].otherFields))]
    ensures forall c :: c in r.calls ==> c.step == step && c.name == t.name
    ensures forall c :: c in r.calls && c.PatchCall? ==> c.body.minReplicas == t.minCount.value
    ensures ReadBeforePatch(r.calls)
  {
    if t.minCount.None? || t.minCount.value < 1 then
      Step(cluster, originals, [], Some(InvalidMinCount))
    else
      match Read(cluster, t.name, step, faults)
      case Failure(e) =>
        Step(cluster, originals, [ReadCall(step, t.name)], Some(ReadFailed(e)))
      case Success(hpa) =>
        var recorded := Put(originals, t.name, hpa.minReplicas);
        var body := hpa.(minReplicas := t.minCount.value);
        var calls := [ReadCall(step, t.name), PatchCall(step, t.name, body)];
        match Patch(cluster, t.name, body, step, faults)
        case Failure(e) => Step(cluster, recorded, calls, Some(PatchFailed(e)))
        case Success(patched) => Step(patched, recorded, calls, None)
  }

  /** The step at which the apply phase stopped the run, and why. */
  datatype Halt = Halt(at: nat, why: Abort)

  datatype Applied = Applied(cluster: Cluster, originals: Entries, calls: seq<Call>, halt: Option<Halt>)

  /** Every step in `[lo, hi)` goes through. */
  ghost predicate AllSucceed(targets: seq<Target>, lo: nat, hi: nat, keys: set<string>, faults: PhaseFaults)
    requires hi <= |targets|
  {
    forall j :: lo <= j < hi ==> StepSucceeds(targets[j], j, keys, faults)
  }

  function NameSet(targets: seq<Target>, lo: nat, hi: nat): set<string>
    requires hi <= |targets|
  {
    set j | lo <= j < hi :: targets[j].name
  }

  /** The `for service in services` loop of `run` from the `i`-th target on,
      with the cluster and `original_values` the first `i` steps left; the
      result holds the calls of steps `i` onwards. */
  function ApplyFrom(targets: seq<Target>, faults: PhaseFaults, i: nat, cluster: Cluster, originals: Entries): (r: Applied)
    requires i <= |targets|
    decreases |targets| - i
    ensures r.cluster.Keys == cluster.Keys
    // the loop runs to the end exactly when every remaining step succeeds ...
    ensures r.halt.None? <==> AllSucceed(targets, i, |targets|, cluster.Keys, faults)
    // ... and otherwise stops at the first step that does not, for that step's reason
    ensures r.halt.Some? ==>
      && i <= r.halt.value.at < |targets|
      && AllSucceed(targets, i, r.halt.value.at, cluster.Keys, faults)
      && ExpectedAbort(targets[r.halt.value.at], r.halt.value.at, cluster.Keys, faults) == Some(r.halt.value.why)
  {
    if i == |targets| then Applied(cluster, originals, [], None)
    else
      var s := UpdateHpa(targets[i], i, cluster, originals, faults);
      if s.abort.Some? then
        Applied(s.cluster, s.originals, s.calls, Some(Halt(i, s.abort.value)))
      else
        var rest := ApplyFrom(targets, faults, i + 1, s.cluster, s.originals);
        assert s.cluster.Keys == cluster.Keys;
        AllSucceedCons(targets, i, if rest.halt.Some? then rest.halt.value.at else |targets|, cluster.Keys, faults);
        rest.(calls := s.calls + rest.calls)
  }

  /** A run of successful steps is its first step followed by the rest. */
  lemma AllSucceedCons(targets: seq<Target>, lo: nat, hi: nat, keys: set<string>, faults: PhaseFaults)
    requires lo < hi <= |targets|
    ensures AllSucceed(targets, lo, hi, keys, faults) <==>
      StepSucceeds(targets[lo], lo, keys, faults) && AllSucceed(targets, lo + 1, hi, keys, faults)
  {
  }

  /** Fail-fast, as seen in the calls: each call belongs to a step of this
      loop and names that step's service; none belongs to a step after the
      halting one, nor to the halting step when its target is invalid. */
  lemma {:induction false} ApplyFromCallSteps(targets: seq<Target>, faults: PhaseFaults, i: nat, cluster: Cluster, originals: Entries)
    requires i <= |targets|
    decreases |targets| - i
    ensures var r := ApplyFrom(targets, faults, i, cluster, originals);
      && (forall c :: c in r.calls ==> i <= c.step < |targets| && c.name == targets[c.step].name)
      && (r.halt.Some? ==> forall c :: c in r.calls ==> c.step <= r.halt.value.at)
      && (r.halt.Some? && r.halt.value.why == InvalidMinCount ==>
            forall c :: c in r.calls ==> c.step < r.halt.value.at)
  {
    if i < |targets| {
      var s := UpdateHpa(targets[i], i, cluster, originals, faults);
      if s.abort.None? {
        ApplyFromCallSteps(targets, faults, i + 1, s.cluster, s.originals);
      }
    }
  }

  /** Every patch the apply loop issues follows a fresh read of the same service. */
  lemma {:induction false} ApplyFromReadBeforePatch(targets: seq<Target>, faults: PhaseFaults, i: nat, cluster: Cluster, originals: Entries)
    requires i <= |targets|
    decreases |targets| - i
    ensures ReadBeforePatch(ApplyFrom(targets, faults, i, cluster, originals).calls)
  {
    if i < |targets| {
      var s := UpdateHpa(targets[i], i, cluster, originals, faults);
      if s.abort.None? {
        var rest := ApplyFrom(targets, faults, i + 1, s.cluster, s.originals);
        ApplyFromReadBeforePatch(targets, faults, i + 1, s.cluster, s.originals);
        ReadBeforePatchAppend(s.calls, rest.calls);
      }
    }
  }

  /** A patch that failed still left the original behind: the recorded value
      is the `minReplicas` the service still has. */
  lemma {:induction false} ApplyFromPatchFailureRecorded(targets: seq<Target>, faults: PhaseFaults, i: nat, cluster: Cluster, originals: Entries)
    requires i <= |targets|
    decreases |targets| - i
    ensures var r := ApplyFrom(targets, faults, i, cluster, originals);
      r.halt.Some? && r.halt.value.why.PatchFailed? ==>
        var name := targets[r.halt.value.at].name;
        name in r.cluster && Lookup(r.originals, name) == Some(r.cluster[name].minReplicas)
  {
    if i < |targets| {
      var s := UpdateHpa(targets[i], i, cluster, originals, faults);
      if s.abort.Some? {
        if targets[i].name in cluster {
          PutLookup(originals, targets[i].name, cluster[targets[i].name].minReplicas);
        }
      } else {
        ApplyFromPatchFailureRecorded(targets, faults, i + 1, s.cluster, s.originals);
      }
    }
  }

  /** Splitting off the first name of a range. */
  lemma NameSetSplit(targets: seq<Target>, lo: nat, hi: nat)
    requires lo < hi <= |targets|
    ensures NameSet(targets, lo, hi) == {targets[lo].name} + NameSet(targets, lo + 1, hi)
  {
    var a, b := NameSet(targets, lo, hi), {targets[lo].name} + NameSet(targets, lo + 1, hi);
    forall n | n in b ensures n in a {
      if n != targets[lo].name {
        var j :| lo + 1 <= j < hi && targets[j].name == n;
      }
    }
  }

  /** `original_values` gains exactly the services whose read went through:
      every service of a completed loop, and of a halted one the services
      before the halting step plus the halting service if its read succeeded. */
  lemma {:induction false} ApplyFromKeys(targets: seq<Target>, faults: PhaseFaults, i: nat, cluster: Cluster, originals: Entries)
    requires i <= |targets|
    decreases |targets| - i
    ensures var r := ApplyFrom(targets, faults, i, cluster, originals);
      && (r.halt.None? ==> KeySet(r.originals) == KeySet(originals) + NameSet(targets, i, |targets|))
      && (r.halt.Some? ==>
            var at := r.halt.value.at;
            KeySet(r.originals) == KeySet(originals) + NameSet(targets, i, at)
              + (if ReadSucceeds(targets[at], at, cluster.Keys, faults) then {targets[at].name} else {}))
  {
    if i == |targets| {
      assert NameSet(targets, i, i) == {};
    } else {
      var t := targets[i];
      var s := UpdateHpa(t, i, cluster, originals, faults);
      if ReadSucceeds(t, i, cluster.Keys, faults) {
        PutKeys(originals, t.name, cluster[t.name].minReplicas);
        assert KeySet(s.originals) == KeySet(originals) + {t.name};
      } else {
        assert s.originals == originals;
      }
      if s.abort.None? {
        ApplyFromKeys(targets, faults, i + 1, s.cluster, s.originals);
        var r := ApplyFrom(targets, faults, i + 1, s.cluster, s.originals);
        assert ApplyFrom(targets, faults, i, cluster, originals) == r.(calls := s.calls + r.calls);
        assert s.cluster.Keys == cluster.Keys;
        var hi := if r.halt.Some? then r.halt.value.at else |targets|;
        NameSetSplit(targets, i, hi);
      } else {
        assert ApplyFrom(targets, faults, i, cluster, originals).originals == s.originals;
        assert NameSet(targets, i, i) == {};
      }
    }
  }

  /** `original_values` keeps the dict invariant: no service appears twice. */
  lemma {:induction false} ApplyFromNoDupKeys(targets: seq<Target>, faults: PhaseFaults, i: nat, cluster: Cluster, originals: Entries)
    requires i <= |targets|
    requires NoDupKeys(originals)
    decreases |targets| - i
    ensures NoDupKeys(ApplyFrom(targets, faults, i, cluster, originals).originals)
  {
    if i < |targets| {
      var t := targets[i];
      var s := UpdateHpa(t, i, cluster, originals, faults);
      if ReadSucceeds(t, i, cluster.Keys, faults) {
        PutKeys(originals, t.name, cluster[t.name].minReplicas);
      }
      if s.abort.None? {
        ApplyFromNoDupKeys(targets, faults, i + 1, s.cluster, s.originals);
      }
    }
  }

  /** The entries a loop over steps `[i, |targets|)` would record if each
      service were read as it stands in `cluster`: one per target, in
      catalog order, with that service's `minReplicas`. */
  ghost function Snapshot(targets: seq<Target>, i: nat, cluster: Cluster): Entries
    requires i <= |targets|
    requires forall j :: i <= j < |targets| ==> targets[j].name in cluster
    decreases |targets| - i
  {
    if i == |targets| then []
    else [(targets[i].name, cluster[targets[i].name].minReplicas)] + Snapshot(targets, i + 1, cluster)
  }

  /** A snapshot lists one entry per remaining target ... */
  lemma {:induction false} SnapshotLength(targets: seq<Target>, i: nat, cluster: Cluster)
    requires i <= |targets|
    requires forall j :: i <= j < |targets| ==> targets[j].name in cluster
    decreases |targets| - i
    ensures |Snapshot(targets, i, cluster)| == |targets| - i
  {
    if i < |targets| {
      SnapshotLength(targets, i + 1, cluster);
    }
  }

  /** ... and lists target `j`'s service with its `minReplicas` at position `j - i`. */
  lemma {:induction false} SnapshotAt(targets: seq<Target>, i: nat, cluster: Cluster, j: nat)
    requires i <= j < |targets|
    requires forall k :: i <= k < |targets| ==> targets[k].name in cluster
    decreases j - i
    ensures |Snapshot(targets, i, cluster)| == |targets| - i
    ensures Snapshot(targets, i, cluster)[j - i] == (targets[j].name, cluster[targets[j].name].minReplicas)
  {
    SnapshotLength(targets, i, cluster);
    if i < j {
      SnapshotAt(targets, i + 1, cluster, j);
    }
  }

  /** A snapshot of the whole catalog, entry by entry. */
  lemma SnapshotEntries(targets: seq<Target>, cluster: Cluster, o: Entries)
    requires forall k :: 0 <= k < |targets| ==> targets[k].name in cluster
    requires o == Snapshot(targets, 0, cluster)
    ensures |o| == |targets|
    ensures forall t :: 0 <= t < |targets| ==>
      targets[t].name in cluster && o[t] == (targets[t].name, cluster[targets[t].name].minReplicas)
  {
    SnapshotLength(targets, 0, cluster);
    forall t | 0 <= t < |targets|
      ensures o[t] == (targets[t].name, cluster[targets[t].name].minReplicas)
    {
      SnapshotAt(targets, 0, cluster, t);
    }
  }

  /** Recording target `i` and then the snapshot from `i + 1` on is recording
      the snapshot from `i` on. */
  lemma SnapshotStep(targets: seq<Target>, i: nat, cluster: Cluster, o: Entries)
    requires i < |targets|
    requires forall j :: i <= j < |targets| ==> targets[j].name in cluster
    ensures (o + [(targets[i].name, cluster[targets[i].name].minReplicas)]) + Snapshot(targets, i + 1, cluster)
      == o + Snapshot(targets, i, cluster)
  {
    var first, snap := (targets[i].name, cluster[targets[i].name].minReplicas), Snapshot(targets, i + 1, cluster);
    assert Snapshot(targets, i, cluster) == [first] + snap;
    assert (o + [first]) + snap == o + ([first] + snap);
  }

  /** A snapshot only depends on the `minReplicas` of the services it lists. */
  lemma {:induction false} SnapshotFrame(targets: seq<Target>, i: nat, c1: Cluster, c2: Cluster)
    requires i <= |targets|
    requires forall j :: i <= j < |targets| ==>
      targets[j].name in c1 && targets[j].name in c2 && c1[targets[j].name].minReplicas == c2[targets[j].name].minReplicas
    decreases |targets| - i
    ensures Snapshot(targets, i, c1) == Snapshot(targets, i, c2)
  {
    if i < |targets| {
      var n := targets[i].name;
      assert c1[n].minReplicas == c2[n].minReplicas;
      SnapshotFrame(targets, i + 1, c1, c2);
    }
  }

  /** With distinct service names, a completed loop records, in catalog
      order, each service's `minReplicas` as it stood before the loop. */
  lemma {:induction false} ApplyFromRecordsOriginals(targets: seq<Target>, faults: PhaseFaults, i: nat, cluster: Cluster, originals: Entries)
    requires i <= |targets|
    requires DistinctNames(targets)
    requires forall j :: i <= j < |targets| ==> targets[j].name !in KeySet(originals)
    requires AllSucceed(targets, i, |targets|, cluster.Keys, faults)
    decreases |targets| - i
    ensures forall j :: i <= j < |targets| ==> targets[j].name in cluster
    ensures ApplyFrom(targets, faults, i, cluster, originals).originals == originals + Snapshot(targets, i, cluster)
  {
    assert forall j :: i <= j < |targets| ==> StepSucceeds(targets[j], j, cluster.Keys, faults);
    if i < |targets| {
      var t := targets[i];
      var s := UpdateHpa(t, i, cluster, originals, faults);
      var o1 := originals + [(t.name, cluster[t.name].minReplicas)];
      assert s.originals == o1;
      PutKeys(originals, t.name, cluster[t.name].minReplicas);
      forall j | i + 1 <= j < |targets|
        ensures targets[j].name !in KeySet(o1)
        ensures cluster[targets[j].name] == s.cluster[targets[j].name]
      {
        assert targets[i].name != targets[j].name;
      }
      ApplyFromRecordsOriginals(targets, faults, i + 1, s.cluster, o1);
      SnapshotFrame(targets, i + 1, s.cluster, cluster);
      assert ApplyFrom(targets, faults, i, cluster, originals) == ApplyFrom(targets, faults, i + 1, s.cluster, o1).(calls := s.calls + ApplyFrom(targets, faults, i + 1, s.cluster, o1).calls);
      SnapshotStep(targets, i, cluster, originals);
    }
  }

  /** With distinct service names, a completed loop started from the empty
      dict records every service once, in catalog order, with its starting value. */
  lemma CompletedLoopRecords(targets: seq<Target>, faults: PhaseFaults, cluster: Cluster)
    requires DistinctNames(targets)
    requires AllSucceed(targets, 0, |targets|, cluster.Keys, faults)
    ensures var o := ApplyFrom(targets, faults, 0, cluster, Empty).originals;
      && |o| == |targets|
      && NoDupKeys(o)
      && (forall t :: 0 <= t < |targets| ==>
            targets[t].name in cluster && o[t] == (targets[t].name, cluster[targets[t].name].minReplicas))
  {
    var o := ApplyFrom(targets, faults, 0, cluster, Empty).originals;
    ApplyFromRecordsOriginals(targets, faults, 0, cluster, Empty);
    assert o == Snapshot(targets, 0, cluster);
    SnapshotEntries(targets, cluster, o);
    ApplyFromNoDupKeys(targets, faults, 0, cluster, Empty);
  }

  /** With distinct service names, a completed loop leaves each service at
      its target minimum with every other field as it was. */
  lemma {:induction false} ApplyFromFinalCluster(targets: seq<Target>, faults: PhaseFaults, i: nat, cluster: Cluster, originals: Entries)
    requires i <= |targets|
    requires DistinctNames(targets)
    requires AllSucceed(targets, i, |targets|, cluster.Keys, faults)
    decreases |targets| - i
    ensures var r := ApplyFrom(targets, faults, i, cluster, originals);
      forall j :: i <= j < |targets| ==>
        targets[j].name in cluster
        && r.cluster[targets[j].name] == Hpa(targets[j].minCount.value, cluster[targets[j].name].otherFields)
  {
    if i < |targets| {
      var t := targets[i];
      assert StepSucceeds(t, i, cluster.Keys, faults);
      var s := UpdateHpa(t, i, cluster, originals, faults);
      ApplyFromFinalCluster(targets, faults, i + 1, s.cluster, s.originals);
      ApplyFromUntouched(targets, faults, i + 1, s.cluster, s.originals);
      assert t.name !in NameSet(targets, i + 1, |targets|);
      forall j | i + 1 <= j < |targets|
        ensures cluster[targets[j].name] == s.cluster[targets[j].name]
      {
        assert targets[i].name != targets[j].name;
      }
    }
  }

  /** Services the loop did not get to are never patched: a service that is
      not the target of a step before the halting one (or of any step, when
      the loop completes) keeps its autoscaler exactly as it was. */
  lemma {:induction false} ApplyFromUntouched(targets: seq<Target>, faults: PhaseFaults, i: nat, cluster: Cluster, originals: Entries)
    requires i <= |targets|
    decreases |targets| - i
    ensures var r := ApplyFrom(targets, faults, i, cluster, originals);
      var hi := if r.halt.Some? then r.halt.value.at else |targets|;
      forall n :: n in cluster && n !in NameSet(targets, i, hi) ==> r.cluster[n] == cluster[n]
  {
    if i < |targets| {
      var t := targets[i];
      var s := UpdateHpa(t, i, cluster, originals, faults);
      if s.abort.None? {
        ApplyFromUntouched(targets, faults, i + 1, s.cluster, s.originals);
        var r := ApplyFrom(targets, faults, i + 1, s.cluster, s.originals);
        var hi := if r.halt.Some? then r.halt.value.at else |targets|;
        NameSetSplit(targets, i, hi);
      }
    }
  }

  /** The whole apply loop, starting from an empty `original_values`: it stops
      at the first target that cannot be applied, and issues no call for any
      target after it. */
  function Apply(targets: seq<Target>, cluster: Cluster, faults: PhaseFaults): (r: Applied)
    ensures r.cluster.Keys == cluster.Keys
    ensures r.halt.None? <==> AllSucceed(targets, 0, |targets|, cluster.Keys, faults)
    ensures r.halt.Some? ==>
      && r.halt.value.at < |targets|
      && AllSucceed(targets, 0, r.halt.value.at, cluster.Keys, faults)
      && ExpectedAbort(targets[r.halt.value.at], r.halt.value.at, cluster.Keys, faults) == Some(r.halt.value.why)
    ensures forall c :: c in r.calls ==> c.step < |targets| && c.name == targets[c.step].name
    ensures r.halt.Some? ==> forall c :: c in r.calls ==> c.step <= r.halt.value.at
    ensures r.halt.Some? && r.halt.value.why == InvalidMinCount ==>
      forall c :: c in r.calls ==> c.step < r.halt.value.at
    ensures r.halt.Some? && r.halt.value.why.PatchFailed? ==>
      var name := targets[r.halt.value.at].name;
      name in r.cluster && Lookup(r.originals, name) == Some(r.cluster[name].minReplicas)
    ensures ReadBeforePatch(r.calls)
  {
    ApplyFromCallSteps(targets, faults, 0, cluster, Empty);
    ApplyFromReadBeforePatch(targets, faults, 0, cluster, Empty);
    ApplyFromPatchFailureRecorded(targets, faults, 0, cluster, Empty);
    ApplyFrom(targets, faults, 0, cluster, Empty)
  }
}
