/** The revert phase, `revert_hpa`: for every entry of `original_values`, in
    insertion order, read the autoscaler afresh and patch its `minReplicas`
    back to the recorded value. A failure on one entry is logged and the loop
    moves on to the next. */
module RevertPhase {
  import opened Wrappers
  import opened Cluster
  import opened OrderedDict

  /** How one entry's revert ended. */
  datatype RevertStatus = Restored | ReadError(err: ApiError) | PatchError(err: ApiError)

  datatype Reverted = Reverted(cluster: Cluster, statuses: seq<RevertStatus>, calls: seq<Call>)

  /** How the revert of the `step`-th entry ends, decided only by whether its
      autoscaler exists and by the oracle. */
  function ExpectedStatus(name: string, step: nat, keys: set<string>, faults: PhaseFaults): RevertStatus {
    if name !in keys then ReadError(NotFound)
    else if step in faults.readFails then ReadError(ApiFailure)
    else if step in faults.patchFails then PatchError(ApiFailure)
    else Restored
  }

  /** The body of the `for service_name, original_min in ...items()` loop,
      with its `except ApiException` that logs and carries on. */
  function RevertOne(entry: (string, int), step: nat, cluster: Cluster, faults: PhaseFaults): (r: Reverted)
    ensures r.statuses == [ExpectedStatus(entry.0, step, cluster.Keys, faults)]
    ensures r.statuses[0] != Restored ==> r.cluster == cluster
    // a restore puts back the recorded minimum, keeps the other fields of the
    // object just read, and touches no other service
    ensures r.statuses[0] == Restored ==>
      && r.cluster.Keys == cluster.Keys
      && r.cluster[entry.0] == Hpa(entry.1, cluster[entry.0].otherFields)
      && forall n :: n in cluster && n != entry.0 ==> r.cluster[n] == cluster[n]
    // the entry is attempted exactly once: one read, then a patch only after a good read
    ensures ReadNames(r.calls) == [entry.0]
    ensures forall c :: c in r.calls ==> c.step == step && c.name == entry.0
    ensures ReadBeforePatch(r.calls)
    // a failed read goes straight to the `except`; otherwise the patch sends
    // the object just read with only `minReplicas` put back
    ensures r.statuses[0].ReadError? ==> r.calls == [ReadCall(step, entry.0)]
    ensures !r.statuses[0].ReadError? ==>
      r.calls == [ReadCall(step, entry.0), PatchCall(step, entry.0, Hpa(entry.1, cluster[entry.0].otherFields))]
  {
    var (name, original) := entry;
    match Read(cluster, name, step, faults)
    case Failure(e) =>
      Reverted(cluster, [ReadError(e)], [ReadCall(step, name)])
    case Success(hpa) =>
      var body := hpa.(minReplicas := original);
      var calls := [ReadCall(step, name), PatchCall(step, name, body)];
      assert ReadNames(calls) == [name] by {
        assert calls[1..][1..] == [];
        assert ReadNames(calls[1..]) == [];
      }
      match Patch(cluster, name, body, step, faults)
      case Failure(e) => Reverted(cluster, [PatchError(e)], calls)
      case Success(restored) => Reverted(restored, [Restored], calls)
  }

  /** The revert loop from the `j`-th entry on. Each entry's status depends
      only on that entry: earlier failures never stop later entries. */
  function RevertFrom(originals: Entries, faults: PhaseFaults, j: nat, cluster: Cluster): (r: Reverted)
    requires j <= |originals|
    decreases |originals| - j
    ensures r.cluster.Keys == cluster.Keys
    ensures |r.statuses| == |originals| - j
    ensures forall t :: j <= t < |originals| ==>
      r.statuses[t - j] == ExpectedStatus(originals[t].0, t, cluster.Keys, faults)
    ensures forall c :: c in r.calls ==> j <= c.step < |originals| && c.name == originals[c.step].0
  {
    if j == |originals| then Reverted(cluster, [], [])
    else
      var one := RevertOne(originals[j], j, cluster, faults);
      var rest := RevertFrom(originals, faults, j + 1, one.cluster);
      Reverted(rest.cluster, one.statuses + rest.statuses, one.calls + rest.calls)
  }

  /** Every entry is attempted exactly once, in insertion order, whatever fails. */
  lemma {:induction false} RevertFromAttempts(originals: Entries, faults: PhaseFaults, j: nat, cluster: Cluster)
    requires j <= |originals|
    decreases |originals| - j
    ensures ReadNames(RevertFrom(originals, faults, j, cluster).calls) == KeyOrder(originals)[j..]
    ensures ReadBeforePatch(RevertFrom(originals, faults, j, cluster).calls)
  {
    if j < |originals| {
      var one := RevertOne(originals[j], j, cluster, faults);
      var rest := RevertFrom(originals, faults, j + 1, one.cluster);
      RevertFromAttempts(originals, faults, j + 1, one.cluster);
      ReadNamesAppend(one.calls, rest.calls);
      ReadBeforePatchAppend(one.calls, rest.calls);
      assert KeyOrder(originals)[j..] == [originals[j].0] + KeyOrder(originals)[j + 1..];
    }
  }

  /** With the dict invariant, a later entry never names the service of an earlier one. */
  lemma LaterEntriesOtherNames(originals: Entries, j: nat)
    requires j < |originals|
    requires NoDupKeys(originals)
    ensures originals[j].0 !in KeySet(originals[j + 1..])
    ensures KeySet(originals[j..]) == {originals[j].0} + KeySet(originals[j + 1..])
  {
    assert originals[j..] == [originals[j]] + originals[j + 1..];
  }

  /** With the dict invariant, the loop puts each restored service back to its
      recorded minimum, keeping the other fields of the object it reads. */
  lemma {:induction false} RevertFromRestores(originals: Entries, faults: PhaseFaults, j: nat, cluster: Cluster)
    requires j <= |originals|
    requires NoDupKeys(originals)
    decreases |originals| - j
    ensures var r := RevertFrom(originals, faults, j, cluster);
      forall t :: j <= t < |originals| && r.statuses[t - j] == Restored ==>
        originals[t].0 in cluster
        && r.cluster[originals[t].0] == Hpa(originals[t].1, cluster[originals[t].0].otherFields)
  {
    if j < |originals| {
      var name := originals[j].0;
      var r := RevertFrom(originals, faults, j, cluster);
      var one := RevertOne(originals[j], j, cluster, faults);
      var rest := RevertFrom(originals, faults, j + 1, one.cluster);
      assert r.statuses == one.statuses + rest.statuses;
      RevertFromRestores(originals, faults, j + 1, one.cluster);
      RevertFromFrame(originals, faults, j + 1, one.cluster);
      LaterEntriesOtherNames(originals, j);
      forall t | j <= t < |originals| && r.statuses[t - j] == Restored
        ensures originals[t].0 in cluster
        ensures r.cluster[originals[t].0] == Hpa(originals[t].1, cluster[originals[t].0].otherFields)
      {
        if t == j {
          assert one.statuses[0] == Restored;
          assert rest.cluster[name] == one.cluster[name];
        } else {
          assert r.statuses[t - j] == rest.statuses[t - (j + 1)];
          assert originals[t].0 != name;
          assert one.cluster[originals[t].0] == cluster[originals[t].0];
        }
      }
    }
  }

  /** The loop leaves every service that has no entry, and every entry whose
      revert failed, as the hold left it. */
  lemma {:induction false} RevertFromFrame(originals: Entries, faults: PhaseFaults, j: nat, cluster: Cluster)
    requires j <= |originals|
    requires NoDupKeys(originals)
    decreases |originals| - j
    ensures var r := RevertFrom(originals, faults, j, cluster);
      && (forall n :: n in cluster && n !in KeySet(originals[j..]) ==> r.cluster[n] == cluster[n])
      && (forall t :: j <= t < |originals| && r.statuses[t - j] != Restored && originals[t].0 in cluster ==>
            r.cluster[originals[t].0] == cluster[originals[t].0])
  {
    if j < |originals| {
      var name := originals[j].0;
      var r := RevertFrom(originals, faults, j, cluster);
      var one := RevertOne(originals[j], j, cluster, faults);
      var rest := RevertFrom(originals, faults, j + 1, one.cluster);
      assert r.statuses == one.statuses + rest.statuses;
      RevertFromFrame(originals, faults, j + 1, one.cluster);
      LaterEntriesOtherNames(originals, j);
      forall n | n in cluster && n !in KeySet(originals[j..])
        ensures r.cluster[n] == cluster[n]
      {
        assert n != name;
        assert one.cluster[n] == cluster[n];
      }
      forall t | j <= t < |originals| && r.statuses[t - j] != Restored && originals[t].0 in cluster
        ensures r.cluster[originals[t].0] == cluster[originals[t].0]
      {
        if t == j {
          assert one.cluster == cluster;
        } else {
          assert r.statuses[t - j] == rest.statuses[t - (j + 1)];
          assert originals[t].0 != name;
          assert one.cluster[originals[t].0] == cluster[originals[t].0];
        }
      }
    }
  }

  /** `revert_hpa` over the whole `original_values`. */
  function Revert(originals: Entries, cluster: Cluster, faults: PhaseFaults): (r: Reverted)
    ensures r.cluster.Keys == cluster.Keys
    ensures |r.statuses| == |originals|
    ensures forall t :: 0 <= t < |originals| ==>
      r.statuses[t] == ExpectedStatus(originals[t].0, t, cluster.Keys, faults)
    ensures ReadNames(r.calls) == KeyOrder(originals)
    ensures ReadBeforePatch(r.calls)
  {
    RevertFromAttempts(originals, faults, 0, cluster);
    RevertFrom(originals, faults, 0, cluster)
  }
}
