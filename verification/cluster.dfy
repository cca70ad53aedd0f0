/** The cluster side of the pilot: the autoscaler objects of one namespace,
    the two control-plane calls the pilot makes on them (read one, patch one),
    and an oracle that says which of those calls the control plane refuses. */
module Cluster {
  import opened Wrappers

  /** A HorizontalPodAutoscaler as the pilot sees it: `spec.minReplicas`,
      and every other field of the object, which the pilot must carry
      through a read-modify-write unchanged. */
  datatype Hpa = Hpa(minReplicas: int, otherFields: map<string, string>)

  /** The autoscalers of the configured namespace, by service name. */
  type Cluster = map<string, Hpa>

  /** The two kinds of `ApiException` the pilot distinguishes: status 404,
      and any other `ApiException`. Errors the client raises without an
      `ApiException`, such as an unreachable API server, are not modelled. */
  datatype ApiError = NotFound | ApiFailure

  /** Which attempts of one phase the control plane refuses. Attempts are
      numbered by their position in the phase: the catalog index during the
      apply phase, the `original_values` index during the revert phase. */
  datatype PhaseFaults = PhaseFaults(readFails: set<nat>, patchFails: set<nat>)

  /** A control plane that accepts every call. */
  const NoFaults := PhaseFaults({}, {})

  /** One control-plane call, tagged with the position of the attempt that issued it. */
  datatype Call =
    | ReadCall(step: nat, name: string)
    | PatchCall(step: nat, name: string, body: Hpa)

  /** `read_namespaced_horizontal_pod_autoscaler`: a missing object is a 404;
      otherwise the oracle decides whether the call fails. */
  function Read(c: Cluster, name: string, step: nat, faults: PhaseFaults): (r: Result<Hpa, ApiError>)
    ensures r.Success? <==> name in c && step !in faults.readFails
    ensures r.Success? ==> r.value == c[name]
    ensures r == Failure(NotFound) <==> name !in c
  {
    if name !in c then Failure(NotFound)
    else if step in faults.readFails then Failure(ApiFailure)
    else Success(c[name])
  }

  /** `patch_namespaced_horizontal_pod_autoscaler` with a whole object read
      just before: on success the object becomes `body` and no other object
      changes. */
  function Patch(c: Cluster, name: string, body: Hpa, step: nat, faults: PhaseFaults): (r: Result<Cluster, ApiError>)
    ensures r.Success? <==> name in c && step !in faults.patchFails
    ensures r.Success? ==> r.value.Keys == c.Keys && r.value[name] == body
    ensures r.Success? ==> forall n :: n in c && n != name ==> r.value[n] == c[n]
  {
    if name !in c then Failure(NotFound)
    else if step in faults.patchFails then Failure(ApiFailure)
    else Success(c[name := body])
  }

  /** The client's read-modify-write rule: every patch is issued right after
      a read of the same service by the same attempt. */
  ghost predicate ReadBeforePatch(calls: seq<Call>) {
    forall i :: 0 <= i < |calls| && calls[i].PatchCall? ==>
      0 < i && calls[i - 1] == ReadCall(calls[i].step, calls[i].name)
  }

  /** Two traces that each keep the rule keep it when run one after the other. */
  lemma ReadBeforePatchAppend(a: seq<Call>, b: seq<Call>)
    requires ReadBeforePatch(b)
    ensures ReadBeforePatch(a) ==> ReadBeforePatch(a + b)
  {
    if !ReadBeforePatch(a) {
      return;
    }
    forall i | 0 <= i < |a + b| && (a + b)[i].PatchCall?
      ensures 0 < i && (a + b)[i - 1] == ReadCall((a + b)[i].step, (a + b)[i].name)
    {
      if i >= |a| {
        assert (a + b)[i] == b[i - |a|];
        assert 0 < i - |a|;
        assert (a + b)[i - 1] == b[i - |a| - 1];
      } else {
        assert (a + b)[i] == a[i];
        assert (a + b)[i - 1] == a[i - 1];
      }
    }
  }

  /** The services the trace reads, in the order it reads them: one entry per
      attempt, since every attempt starts with a read. */
  function ReadNames(calls: seq<Call>): seq<string> {
    if |calls| == 0 then []
    else (if calls[0].ReadCall? then [calls[0].name] else []) + ReadNames(calls[1..])
  }

  lemma {:induction false} ReadNamesAppend(a: seq<Call>, b: seq<Call>)
    ensures ReadNames(a + b) == ReadNames(a) + ReadNames(b)
  {
    if |a| > 0 {
      assert (a + b)[1..] == a[1..] + b;
      ReadNamesAppend(a[1..], b);
    } else {
      assert a + b == b;
    }
  }
}
