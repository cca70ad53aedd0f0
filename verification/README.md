# scale-pilot, modelled in Dafny

scale-pilot raises the `minReplicas` of a list of HorizontalPodAutoscalers
(HPAs) ahead of a traffic event. It holds them there for a fixed time, then
puts every one back. This project models the orchestration in `ScalePilot`
(`main.py`):

- the configuration gate `check_event_config`;
- the apply loop in `run`, where each target goes through `update_hpa` (validate `minCount`, read the HPA, record its `minReplicas` in `original_values`, patch);
- the hold `sleep_temporarily`;
- the revert loop `revert_hpa`.

How the control plane is modelled:

- The namespace is a map from service name to an HPA record `Hpa(minReplicas, otherFields)`.
- The two calls are `Read` and `Patch`. Reading a name that is not in the map is a 404 (`NotFound`).
- A fault oracle (`PhaseFaults`) says which read or patch attempts fail with another `ApiException` (`ApiFailure`).
- Attempts are numbered by their position in their phase: the catalog index in the apply loop, the `original_values` index in the revert loop. This lets a service named twice fail on one attempt and not the other.
- Each loop also returns its trace of calls (`ReadCall`/`PatchCall`, tagged with the attempt number). "Never touched" is then a statement about that trace.

`original_values` is a Python dict: it iterates in insertion order, and assigning to a key that is already present keeps the key where it is. The model uses a sequence of `(name, value)` entries (`OrderedDict`), updated in place on an existing key and appended to otherwise.

A run ends in one of four ways:

- `ConfigAbort(defects)`: the gate refused. Nothing was read or patched.
- `ApplyAbort(cluster, originals, calls, halt)`: the process called `exit(1)` during the apply loop. There was no hold and no revert.
- `HoldCrash(cluster, originals, calls)`: the apply loop completed but `time.sleep` raised an error. This happens when `SLEEP_TIME` is negative (`ValueError`) or larger than 9223372036 (`OverflowError`). The second case is CPython counting the duration in signed 64-bit nanoseconds. Below -9223372036 the error is an `OverflowError` too. Nothing catches either error: there is no revert and the exit code is 1.
- `Completed(...)`: both loops ran. The exit code is 0, however many reverts failed. A revert failure here means an `ApiException`; see "Left out" for other errors.

Modules: `Wrappers` (Option/Result), `Cluster`, `OrderedDict`, `EventConfig`,
`ApplyPhase`, `RevertPhase`, `ScalePilot`, `Scenarios`.

## Model

| member | source | states |
|---|---|---|
| `EventConfig.Configure` | main.py:12-19 | The configuration keeps the event name and webhook URL as read. An unset `NAMESPACE` becomes `nanovest` and an unset `SLEEP_TIME` becomes 900. A set value is kept as it is, even when it is empty or negative. |
| `EventConfig.Services` | main.py:37 | The lookup gives the event's service list exactly when the event name is set and the catalog has it, and `None` otherwise. |
| `EventConfig.CheckEventConfig` | main.py:33-50 | The run is refused exactly when the webhook URL is unset or empty, the event name is unset or empty, the catalog is empty, or the event has no service list or an empty one. The refusal names every condition that holds, and only those. Otherwise the service list is the catalog's non-empty entry for the event. |
| `Cluster.Read` | main.py:90 | A read succeeds exactly when the HPA exists and the oracle lets the attempt through, and it returns that HPA. It fails with 404 exactly when the HPA does not exist. |
| `Cluster.Patch` | main.py:94 | A patch that succeeds replaces only the named HPA with the body sent and keeps the set of HPAs. It succeeds exactly when the HPA exists and the oracle lets it through. |
| `OrderedDict.Put` | main.py:92 | `original_values[name] = v` keeps the key order when `name` is already a key. Otherwise it appends `name` at the end, and the new dict is the old one plus that entry. |
| `OrderedDict.PutLookup` | main.py:92 | After the assignment, `name` maps to `v` and every other key maps to what it did before. |
| `OrderedDict.PutKeys` | main.py:92 | The assignment adds exactly `name` to the keys and never creates a duplicate key. |
| `ApplyPhase.UpdateHpa` | main.py:79-107 | A missing or `< 1` `minCount` ends the run before any call, with nothing recorded. The step's outcome depends only on the target, on whether its HPA exists, and on the oracle. Once the read succeeds, the value read is recorded, whether or not the patch then succeeds. A failed step leaves the cluster as it was. A successful one sets only `minReplicas` of that service to `minCount`, keeps its other fields and leaves every other service unchanged. It issues no call for an invalid target, only a read when the read fails, and otherwise a read followed by a patch of the same service. The patch sends the object just read with only `minReplicas` set to `minCount`. |
| `ApplyPhase.ApplyFrom` | main.py:141-142 | The loop completes exactly when every remaining target succeeds. Otherwise it halts at the first target that fails, for that target's reason. |
| `ApplyPhase.Apply` | main.py:141-142 | From an empty `original_values`, the loop halts at the first failing target. No call names a later target, and when the target is invalid no call names the halting target either. Every patch follows a read of the same service. After a failed patch, the recorded value is the `minReplicas` the service still has. |
| `ApplyPhase.ApplyFromCallSteps` | main.py:84-107 | Fail-fast, as seen in the trace: every call belongs to a step of the loop and names that step's service. No call belongs to a step after the halting one, nor to the halting step when its target is invalid. |
| `ApplyPhase.ApplyFromReadBeforePatch` | main.py:90-94 | Every patch in the apply loop comes right after a fresh read of the same service by the same step. |
| `ApplyPhase.ApplyFromPatchFailureRecorded` | main.py:90-94 | When the run ends on a failed patch, `original_values` already holds that service, with the `minReplicas` it still has. |
| `ApplyPhase.ApplyFromKeys` | main.py:141-142 | After a completed loop, `original_values` has exactly the catalog's service names as keys. After a halted loop, its keys are the names before the halting step, plus the halting name if its read succeeded. |
| `ApplyPhase.ApplyFromNoDupKeys` | main.py:92 | `original_values` never holds a service twice. |
| `ApplyPhase.ApplyFromRecordsOriginals` | main.py:90-93 | With distinct names, a completed loop records each service in catalog order, with the `minReplicas` it had before the loop and never the new `minCount`. |
| `ApplyPhase.CompletedLoopRecords` | main.py:90-93 | With distinct names, a completed loop that starts from the empty dict records exactly one entry per target, with no key twice, each at the target's catalog position and holding the `minReplicas` the service had before the run. |
| `ApplyPhase.ApplyFromFinalCluster` | main.py:90-94 | With distinct names, a completed loop leaves each service with `minReplicas == minCount` and its other fields as they were. |
| `ApplyPhase.ApplyFromUntouched` | main.py:141-142 | A service that is not the target of any step before the halting one (or of any step at all, when the loop completes) keeps its HPA exactly as it was. |
| `RevertPhase.RevertOne` | main.py:119-133 | One revert attempt reads the service once. It restores the recorded `minReplicas` and keeps the other fields of the object just read, or else leaves the cluster as it was. Its status depends only on whether the HPA exists and on the oracle. A failed read issues only that read. Otherwise the read is followed by one patch, which sends the object just read with only `minReplicas` set to the recorded value. |
| `RevertPhase.RevertFrom` | main.py:118-133 | Every entry gets a status, and entry `t`'s status depends only on entry `t` and the oracle at `t`. An earlier failure never stops a later entry. |
| `RevertPhase.RevertFromAttempts` | main.py:118-133 | The services read are exactly the keys of `original_values`, in insertion order, each once, whatever fails. Every patch follows a read of the same service. |
| `RevertPhase.RevertFromRestores` | main.py:120-122 | Each restored service ends at its recorded `minReplicas`, with the other fields it had when the revert read it. |
| `RevertPhase.RevertFromFrame` | main.py:118-133 | Services with no entry, and entries whose revert failed, are left as the hold left them. |
| `RevertPhase.Revert` | main.py:114-133 | Over the whole dict: one status per entry, each decided by that entry alone. The reads follow the dict's key order. |
| `ScalePilot.Hold` | main.py:109-112 | With no outside change the hold leaves the cluster as it is. Any HPA nobody deleted or rewrote is kept. |
| `ScalePilot.Run` | main.py:135-145 | The run is a `ConfigAbort` exactly when the gate refuses, and then it names at least one defect. An apply abort keeps the set of HPAs and issues no call past the halting step. A hold crash happens only with a `SLEEP_TIME` outside 0 to 9223372036 seconds and keeps the set of HPAs; a completed run had one inside that range. A completed run has one revert status per recorded service and reads them in key order. Every patch in the run follows a read. |
| `ScalePilot.ExitCode` | main.py:135-145 | The exit code is 0 or 1. It is 0 exactly when `run` returns after the revert loop. Each `exit(1)` (main.py:48, 89, 107) and the uncaught error of a sleep out of range give 1. |
| `ScalePilot.ExitCodeZeroIff` | main.py:135-145 | A run exits with 0 exactly when the gate passes, every target of the event goes through, and `SLEEP_TIME` is between 0 and 9223372036. Revert failures never change the exit code. |
| `ScalePilot.SleepRange` | main.py:112 | The sleep goes through exactly when `SLEEP_TIME` is between 0 and 9223372036 seconds. Outside that range, `time.sleep` raises `ValueError` or `OverflowError`. |
| `ScalePilot.SleepCrashSkipsRevert` | main.py:109-112 | After a complete apply loop, a `SLEEP_TIME` below 0 or above 9223372036 ends the run with the cluster exactly as the apply loop left it. No revert call is made and the exit code is 1. |
| `ScalePilot.InvalidTargetStopsRun` | main.py:85-89 | If target `k` is the first that fails and its `minCount` is invalid, the run ends at `k` with no call for target `k` or any later one. The exit code is non-zero. |
| `ScalePilot.ApplyFailureStopsRun` | main.py:98-107 | If target `k` is the first that fails, the run ends there with the apply loop's own state, so there is no hold and no revert. No call names a later target, every service that is not one of the first `k` targets is unchanged, and the exit code is non-zero. |
| `ScalePilot.CompletedRecordsEveryTarget` | main.py:141-142 | After a completed run, the keys of `original_values` are exactly the event's service names, each once. |
| `ScalePilot.CompletedRecordsPrePatchValues` | main.py:90-93 | With distinct names, `original_values` lists the services in catalog order, each with its `minReplicas` from before the run. |
| `ScalePilot.RevertIsolatedPerService` | main.py:118-133 | In a completed run, every entry is attempted once, in insertion order, and each attempt's outcome depends only on that entry. |
| `ScalePilot.RevertKeepsOtherFields` | main.py:120-122 | Whatever changed during the hold, the revert changes only `minReplicas` of the services it restores and keeps the other fields it reads then. Every service without an entry is left as the hold left it. |
| `ScalePilot.CompletedApplyCluster` | main.py:90-94 | With distinct names, a completed apply loop keeps the set of HPAs. It keeps the other fields of every catalog service and leaves every service outside the catalog exactly as it was. |
| `ScalePilot.ApplyThenRevert` | main.py:141-145 | With distinct names, a completed apply loop followed by a revert with no failures restores every service and gives back the starting cluster. |
| `ScalePilot.RoundTrip` | main.py:139-145 | With distinct names, no change during the hold and no revert failure, a completed run leaves the namespace exactly as it found it, whatever `minCount` values were applied. |
| `ScalePilot.DuplicateNameRecordsFirstTarget` | main.py:90-94 | For a catalog of exactly two targets naming the same service, with minimums `a` then `b`, any starting HPA and no apply fault: the loop completes and records `(name, a)` as the original. The service ends the apply loop at `b`, and a revert with no failures sets it to `a`, not to its starting value. |
| `Scenarios.FlashSaleRoundTrip` | main.py:135-145 | A flash-sale event with two services, `checkout` and `catalog`: both services start at 2. The apply phase takes `checkout` to 10 and `catalog` to 5, the run completes with exit code 0, and both end at 2. |
| `Scenarios.FlashSaleOversizedSleep` | main.py:109-112 | The same event with `SLEEP_TIME=10000000000`: the apply phase completes and the sleep overflows. `checkout` stays at 10 and `catalog` at 5, and the exit code is 1. |
| `Scenarios.FlashSaleMissingService` | main.py:98-107 | Same event with no `catalog` HPA: `checkout` is scaled to 10 and recorded as 2. The run aborts at `catalog` with a 404, and `checkout` stays at 10 with a non-zero exit code. |
| `Scenarios.DuplicateNameRestoresFirstTarget` | main.py:92 | A service listed twice (10, then 5) starting at 2: the second read overwrites the recorded original with 10, and the run ends with the service at 10, not 2. |

## Left out

- Reading the environment (`load_dotenv`, `os.getenv`, `int(SLEEP_TIME)`, main.py:11-16). `Configure` takes each variable as already read (unset is `None`) and applies the defaults.
- Loading the YAML catalog and its `exit(1)` paths (main.py:21-31). The catalog is an already-parsed map. An empty YAML file makes `event_config` `None`, and `.get` on `None` then crashes before the gate. That crash is not modelled: an empty catalog is the empty map.
- Kubernetes client setup (`load_kube_config`, `AutoscalingV2Api`) and the namespace. The cluster map is the configured namespace.
- Slack notifications (main.py:52-61). Every call site is commented out in the source, so the model sends none.
- Message formatting (main.py:63-77, main.py:123-127) and all logging.
- How long a sleep in range lasts. A `SLEEP_TIME` that makes `time.sleep` raise is modelled, as the `HoldCrash` outcome. The hold is a phase boundary where other actors may delete or rewrite HPAs (`Drift`). Outside changes at any other time are not modelled.
- Crashes other than `ApiException`: a catalog entry without `name`, a non-integer `minCount`, a non-integer `SLEEP_TIME`, and client errors that are not wrapped in `ApiException`, such as urllib3's `MaxRetryError` when the API server is unreachable. A missing `minCount` is folded into `None`. Such a transport error escapes the `except` at main.py:98 and main.py:130. It ends the process, and in the revert loop no later entry is attempted.
- `RevertPhase.RevertFrom`, `ScalePilot.RevertIsolatedPerService`: the per-entry isolation they state covers `ApiException` failures only. A transport error stops the whole revert loop, and the model does not represent it.
- `spec.minReplicas` is optional in the Kubernetes API, and the model always has an integer. A revert that sends `None` back is not modelled.
- Patch semantics beyond "the object becomes the body sent": merge-patch details and resourceVersion conflicts are not modelled. A conflict is one of the oracle's `ApiFailure`s.
- `ScalePilot.RoundTrip` and `ApplyPhase.ApplyFromRecordsOriginals` require distinct service names. The source does not check for duplicates, and `ScalePilot.DuplicateNameRecordsFirstTarget` states what happens with one, for a catalog of exactly two targets naming the same service, with any name, minimums and starting HPA and no apply fault.
