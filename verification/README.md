# fnutils core, modelled in Dafny

This project models four small pieces of the fnrunner `fnutils` library as pure
Dafny functions and a few loop-based methods, and proves properties about them:

- **Identity formatting** (`pkg/meta/gvk.go`). A Kubernetes group/version/kind
  triple is written as `kind[.version][.group]`. Nil formats to `empty gvk` and
  an empty kind formats to `empty kind in gvk`. The inverse parse splits at the
  first two dots. `apiVersion` strings are split at the first `/`. Module
  `Gvk` covers these. Module `GoStrings` covers the Go `strings` functions they
  call (`Count`, `Split`, `SplitN` and `Join`, with a one-character
  separator), together with `Index`, the search that the model's `Split` and
  `SplitN` are built on.
- **Key/value store** (`pkg/kv/kv.go`). A string-keyed map of heterogeneous
  values, modelled in module `Kv`. It supports insert, merge, snapshot with
  deep copy, lookup and length. Values are nil, nested maps, nested lists, or
  leaves of an arbitrary type that the deep copy does not look inside.
- **Append-only list** (`pkg/slice/slice.go`), modelled in module `Slice` as a
  `seq`.
- **Vertex execution context** (`pkg/executor/exec_context.go`), modelled in
  module `Executor`. It covers the fan-in rule of `waitDependencies`, the
  fan-out of `run` as an event trace, registration of dependency and dependent
  channels, and the `isFinished`/`isVisted` probes. A dependent's channel is
  told apart from the others by a number, its identity.

In the executor model, each dependency channel is the finite list of
observations the waiting vertex makes on it. An observation is either a
heartbeat `Timeout` or a receive `Recv(d, ok)`. The work function enters as
its boolean result. The time it returned is a positive number. The order in
which Go ranges over a map is an explicit enumeration of the map's keys. A
wait whose observations contain no receive ends as `Stalled`. In Go that wait
blocks forever.

## Model

| member | source | states |
|---|---|---|
| GoStrings.CountZero | pkg/meta/gvk.go:55 | `strings.Count` finds no separator if and only if the text contains none |
| GoStrings.CountConcat | pkg/meta/gvk.go:55 | The separators counted in a concatenation are those of its two parts |
| GoStrings.SplitNThree | pkg/meta/gvk.go:56 | With two or more separators, `SplitN(s, ".", 3)` gives exactly three pieces: the text before the first separator, the text between the first and second, and everything after the second |
| GoStrings.SplitNThreeRejoin | pkg/meta/gvk.go:56 | The first two of those pieces contain no separator, and the three pieces joined by separators are the input |
| GoStrings.SplitOne | pkg/meta/gvk.go:72-73 | `Split` returns a single piece if and only if the text has no separator, which is the case `len(split) > 1` rules out |
| GoStrings.SplitCount | pkg/meta/gvk.go:72 | `Split` returns one more piece than there are separators |
| GoStrings.SplitPiecesFree | pkg/meta/gvk.go:72 | No piece returned by `Split` contains the separator |
| GoStrings.JoinSplit | pkg/meta/gvk.go:72-74 | Joining the pieces of `Split` with the separator gives back the text |
| GoStrings.SplitTail | pkg/meta/gvk.go:72-74 | When there is a separator, the first piece is the text before it, and joining the other pieces gives the text after it |
| Gvk.GVKToString | pkg/meta/gvk.go:34-52 | Nil gives `empty gvk`; an empty kind gives `empty kind in gvk` whatever version and group are; otherwise the non-empty fields in kind, version, group order, joined by dots |
| Gvk.StringToGroupVersionKind | pkg/meta/gvk.go:54-60 | Fewer than two dots gives three empty strings. Otherwise kind and version are dot-free, the group is the remainder and may contain dots, and kind.version.group is the input |
| Gvk.StringToGVK | pkg/meta/gvk.go:62-69 | The parsed fields land in kind, version and group with the same guarantees: blank below two dots, otherwise dot-free kind and version that reassemble the input |
| Gvk.ApiVersionToGroupVersion | pkg/meta/gvk.go:71-77 | Without `/` the group is empty and the version is the whole input; otherwise the group has no `/` and group + "/" + version is the input |
| Gvk.ApiVersionRoundTrip | pkg/meta/gvk.go:71-77 | A slash-free group and any version, written as `group/version`, split back into that group and version |
| Gvk.GetGVKFromAPIVersionKind | pkg/meta/gvk.go:79-84 | The kind is passed through unchanged; group and version come from the first-slash split of apiVersion |
| Gvk.ParseUnique | pkg/meta/gvk.go:54-69 | Any name of the form kind.version.group with dot-free kind and version parses to exactly that triple |
| Gvk.RoundTrip | pkg/meta/gvk.go:34-69 | Non-empty dot-free kind and version plus a non-empty group survive format-then-parse |
| Gvk.RoundTripExactly | pkg/meta/gvk.go:34-69 | Format-then-parse returns the triple if and only if it is blank or meets the round-trip conditions |
| Gvk.DotFreeParsesBlank | pkg/meta/gvk.go:54-60 | A name with no dot parses to the blank triple |
| Gvk.EmptyKindParsesBlank | pkg/meta/gvk.go:39-41 | The empty-kind sentinel parses to the blank triple, so version and group are lost |
| Gvk.EmptyVersionMisparsed | pkg/meta/gvk.go:42-57 | With no version and a dotted group, the first group segment reads back as the version (`Kind.apps.k8s.io` gives version `apps`, group `k8s.io`) |
| Gvk.EmptyGroupLost | pkg/meta/gvk.go:42-59 | With no group the name has one dot and parses to the blank triple (`Pod.v1`) |
| Gvk.EmptyVersionFails | pkg/meta/gvk.go:42-57 | A non-empty kind with an empty version never survives the round trip |
| Gvk.EmptyGroupFails | pkg/meta/gvk.go:42-59 | A non-empty kind and version with an empty group never survive the round trip |
| Kv.GetValue | pkg/kv/kv.go:88-92 | An absent key yields nil; a present key yields its stored value |
| Kv.Copy | pkg/kv/kv.go:68-86 | The deep copy equals its input: nested maps keep keys and values, lists keep length and order, scalars are unchanged |
| Kv.Get | pkg/kv/kv.go:58-66 | The snapshot has exactly the stored key set, and each value equals the stored one |
| Kv.GetIsFaithful | pkg/kv/kv.go:58-86 | A store rebuilt from its snapshot is the same store |
| Kv.Length | pkg/kv/kv.go:94-98 | The length is the size of the snapshot |
| Kv.New | pkg/kv/kv.go:33-37 | A new store has length 0 and yields nil for every key |
| Kv.AddEntry | pkg/kv/kv.go:44-48 | After insertion the key yields the new value, every other key yields what it did before, and the key set gains exactly that key |
| Kv.AddEntryLength | pkg/kv/kv.go:44-48 | Inserting under an existing key keeps the length; under a new key it adds one |
| Kv.Add | pkg/kv/kv.go:50-56 | The key set becomes the union; keys of the other store take its values, overwriting; keys absent from it keep their values |
| Slice.Length | pkg/slice/slice.go:52-56 | The length equals the number of elements `Get` returns |
| Slice.New | pkg/slice/slice.go:29-33 | A new list is empty with length 0 |
| Slice.Add | pkg/slice/slice.go:40-44 | Length grows by one, the new value is last, and the earlier elements keep their order |
| Slice.AddAllAppends | pkg/slice/slice.go:40-50 | `Get` returns the elements in insertion order: adding a sequence of values one by one makes it return the old contents followed by those values |
| Slice.FromNew | pkg/slice/slice.go:29-50 | A list built from `New` by adding values holds exactly those values and its length is their count |
| Executor.AddDoneCh | pkg/executor/exec_context.go:66-70 | Registering a dependent sets or replaces its channel; the other dependents keep their channels, and the dependencies and timestamps are unchanged |
| Executor.RegistrationKeepsProbes | pkg/executor/exec_context.go:66-88 | Registering a dependent or a dependency leaves both `isFinished` and `isVisted` answering as before |
| Executor.AddDepCh | pkg/executor/exec_context.go:72-76 | Registering a dependency sets or replaces its channel; other dependencies, the dependents and the timestamps are unchanged |
| Executor.Resolve | pkg/executor/exec_context.go:121-138 | The first receive decides one dependency: it is satisfied when `ok` or `d` holds, failed otherwise; with no receive the wait is still pending |
| Executor.WaitOne | pkg/executor/exec_context.go:121-138 | The per-channel loop computes exactly `Resolve` |
| Executor.Decide | pkg/executor/exec_context.go:117-142 | Proceeds if and only if every dependency is satisfied; otherwise it names the first unsatisfied dependency in iteration order, failed (abort) or pending (stalled) |
| Executor.WaitDependencies | pkg/executor/exec_context.go:111-143 | The nested loops compute `Decide`; they proceed exactly when every registered dependency is satisfied |
| Executor.HeartbeatsTransparent | pkg/executor/exec_context.go:134-136 | Any number of heartbeats before the first receive leaves the dependency's outcome unchanged |
| Executor.OpenReceiveSatisfies | pkg/executor/exec_context.go:126-128 | A receive on an open channel satisfies the dependency whether the value is true or false |
| Executor.FailedOnlyOnClose | pkg/executor/exec_context.go:123-133 | When closed channels yield false, a dependency fails exactly when its first receive finds the channel closed |
| Executor.FirstFailureAborts | pkg/executor/exec_context.go:129-132 | After satisfied dependencies, a failing one aborts the wait with its name whatever the later dependencies hold |
| Executor.OrderIrrelevant | pkg/executor/exec_context.go:118-142 | Whether the wait proceeds is the same for every iteration order of the dependency map |
| Executor.ReceivingWaitReturns | pkg/executor/exec_context.go:117-142 | When every channel is received from, the wait returns, and it returns true exactly when every first receive has `ok` or `d` |
| Executor.NoDependenciesProceed | pkg/executor/exec_context.go:118-142 | With no dependencies the wait proceeds |
| Executor.FanOut | pkg/executor/exec_context.go:96-103 | For each dependent channel in order, a send of the result immediately followed by closing that channel |
| Executor.Run | pkg/executor/exec_context.go:90-109 | With every dependent on its own channel: the work function is called first and only once, then the finish time is stamped. Each dependent's channel gets a send and a close, all carrying the same result. The own send and close come last. Only the finish time changes |
| Executor.RunStampsFinish | pkg/executor/exec_context.go:78-94 | After `run`, `isFinished` holds and `isVisted` is as before |
| Executor.DeliveredFanOut | pkg/executor/exec_context.go:96-103 | Each channel listed once receives the result once and is then closed; an unlisted channel receives nothing |
| Executor.RunDeliversFanOut | pkg/executor/exec_context.go:90-109 | Of the whole trace of `run`, only the fan-out reaches dependent channels |
| Executor.RunDelivers | pkg/executor/exec_context.go:90-109 | Every registered dependent receives exactly the result on its own open channel, then the closed-channel zero value |
| Executor.RunSkipsUnregistered | pkg/executor/exec_context.go:96-103 | A channel not registered as a dependent's gets neither a send nor a close, so a receiver on it only sees heartbeats |
| Executor.ReRegisterOrphans | pkg/executor/exec_context.go:66-103 | Registering a dependent again with a different channel orphans the earlier one: after `run`, a receiver on it is still waiting |
| Executor.FailureNotPropagated | pkg/executor/exec_context.go:123-133 | A dependent of a failed vertex still proceeds past that dependency, after any number of heartbeats |
| Executor.FailureNotPropagatedWait | pkg/executor/exec_context.go:111-143 | A dependent whose only dependency is a failed vertex has `waitDependencies` return true |
| Executor.ResolveIntended | pkg/executor/exec_context.go:123-133 | Corrected rule: the first value received decides, and false fails the dependency |
| Executor.HeartbeatsTransparentIntended | pkg/executor/exec_context.go:134-136 | Heartbeats before the first receive do not change the corrected outcome either |
| Executor.IntendedPropagatesFailure | pkg/executor/exec_context.go:93-133 | Under the corrected rule a dependent fails exactly when the vertex it waits on reported failure |

## Findings

| source | as written | input that shows it | evidently intended | confidence | as-written member | corrected member |
|---|---|---|---|---|---|---|
| pkg/executor/exec_context.go:126-128 | A value received on an open channel moves on to the next dependency without being looked at. Only a receive on a closed channel can return false. | The upstream work function returns false, so `run` sends `false` and then closes. The dependent's first receive is `(false, true)`, and `waitDependencies` returns true. | A received `false` aborts the wait, so the dependent's work function does not run and the failure cascades. | high (not executed) | Executor.FailureNotPropagatedWait | Executor.IntendedPropagatesFailure |

The intended contract is that a dependency failure aborts the wait. The code
does not do this, because the producer always sends before it closes. The
model of `waitDependencies` (`Resolve`, `WaitOne`, `Decide`,
`WaitDependencies`) follows the code. The corrected rule `ResolveIntended` is
modelled beside it, with failure propagation proved.

## Left out

- Locking: every `sync.RWMutex` in the four files is dropped, and each operation is taken as atomic.
- Kv.Add: called with the store itself it would deadlock in Go, because it takes the read lock while holding the write lock. A value model has no store identity, so in the model that case just returns the store's contents.
- Kv.Copy: in Go it shares every value that is not exactly `map[string]any` or `[]any`, such as a `[]string`, with the original. Such values are `Scalar` leaves of the type parameter, whose contents the model does not look at, and a value model cannot observe the sharing. Nil maps and nil slices are also not told apart from empty ones.
- Slice.Get: in Go it returns the backing slice itself, so later writes alias it. A `seq` cannot express that aliasing.
- Goroutines, channel rendezvous and blocking, and deadlock freedom are not modelled. The data race on `finished` (written without the lock at exec_context.go:94) is also out.
- The five-second heartbeat period, `time.Now` and `context.Context` cancellation are not modelled. A heartbeat is the `Timeout` observation, and the finish time is the `now` parameter.
- Executor.Decide: an unbounded wait is rendered by a finite list of observations. A dependency with no receive in its list is reported as `Stalled`, where Go blocks forever.
- Logging through `logr`, and the `deps` field, which only feeds the log, are not modelled.
- The work function `vertexFuntionRunFn` and `vertexContext` are opaque and enter only as the success result.
- How the orchestrator chains `waitDependencies` and `run` is not in these files and is not modelled.
- `GetGVKFromObject` and `GetGVKFromRuntimeRawExtension` are thin wrappers over the Kubernetes client object, `json.Unmarshal` and `schema.ParseGroupVersion`. That code is not part of this model.
- The `VertexResult` record is plain data with no behaviour.
- Go strings are byte strings, while the model uses `seq<char>`. The separators are ASCII, so the pieces agree, though for non-ASCII text a character position is not a byte offset. Invalid UTF-8 cannot be written as a `seq<char>` and is not modelled.
- Executor.Run: requires every dependent to have its own channel. In Go, two names sharing one channel make the second send panic on a closed channel. Nil channels are not modelled either: in Go a nil dependent channel blocks `run` forever at its send.
- Executor.AddDoneCh: the model replaces a re-registered name's channel, as Go does. That the earlier channel is then orphaned is proved (`ReRegisterOrphans`), but the resulting deadlock itself is outside a model without goroutines.
- GoStrings.SplitN: only `n > 0` is modelled, because the code calls it with `n = 3`. The functions take a one-character separator, which is all that `gvk.go` passes them. Go's general separators, including the empty one, are not modelled.
