# ReactiveArray in Dafny

A model of `ReactiveArray<T>`. It is a mutable array that broadcasts one
`Operation<T>` value to its subscribers for every mutation. Subscribers can
rebuild the array, count its elements, or keep a transformed copy of it,
using only those operations.

The model follows the behaviour the repository's test suites assert, in
the newer eight-variant API:

- `Initiate`, `Append`, `AppendContentsOf`, `Insert`, `Replace`,
  `RemoveElement`, `ReplaceAll` and `RemoveAll`.

The older API is covered as follows:

- Its `extend` / `Extend` is `AppendContentsOf`.
- Its `Box` payload wrapper is left out.
- Its replay of a snapshot as one `Append` per element is modelled by
  `OperationLog.LegacyReplay` and the lemmas about it.

Modules:

- `Options`: `Option<T>`, standing for Swift's `T?`.
- `Operations`:
  - the `Operation` datatype;
  - its observers `Map` (`map`), `Value` (`value`) and `ArrayValue` (`arrayValue`);
  - the algebra of `map`: what it keeps, what it transforms, identity and composition.
- `OperationLog`: what an operation means for the contents, and the
  subscriber views derived from the operation stream:
  - `Apply` and `ApplyAll`;
  - the replay stream `Producer`, which sends `Initiate(snapshot)` and then the live operations;
  - `ObservableCount`, a fold of `CountStep` over the replay stream;
  - the mapped stream `MapOps` that a mirror receives.
- `ReactiveArrays`:
  - `class ReactiveArray`: the contents as a `seq` field, and a ghost log `emitted` of everything broadcast. Its invariant `Valid()` says that replaying the log on the initial elements gives the current contents; no mutation happens without its operation.
  - `class Mirror`: `source.mirror(transform)`. It keeps the target equal to the mapped source, and the target's log equal to the mapped source log since the mirror subscribed.
- `Scenarios`: concrete sessions from the tests, proved from the method contracts of the array and the mirror and the stream functions (`CountScan`, `Producer`, `Operation.Map`).

Notes:

- Equality of operations is Dafny's structural datatype equality. This is
  what the tests of `==` on `Operation` check.
- The `endIndex` test "when the array is empty" checks `startIndex`, not
  `endIndex` (Example/Tests/ReactiveArraySpec.swift:1027-1035).
  `ReactiveArray.EndIndex` states `endIndex == count` for every array,
  including the empty one.

## Model

| member | source | states |
|---|---|---|
| Operations.MapSeq | Example/Tests/ReactiveArraySpec.swift:440-446 | the `map` of an element sequence keeps its length, and element `i` of the result is `f` of element `i` |
| Operations.Operation.Value | Example/Tests/OperationSpec.swift:126-227 | `value` is present exactly for `Append`, `Insert` and `Replace`, and then it is the carried element |
| Operations.Operation.ArrayValue | Example/Tests/OperationSpec.swift:229-335 | `arrayValue` is present exactly for `Initiate`, `AppendContentsOf` and `ReplaceAll`, and then it is the carried sequence |
| Operations.MapKeepsShape | Example/Tests/OperationSpec.swift:37-109 | `map` keeps the variant, every index, the `keepCapacity` flag and payload lengths, so a mapped operation is valid for exactly the same array lengths |
| Operations.MapTransformsPayload | Example/Tests/OperationSpec.swift:20-124 | the `value` and `arrayValue` of a mapped operation are the original ones transformed by `f` |
| Operations.MapIndexOnlyIsIdentity | Example/Tests/OperationSpec.swift:96-109 | `map` on `RemoveElement` (and `RemoveAll`) returns an equal operation |
| Operations.MapIdentity | Example/Tests/OperationSpec.swift:20-124 | a law of the modelled `map` that the `map` tests do not assert themselves: mapping by the identity function returns the same operation, for every variant |
| Operations.MapCompose | Example/Tests/OperationSpec.swift:20-124 | a law of the modelled `map` that the `map` tests do not assert themselves: mapping by `f` then `g` equals mapping by their composition |
| Operations.ObserversExclusive | Example/Tests/OperationSpec.swift:126-335 | no operation has both a `value` and an `arrayValue`; exactly `RemoveElement` and `RemoveAll` have neither |
| OperationLog.Producer | Example/Tests/ReactiveArraySpec.swift:569-583 | the replay stream starts with `Initiate` of the current snapshot and then forwards exactly the live operations |
| OperationLog.SubscribersConverge | Example/Tests/ReactiveArraySpec.swift:560-821 | a subscriber that joins at any point ends with the array's current contents. A live (`signal`) subscriber starts from the snapshot at joining time; a replay (`producer`) subscriber can start from any contents at all |
| OperationLog.LegacyReplay | ReactiveArrayTests/ReactiveArraySpec.swift:450-471 | the older replay sends one `Append` per stored element, in order |
| OperationLog.LegacyReplayAppends | ReactiveArrayTests/ReactiveArraySpec.swift:450-471 | replaying those `Append`s onto any contents appends the whole snapshot |
| OperationLog.LegacyProducerRebuilds | ReactiveArrayTests/ReactiveArraySpec.swift:448-528 | a subscriber to the older producer that starts empty rebuilds the snapshot and then follows the live operations; for an empty array, the first operation it receives is the first live one |
| OperationLog.CountStepMatchesApply | Example/Tests/ReactiveArraySpec.swift:840-962 | for a valid operation, the count step (+1 append/insert, +n appendContentsOf, 0 replace, -1 remove, n replaceAll, 0 removeAll) gives the length after the operation |
| OperationLog.CountScan | Example/Tests/ReactiveArraySpec.swift:823-838 | the count stream emits exactly one count per operation |
| OperationLog.CountScanTracksLength | Example/Tests/ReactiveArraySpec.swift:840-962 | the k-th count of the fold is the length of the contents after the first k+1 operations |
| OperationLog.ObservableCountTracksLength | ReactiveArrayTests/ReactiveArraySpec.swift:583-647 | `observableCount` first delivers the current count, then after each live operation the length at that point, and last the current length |
| OperationLog.MapOps | Example/Tests/ReactiveArraySpec.swift:448-557 | the mirror's stream has one operation per source operation, and each is the `map` of its source operation |
| OperationLog.ApplyMapCommutes | Example/Tests/ReactiveArraySpec.swift:448-557 | applying the mapped operation to the mapped contents gives the mapped result of applying the operation, and the mapped operation is still in range |
| OperationLog.MirrorTracksSource | Example/Tests/ReactiveArraySpec.swift:435-557 | a copy that starts from the mapped snapshot and applies the mapped stream always holds the mapped source contents |
| OperationLog.MapOpsSnoc | Example/Tests/ReactiveArraySpec.swift:448-557 | one more source operation adds exactly its mapped operation to the end of the mirror's stream |
| ReactiveArrays.ReactiveArray.constructor | Example/Tests/ReactiveArraySpec.swift:143-146 | a new array holds the given elements (none by default) and has broadcast nothing |
| ReactiveArrays.ReactiveArray.Append | Example/Tests/ReactiveArraySpec.swift:148-176 | `v` is added at the end, and exactly `Append(v)` is broadcast; the log invariant is kept |
| ReactiveArrays.ReactiveArray.AppendContentsOf | Example/Tests/ReactiveArraySpec.swift:178-215 | the old contents stay as a prefix, the suffix is `values`, and exactly `AppendContentsOf(values)` is broadcast |
| ReactiveArrays.ReactiveArray.Insert | Example/Tests/ReactiveArraySpec.swift:217-243 | `v` is inserted at `atIndex` with the elements around it kept in order, and exactly `Insert(v, atIndex)` is broadcast |
| ReactiveArrays.ReactiveArray.Replace | Example/Tests/ReactiveArraySpec.swift:245-290 | the element at `atIndex` becomes `v`, the previous element is returned, and exactly `Replace(v, atIndex)` is broadcast |
| ReactiveArrays.ReactiveArray.SetAt | Example/Tests/ReactiveArraySpec.swift:408-433 | subscript set has the same effect and broadcast as `replace` |
| ReactiveArrays.ReactiveArray.RemoveAtIndex | Example/Tests/ReactiveArraySpec.swift:292-319 | the element at `atIndex` is removed and returned, the others keep their order, and exactly `RemoveElement(atIndex)` is broadcast |
| ReactiveArrays.ReactiveArray.ReplaceAll | Example/Tests/ReactiveArraySpec.swift:321-343 | the contents become `values`, and exactly `ReplaceAll(values)` is broadcast |
| ReactiveArrays.ReactiveArray.RemoveAll | Example/Tests/ReactiveArraySpec.swift:345-399 | the array becomes empty, and exactly `RemoveAll(keepCapacity)` is broadcast with the same flag |
| ReactiveArrays.ReactiveArray.ApplyOperation | Example/Tests/ReactiveArraySpec.swift:448-557 | a live operation received from a source (any variant but `Initiate`, which is never broadcast live) is applied by the mutator of its variant and re-broadcast unchanged |
| ReactiveArrays.ReactiveArray.Count | Example/Tests/ReactiveArraySpec.swift:985-991 | `count` is the number of elements |
| ReactiveArrays.ReactiveArray.CountIsLastObservedCount | Example/Tests/ReactiveArraySpec.swift:823-962 | `count` equals the last value `observableCount` has delivered to a subscriber that subscribed when the array was created |
| ReactiveArrays.ReactiveArray.IsEmpty | Example/Tests/ReactiveArraySpec.swift:965-983 | `isEmpty` holds exactly when `count` is 0 |
| ReactiveArrays.ReactiveArray.At | Example/Tests/ReactiveArraySpec.swift:401-406 | subscript get returns the stored element at the index |
| ReactiveArrays.ReactiveArray.StartIndex | Example/Tests/ReactiveArraySpec.swift:993-1015 | `startIndex` is 0, whether or not the array is empty |
| ReactiveArrays.ReactiveArray.EndIndex | Example/Tests/ReactiveArraySpec.swift:1017-1039 | `endIndex` is `startIndex + count` |
| ReactiveArrays.ReactiveArray.First | Example/Tests/ReactiveArraySpec.swift:1041-1053 | `first` is absent exactly when the array is empty, and otherwise it is the element at `startIndex` |
| ReactiveArrays.ReactiveArray.Last | Example/Tests/ReactiveArraySpec.swift:1055-1067 | `last` is absent exactly when the array is empty, and otherwise it is the element at `endIndex - 1` |
| ReactiveArrays.Mirror.constructor | Example/Tests/ReactiveArraySpec.swift:435-446 | the mirror is a new array holding the mapped source elements, and it has broadcast nothing |
| ReactiveArrays.Mirror.Perform | Example/Tests/ReactiveArraySpec.swift:448-557 | a source mutation broadcasting `op` makes the mirror apply and broadcast `op.map(transform)`; the target stays the mapped source, and neither array's initial elements change |
| Scenarios.ArraySession | Example/Tests/ReactiveArraySpec.swift:823-962 | a chained session of mutations that the tests exercise one at a time: on [1, 2, 3, 4], `append(5)`, `removeAtIndex(1)` (returns 2) and `replaceAll([9, 9])` leave [9, 9], broadcast the three operations, and give the `observableCount` values [4, 5, 4, 2] |
| Scenarios.EmptyArrayAccessors | Example/Tests/ReactiveArraySpec.swift:965-1067 | `ReactiveArray<Int>()` is empty, has no `first` or `last`, and its `startIndex` and `endIndex` are 0 |
| Scenarios.RemoveSecond | ReactiveArrayTests/ReactiveArraySpec.swift:242-269 | `removeAtIndex(1)` on [1, 2, 3, 4] returns 2, leaves [1, 3, 4] and broadcasts `RemoveElement(1)` |
| Scenarios.MirrorStartsMapped | ReactiveArrayTests/ReactiveArraySpec.swift:385-395 | `mirror { $0 + 10 }` of [1, 2, 3, 4] is [11, 12, 13, 14] |
| Scenarios.MirrorForwardsMapped | ReactiveArrayTests/ReactiveArraySpec.swift:397-445 | a subscript set, an append and a removal on the source reach the mirror as `Replace(15, 1)`, `Append(15)` and `RemoveElement(1)` |
| Scenarios.DoublingReplaceAll | ReactiveArrayTests/OperationSpec.swift:68-80 | `ReplaceAll([1, 2, 3, 4]).map { $0 * 2 }` equals `ReplaceAll([2, 4, 6, 8])` |
| Scenarios.RemoveAllCounts | ReactiveArrayTests/ReactiveArraySpec.swift:295-311 | after `removeAll`, `observableCount` delivers [count before, 0] for either flag |

## Left out

- The implementation files of `ReactiveArray` and `Operation` are not part of this model. It follows the behaviour asserted by the test suites of both API generations.
- `Signal` / `SignalProducer` plumbing (`skip`, `take`, `collect`, starting and observing, disposal) is left out. It belongs to the reactive library. The model treats a subscriber as the ghost log `emitted` plus the pure stream functions `Producer`, `ObservableCount` and `MapOps`.
- The Quick/Nimble harness and the asynchronous `waitUntil` / `waitForOperation` helpers are test machinery, not behaviour.
- The `Box` payload wrapper of the older API is a compiler workaround. Payloads are plain values.
- The older `Operation` type (with `Extend` and without `Initiate`) is not modelled as a separate datatype. `Extend` corresponds to `AppendContentsOf`. Its `value` and `arrayValue` tests agree with `Operations.Operation.Value` and `Operations.Operation.ArrayValue` on the variants they cover.
- Storage capacity under `keepCapacity` is not observable. Only the flag's value in the broadcast `RemoveAll` is modelled.
- ReactiveArrays.ReactiveArray.Insert: an index out of range is a precondition rather than a runtime error, since the out-of-bounds test is commented out. The same holds for `Replace`, `SetAt`, `RemoveAtIndex`, `At` and `ApplyOperation`.
- ReactiveArrays.Mirror.Perform: the mirror follows the source only through this method, which stands for a source mutation delivered synchronously to the mirror's subscription. A mutation made directly on `source` is not linked to the mirror in the model. The model tracks one mirror per source mutation: with two mirrors of one source, `Perform` on one leaves the other's `Valid()` unestablished, although the program forwards every mutation to all of its mirrors.
- ReactiveArrays.ReactiveArray.ApplyOperation: `Initiate` is excluded. It only opens a replay subscription and is never broadcast live, so neither a mirror nor this method receives it.
- OperationLog.ObservableCount: the seed of the fold is never observed, because the replay stream begins with `Initiate`, which resets the count. The model seeds it with 0.
- Object lifetime, threading and the delivery context of events are left out. The model is sequential.
- Swift `Int` bounds on counts and indices are not modelled. They are unbounded naturals.
