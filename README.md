# Aggregate — a verified model

`Aggregate` is an Objective-C-exposed Swift class that lets several objects
act as one. It holds an ordered list of *targets*, and the first target has
the highest priority. It claims every protocol its targets' classes adopt and
hands each message to the first target that responds to it. This project
models that class in Dafny and proves what it promises:

- the lazily rebuilt protocol list stays coherent with the targets;
- the protocol list is exactly the union of the targets' protocols, with no
  duplicates;
- the three priority-ordered scans (`conforms(to:)`, `responds(to:)`,
  `forwardingTarget(for:)`) give the answers they should, and those answers
  agree with each other.

Files:

- `runtime.dfy`, module `ObjCRuntime`: the part of the Objective-C runtime
  the class consults.
  - Objects, protocols and selectors are abstract types compared by identity.
  - The runtime's answers are the fields of a `Runtime` value:
    - `declaredProtocols`: what `class_copyProtocolList` gives for the
      object's class. `None` stands for its nil result.
    - `conforms` and `responds`: the target's own `conforms(to:)` and
      `responds(to:)`.
    - `superConforms` and `superResponds`: what the `NSObject` superclass
      answers.
    - `instancesRespond`: `NSObject.instancesRespond(to:)`.
  - Every proof holds for every runtime that stays fixed while the aggregate lives.
- `aggregate.dfy`, module `Aggregation`: the specification functions and the
  class `Aggregate`.
  - Specification functions: `ProtocolUnion`, `FirstResponder`, `Conforms`,
    `Responds`, `ForwardingOf`.
  - Fields of `Aggregate`:
    - `targets`
    - the dirty flag `needsUpdateConformingProtocols`
    - the cache `conformingProtocolsCache`, which is `_conformingProtocols`
      in the source
  - `Valid()` is the object invariant: when the flag is clear, the cache lists
    the union of the current targets' protocols, each once.
  - The methods are the setters with their `didSet` observers, the
    `conformingProtocols` getter and the three scans.
- `properties.dfy`, module `AggregateProperties`: lemmas about the
  specification functions.
- `scenarios.dfy`, module `AggregateScenarios`: the repository's three test
  cases in `AggregateTests/AggregateTests.swift`. They are stated for every
  runtime in which `Dog` and `Duck` behave as declared. The module also has
  two client methods for cache coherence.

In the source, `conforms(to:)` asks each target through the runtime directly.
It does not consult the cached protocol list. The model does the same: the
cache and `conforms(to:)` rest on two separate runtime relations.
`ListedProtocolsAreConformedTo` proves one direction of agreement: when the
runtime never lists a protocol it then denies, the aggregate conforms to every
protocol in its list. The converse does not hold, because `conforms(to:)` also
sees inherited protocols that are not listed.

## Model

| member | source | states |
|---|---|---|
| Aggregation.Aggregate.constructor | Aggregate/Aggregate.swift:55-57 | `init(of:)` stores the given targets unchanged. The cache starts stale and empty, and the invariant holds. |
| Aggregation.Aggregate.Empty | Aggregate/Aggregate.swift:44-46 | `init()` builds an aggregate with no targets and a stale cache. |
| Aggregation.Aggregate.SetTargets | Aggregate/Aggregate.swift:20-22 | Assigning `targets` stores exactly the given sequence, never reordered. It marks the cache stale and leaves the cached value in place. |
| Aggregation.Aggregate.SetConformingProtocolsCache | Aggregate/Aggregate.swift:12-14 | Assigning `_conformingProtocols` stores the value and clears the dirty flag. Targets are untouched. This is the only place the flag is cleared. Given a recomputed list, as its one private caller passes, it keeps the coherence invariant. |
| Aggregation.InsertProtocols | Aggregate/Aggregate.swift:34-38 | The inner loop over one protocol list adds every listed protocol under its identity. An entry already present keeps its value, so the first occurrence wins. |
| Aggregation.DictionaryValues | Aggregate/Aggregate.swift:40 | `Array(dict.values)` lists each dictionary entry exactly once, in an unspecified order. |
| Aggregation.Aggregate.CollectConformingProtocols | Aggregate/Aggregate.swift:29-40 | The `reduce(into:)` recomputation yields a duplicate-free list whose elements are exactly the union of the targets' listed protocols. |
| Aggregation.Aggregate.ConformingProtocols | Aggregate/Aggregate.swift:27-42 | The getter returns the union of the current targets' protocols without duplicates. Afterwards the flag is clear and the cache equals the returned list. If the cache was fresh, the old cached list is returned unchanged. The targets do not change. |
| Aggregation.Aggregate.ConformsTo | Aggregate/Aggregate.swift:59-64 | The result is true iff some target conforms to the protocol or the superclass does. |
| Aggregation.Aggregate.RespondsTo | Aggregate/Aggregate.swift:66-71 | The result is true iff some target responds to the selector, or the superclass does, or `NSObject` instances do. |
| Aggregation.Aggregate.ForwardingTarget | Aggregate/Aggregate.swift:73-78 | The result is the target at the first responding index. If no target responds, it defers to the superclass. |
| Aggregation.FirstResponder | Aggregate/Aggregate.swift:73-76 | The chosen index responds, and no earlier index does. There is no index exactly when no target responds. |
| AggregateProperties.UnionMembership | Aggregate/Aggregate.swift:29-39 | A protocol is in the union iff some current target's class lists it. |
| AggregateProperties.UnionAppend | Aggregate/Aggregate.swift:29-39 | The union of a concatenation of target lists is the union of the parts. |
| AggregateProperties.UnionDependsOnlyOnElements | Aggregate/Aggregate.swift:29-39 | The union depends only on which objects are targets. Target order and repeated targets do not change it. |
| AggregateProperties.UnavailableListContributesNothing | Aggregate/Aggregate.swift:31-33 | Removing a target without a protocol list, from any position, leaves the union unchanged. |
| AggregateProperties.SingleTargetUnion | Aggregate/Aggregate.swift:29-39 | An aggregate of one target lists exactly that target's protocols. |
| AggregateProperties.NoDuplicatesLength | Aggregate/Aggregate.swift:36-40 | A duplicate-free protocol list has exactly one entry per distinct protocol. |
| AggregateProperties.ListedProtocolsAreConformedTo | Aggregate/Aggregate.swift:59-64 | Suppose the runtime never lists a protocol that the object then denies. Then the aggregate conforms to every protocol in its protocol list. |
| AggregateProperties.ForwardingIsFirstResponder | Aggregate/Aggregate.swift:73-78 | If any target responds, a target is chosen, at an index no later than any responding target, and the message is forwarded to it. |
| AggregateProperties.NoResponderDefersToSuper | Aggregate/Aggregate.swift:73-78 | Forwarding defers to the superclass iff no target responds. |
| AggregateProperties.FirstResponderAppend | Aggregate/Aggregate.swift:73-76 | Appending lower-priority targets never changes a choice already made. Otherwise the choice is the first responder among the appended targets, shifted by their offset. |
| AggregateProperties.PrependedResponderWins | Aggregate/Aggregate.swift:16-20 | A responding target placed first is always chosen, whatever the later targets implement. |
| AggregateProperties.SingleTargetForwarding | Aggregate/Aggregate.swift:73-78 | With one target, a message is forwarded to it exactly when it responds. |
| AggregateProperties.ForwardedImpliesResponds | Aggregate/Aggregate.swift:66-78 | A forwarded message goes to one of the aggregate's own targets, that target responds, and so the aggregate responds. |
| AggregateProperties.RespondsFalseExactly | Aggregate/Aggregate.swift:66-78 | The aggregate denies a selector iff forwarding defers to the superclass and neither baseline check accepts it. |
| AggregateProperties.EmptyAggregateIsBaseline | Aggregate/Aggregate.swift:59-78 | An aggregate with no targets lists no protocol, conforms and responds only where the baselines do, and forwards nothing. |
| AggregateScenarios.EmptyAggregateScenario | AggregateTests/AggregateTests.swift:16-22 | An empty aggregate conforms to neither `Animal` nor `EggLayer` but does conform to `NSObjectProtocol`. |
| AggregateScenarios.OneTargetScenario | AggregateTests/AggregateTests.swift:24-39 | `[dog]` conforms to `Animal` and `NSObjectProtocol` but not `EggLayer`. It responds to `sound` but not `layEgg`, and `sound` goes to the dog. |
| AggregateScenarios.TwoTargetScenario | AggregateTests/AggregateTests.swift:41-62 | `[dog, duck]` conforms to all three protocols and responds to both selectors. `sound` goes to the dog and `layEgg` to the duck. Its protocol list is `Animal` and `EggLayer`, each once. |
| AggregateScenarios.ReadTwice | Aggregate/Aggregate.swift:27-28 | Two reads of `conformingProtocols` with no assignment in between return the same list, and the cache stays fresh. |
| AggregateScenarios.RetargetThenRead | Aggregate/Aggregate.swift:20-42 | After `targets` is replaced, the protocol list reflects the new targets exactly. |

## Left out

- The Objective-C runtime calls are not modelled. These are `object_getClass`, `class_copyProtocolList`, `protocol_getName`, `NSObject.instancesRespond(to:)`, and the targets' and superclass's `conforms(to:)` and `responds(to:)`. They are foreign code, so they appear only as the fields of `Runtime`. A nil `object_getClass` result is folded into `declaredProtocols` returning `None`.
- Message invocation, the `forwardInvocation` machinery and dynamic casting (`agg as? Animal`) are not modelled. The model covers which target is chosen, not the call itself or its result.
- Aggregation.Aggregate.ForwardingTarget: when no target responds, the model returns `DeferToSuper` instead of the value `super.forwardingTarget(for:)` would give. For `NSObject` that value is nil.
- The `description` string is not modelled. It is debug output.
- The `UnsafeMutablePointer` allocation for the protocol count, which is never freed, is not modelled. It is memory plumbing. The count is taken to be the length of the returned list.
- The order of `dict.values` is not modelled. It is unspecified, so the model picks values in an arbitrary order, and the contracts treat the list as a set without duplicates.
- `ObjectIdentifier(p)` is modelled as `p` itself. Protocol equality in the model is identity, so the dictionary's key and value coincide.
- `targets` is a public stored property in the source. In the model, every assignment goes through `SetTargets`, which is where the `didSet` observer lives.
- A nil selector is not modelled. The source's `Selector!` parameters admit one; the runtime answers `false` for it.
- Concurrency is not modelled. The source has none.
- The runtime catalog is assumed not to change while an aggregate lives: it is the aggregate's constant `rt`. Cache coherence (`Valid()`) is proved only under that assumption. The source asks `class_copyProtocolList` again only on a stale read. So the cached list goes out of date, with the flag clear, in three cases, none of them modelled: a protocol added to a target's class after a read (`class_addProtocol`), a target's class changed (`object_setClass`), or a target that is itself an aggregate whose targets change.
