# Event bus model

A Dafny model of `src/plainJsEventBus.js`, an in-process publish/subscribe
event bus. A module-level registry (`subscriptions`) maps each event type to a
callback queue. The queue is a JavaScript `Map` whose keys are the listeners,
kept in insertion order. There are three operations:

- `subscribe(type, listener)` reuses or creates the type's queue and sets the
  listener in it. It returns a handle whose `unsubscribe` closure captures that
  queue object and the listener.
- `unsubscribe()` deletes the listener from the captured queue. If that queue
  is then empty, it deletes the registry entry of the type.
- `publish(type, payload)` copies the type's queue and calls every listener of
  the copy with the payload, in insertion order. If the type has no entry, it
  prints a "no events" notice instead.

Modelling choices:

- Listeners are opaque values of a type parameter `Cb`. Event types are strings.
- A queue is a duplicate-free sequence (`OrderedSet`). `Map.set` on a present
  key keeps its position, and `Map.delete` keeps the order of the rest.
- Every queue object has an identity (`QueueId`). The state
  `Bus(registry, queues, nextId)` keeps every queue ever created, because a
  handle keeps its queue alive after the registry has dropped it.
- A handle is the triple (type, queue identity, listener). This is what the
  closure captures.
- `Valid` is the invariant that every reachable state satisfies. It holds for
  `Empty()`, and `Subscribe` and `Unsubscribe` preserve it. Under it, no queue
  has a duplicate and every registered queue is non-empty.
- `Publish` returns `NoSubscribers` in place of the console notice, or
  `Delivered(calls)` with the list of calls it makes.
- `ReentrantPublish` models listeners that subscribe or unsubscribe while they
  are being called. Each listener's effect is given as an `Op` (nothing, a
  subscribe or a cancel), the same operations `Apply` carries out on the bus.

A repeated `unsubscribe` on a handle is expected to be a no-op. In the code a
repeated call can drop a newer entry only when its captured queue has been
emptied and the type has been subscribed to again, which creates a new queue
(see Findings). With no subscribe to the type in between it is always a no-op
(`UnsubscribeAgainAfterOtherOperations`). The model follows the code. `Unsubscribe` models the closure as
written, and so does every member that uses it, including `ReentrantPublish`.
The corrected closure, `GuardedUnsubscribe.UnsubscribeGuarded`, is modelled
beside it with its properties proved.

## Model

| member | source | states |
|---|---|---|
| OrderedSet.Insert | src/plainJsEventBus.js:30 | `Map.set` on a listener queue: the result holds the old elements plus the new one. The old elements keep their positions as a prefix. A new listener goes last, a present one changes nothing, and no duplicate is ever created |
| OrderedSet.Delete | src/plainJsEventBus.js:40 | `Map.delete`: the result holds exactly the old elements other than the deleted one. A missing listener leaves the queue unchanged, and a duplicate-free queue stays duplicate-free |
| OrderedSet.DeleteAt | src/plainJsEventBus.js:40 | in a duplicate-free queue, deleting removes exactly the one position that holds the listener, and the length drops by one |
| OrderedSet.InsertKeepsOrder | src/plainJsEventBus.js:36 | `set` never reorders the listeners already present, and a new listener comes after every one of them |
| OrderedSet.DeleteKeepsOrder | src/plainJsEventBus.js:40 | `delete` keeps the relative order of every other pair of listeners, in both directions: no order is lost and none is created |
| EventBus.Listeners | src/plainJsEventBus.js:53 | the listeners registered for a type are non-empty exactly when the type has a registry entry, and they are duplicate-free |
| EventBus.Empty | src/plainJsEventBus.js:5 | the initial registry has no type and no queue, and it satisfies the invariant |
| EventBus.Subscribe | src/plainJsEventBus.js:28-33 | afterwards the type is registered with the queue of the returned handle, and that queue holds the listener. An existing queue is reused and keeps its order, with the listener added last unless it was already there; re-subscribing a present listener changes nothing. An unregistered type gets a new queue object holding only the listener. No other type's entry or queue changes, existing handles stay valid, and the invariant is preserved |
| EventBus.Unsubscribe | src/plainJsEventBus.js:39-42 | exactly the captured listener leaves the captured queue. The others keep their order (the result is the queue with that one position cut out), and every other queue is unchanged. The type's registry entry is deleted exactly when the captured queue is left empty, whatever queue is registered for the type at that moment. The invariant is preserved |
| EventBus.Dispatch | src/plainJsEventBus.js:55-58 | the `forEach` over the copied queue makes one call per entry, in order, each with the payload |
| EventBus.Publish | src/plainJsEventBus.js:52-62 | the outcome is "no subscribers" exactly when the type has no registry entry. Otherwise the i-th call goes to the i-th listener of the type's queue with the payload, and the number of calls is the (non-zero) number of listeners |
| EventBus.Apply | src/plainJsEventBus.js:29-42 | one client operation (nothing, a subscribe, or a cancel) preserves the invariant and keeps every queue: a subscribe leaves its listener registered, a cancel removes the handle's listener from its queue, and doing nothing changes nothing |
| EventBusProperties.DispatchInvokesEachOnce | src/plainJsEventBus.js:55-58 | over a duplicate-free copy, each listener is called once if it is in the copy and never otherwise |
| EventBusProperties.DeliveredExactlyOnce | src/plainJsEventBus.js:53-58 | publishing to a registered type calls each of its listeners exactly once and calls no other listener |
| EventBusProperties.UnregisteredStaysUnregistered | src/plainJsEventBus.js:29-41 | an unregistered type stays unregistered through any sequence of subscribes and cancels, as long as none of them subscribes to that type |
| EventBusProperties.NothingRegisteredNothingCalled | src/plainJsEventBus.js:53-61 | after any sequence of subscribes and cancels from the empty bus, a publish to a type none of them subscribed to gives the "no subscribers" outcome and calls nobody |
| EventBusProperties.SubscriptionOrderIsCallOrder | src/plainJsEventBus.js:36 | if `first` is subscribed and then a listener new to the type, the next publish calls `first` before the new one |
| EventBusProperties.SubscribeKeepsOrder | src/plainJsEventBus.js:29-31 | a subscribe keeps the relative order of the listeners in every queue |
| EventBusProperties.UnsubscribeKeepsOrder | src/plainJsEventBus.js:40 | an unsubscribe keeps the relative order of every pair of remaining listeners in every queue, in both directions |
| EventBusProperties.SubscribeIsIdempotent | src/plainJsEventBus.js:29-31 | subscribing the same listener to the same type twice in a row gives the same state and the same handle as subscribing once |
| EventBusProperties.SharedEntryCancelledByEither | src/plainJsEventBus.js:29-41 | two subscribes of the same listener to the same type, with any operations in between, return the same handle exactly when the type is still registered with the first one's queue; then unsubscribing through either removes the listener for both. Once that queue has been pruned, the second subscribe gets a new queue and a different handle |
| EventBusProperties.HandlesAreIndependent | src/plainJsEventBus.js:39-42 | after two different listeners subscribe to a type and the first is cancelled, the next publish still calls the second exactly once and never calls the first |
| EventBusProperties.OtherTypesUnaffected | src/plainJsEventBus.js:29-31 | a subscribe to one type does not change the outcome of a publish to any other type |
| EventBusProperties.LastUnsubscribeForgetsType | src/plainJsEventBus.js:41 | cancelling a type's only listener removes the type from the registry, so a publish to it gives "no subscribers" |
| EventBusProperties.UnsubscribeTwiceIsNoOp | src/plainJsEventBus.js:39-42 | a second `unsubscribe` on the same handle, straight after the first, leaves the state unchanged |
| EventBusProperties.UnsubscribeSettles | src/plainJsEventBus.js:39-42 | after an `unsubscribe` its handle is settled: its listener is gone from its queue, and its type is unregistered if the queue is empty |
| EventBusProperties.ApplyKeepsSettled | src/plainJsEventBus.js:29-42 | a settled handle stays settled through a subscribe to another type and through a cancel via any handle |
| EventBusProperties.RunAllKeepsSettled | src/plainJsEventBus.js:29-42 | a settled handle stays settled through any sequence of operations that does not subscribe to its type |
| EventBusProperties.UnsubscribeSettled | src/plainJsEventBus.js:39-42 | the `unsubscribe` of a settled handle leaves the state unchanged |
| EventBusProperties.UnsubscribeAgainAfterOtherOperations | src/plainJsEventBus.js:39-42 | between two calls of the same handle's `unsubscribe`, any number of subscribes to other types and cancels through any handles may happen; if nothing subscribes to the handle's own type, the second call leaves the state unchanged |
| EventBusProperties.StaleUnsubscribeDropsNewEntry | src/plainJsEventBus.js:41 | as written, a stale handle deletes a newer entry. The handle cancels the type's last listener; the type is subscribed again, with a new queue; the handle's `unsubscribe` is called again. That call deletes the type from the registry although the new listener is still in the new queue, so a publish then gives "no subscribers" |
| EventBusProperties.UsageScenario | src/plainJsEventBus.js:66-75 | the usage at the end of the file: each publish reaches only its own type's listener, with the given name, and after both handles are cancelled both types give "no subscribers" |
| ReentrantPublish.React | src/plainJsEventBus.js:58 | the listeners' reactions, applied one after another, preserve the invariant and keep every queue, and listeners that do nothing leave the state unchanged |
| ReentrantPublish.PublishReentrant | src/plainJsEventBus.js:52-62 | the calls a publish makes are exactly those the state at its start determines, whatever the listeners subscribe or cancel while being called. The state afterwards is the result of their reactions in call order, and with no registry entry it is unchanged |
| GuardedUnsubscribe.UnsubscribeGuarded | src/plainJsEventBus.js:39-42 | the corrected closure changes the queues exactly as the original does, but keeps the type's entry unless it is the captured queue and that queue is now empty. It keeps the invariant that every non-empty queue is the one registered for its type |
| GuardedUnsubscribe.EmptyIsLiveRegistered | src/plainJsEventBus.js:5 | the initial registry satisfies the stronger invariant |
| GuardedUnsubscribe.SubscribeKeepsLiveRegistered | src/plainJsEventBus.js:29-31 | subscribe preserves the stronger invariant |
| GuardedUnsubscribe.GuardedStaleIsNoOp | src/plainJsEventBus.js:39-42 | once a handle's listener is gone from its queue, the corrected `unsubscribe` changes nothing, whatever happened in between |
| GuardedUnsubscribe.GuardedStaleKeepsNewEntry | src/plainJsEventBus.js:39-42 | in the stale-handle scenario the corrected closure leaves the new listener registered, and the next publish calls it |
| GuardedUnsubscribe.AsWrittenBreaksLiveRegistered | src/plainJsEventBus.js:41 | as written, the stale-handle scenario breaks the stronger invariant: it holds after the re-subscribe and fails after the stale call |

## Left out

- The singleton constructor (src/plainJsEventBus.js:14-17) is left out. It only makes every `new EventBus()` return the same object, and the registry is module-level anyway, so the model has one state.
- The `console.log` notice (src/plainJsEventBus.js:60) is the `NoSubscribers` outcome, not output.
- Running the listeners is left out; they are opaque. `Publish` returns the calls it would make. A listener that throws aborts the rest of the dispatch in the source, and this is not modelled.
- EventBus.Apply: a client's or a listener's effect on the bus is at most one subscribe or one cancel per call, which is weaker than arbitrary code. A `Cancel` of a handle that names no queue of its type is a no-op; `subscribe` cannot produce such a handle.
- JavaScript plain-object key semantics are left out. The source would coerce a non-string type to a string and could collide with inherited keys such as `toString`. The model uses string keys with no inherited entries.
- The value stored by `Map.set(listener, listener)` is left out. Only the keys are used when the queue is spread.
- The usage demo's console output (src/plainJsEventBus.js:65-75) is left out. Its sequence of calls is replayed in `UsageScenario`.

## Findings

| source | as written | input that shows it | evidently intended | confidence | as-written member | corrected member |
|---|---|---|---|---|---|---|
| src/plainJsEventBus.js:41 | the closure deletes `subscriptions[type]` whenever its captured queue is empty, whatever queue is registered for the type now | `h = subscribe('meow', f)`; `h.unsubscribe()`; `subscribe('meow', g)`; `h.unsubscribe()`; `publish('meow', x)` prints the "no events" notice and `g`, never cancelled, is not called | remove the entry only while it is still the captured queue, so a repeated `unsubscribe` is a no-op and a type stays registered while it has listeners | medium; not executed | EventBusProperties.StaleUnsubscribeDropsNewEntry | GuardedUnsubscribe.UnsubscribeGuarded |
