/**
 The event bus of `src/plainJsEventBus.js`: a registry from event type to a
 callback queue, with `subscribe`, the `unsubscribe` closure it hands back, and
 `publish`.

 Each `new Map()` made by `subscribe` is an object with its own identity, and
 the returned handle closes over that object, not over a later lookup of the
 registry. The model therefore gives every queue an identifier. The state keeps
 every queue ever created, not only the registered ones, because a handle keeps
 its queue alive after the registry has forgotten it.
 */
module EventBus {
  import opened OrderedSet

  /** Identity of one callback queue object. */
  type QueueId = nat

  /** A callback queue: the event type it was created for, and its listeners in insertion order. */
  datatype Queue<Cb> = Queue(key: string, listeners: seq<Cb>)

  /**
   The bus state. `registry` is the module-level `subscriptions` object; `queues`
   holds every queue object created so far; `nextId` is the next unused identity.
   */
  datatype Bus<Cb> = Bus(registry: map<string, QueueId>, queues: map<QueueId, Queue<Cb>>, nextId: QueueId)

  /** What the `unsubscribe` closure captures: the event type, the queue object and the listener. */
  datatype Handle<Cb> = Handle(key: string, queue: QueueId, listener: Cb)

  /** The result of `subscribe`: the new state and the handle. */
  datatype Subscription<Cb> = Subscription(bus: Bus<Cb>, handle: Handle<Cb>)

  /** One call `callback(payload)` made by `publish`. */
  datatype Invocation<Cb, P> = Invocation(callback: Cb, payload: P)

  /**
   What `publish` does: either it finds no queue and prints its notice, or it
   calls the listeners of the queue it found, in this order.
   */
  datatype Outcome<Cb, P> = NoSubscribers | Delivered(calls: seq<Invocation<Cb, P>>)

  /**
   The representation invariant every reachable state satisfies: queue
   identities are below `nextId`, no queue holds a listener twice, and every
   registered type names an existing, non-empty queue created for that type.
   */
  predicate Valid<Cb(==)>(b: Bus<Cb>) {
    && (forall q :: q in b.queues ==> q < b.nextId && NoDup(b.queues[q].listeners))
    && (forall t :: t in b.registry ==>
          && b.registry[t] in b.queues
          && b.queues[b.registry[t]].key == t
          && |b.queues[b.registry[t]].listeners| > 0)
  }

  /** A handle that `subscribe` could have returned in state `b`. */
  predicate ValidHandle<Cb>(b: Bus<Cb>, h: Handle<Cb>) {
    h.queue in b.queues && b.queues[h.queue].key == h.key
  }

  /** `after` keeps every queue of `b`, with its type, and hands out no identity twice. */
  predicate Extends<Cb>(b: Bus<Cb>, after: Bus<Cb>) {
    && b.nextId <= after.nextId
    && (forall q :: q in b.queues ==> q in after.queues && after.queues[q].key == b.queues[q].key)
  }

  /** The listeners registered for `t`, in insertion order. */
  function Listeners<Cb(==)>(b: Bus<Cb>, t: string): (r: seq<Cb>)
    requires Valid(b)
    ensures t in b.registry <==> |r| > 0
    ensures NoDup(r)
  {
    if t in b.registry then b.queues[b.registry[t]].listeners else []
  }

  /** The registry before anything is subscribed. */
  function Empty<Cb(==)>(): (r: Bus<Cb>)
    ensures Valid(r)
    ensures forall t :: t !in r.registry
    ensures forall q :: q !in r.queues
  {
    Bus(map[], map[], 0)
  }

  /**
   `subscribe(type, listener)`: reuse the registered queue of `t` or create a
   new one, `set` the listener in it, store the queue under `t`, and return a
   handle for that queue.
   */
  function Subscribe<Cb(==,!new)>(b: Bus<Cb>, t: string, cb: Cb): (r: Subscription<Cb>)
    requires Valid(b)
    ensures Valid(r.bus)
    ensures Extends(b, r.bus)
    ensures r.handle.key == t && r.handle.listener == cb
    ensures t in r.bus.registry && r.bus.registry[t] == r.handle.queue
    ensures ValidHandle(r.bus, r.handle)
    // an existing queue is reused and keeps its order; `cb` is added last unless already there
    ensures t in b.registry ==> r.handle.queue == b.registry[t]
    ensures Listeners(r.bus, t) == Insert(Listeners(b, t), cb)
    ensures cb in Listeners(b, t) ==> r.bus == b
    // otherwise the queue is a new object holding only `cb`
    ensures t !in b.registry ==> r.handle.queue !in b.queues && Listeners(r.bus, t) == [cb]
    // nothing about any other type or queue changes
    ensures r.bus.registry.Keys == b.registry.Keys + {t}
    ensures forall u :: u in b.registry && u != t ==> r.bus.registry[u] == b.registry[u]
    ensures r.bus.queues.Keys == b.queues.Keys + {r.handle.queue}
    ensures forall q :: q in b.queues && q != r.handle.queue ==> r.bus.queues[q] == b.queues[q]
  {
    if t in b.registry then
      var q := b.registry[t];
      var listeners := b.queues[q].listeners;
      assert cb in listeners ==> b.queues[q := Queue(t, Insert(listeners, cb))] == b.queues;
      Subscription(Bus(b.registry, b.queues[q := Queue(t, Insert(listeners, cb))], b.nextId), Handle(t, q, cb))
    else
      var q := b.nextId;
      Subscription(Bus(b.registry[t := q], b.queues[q := Queue(t, Insert([], cb))], q + 1), Handle(t, q, cb))
  }

  /**
   The `unsubscribe` closure: delete the listener from the captured queue, then,
   if that queue is empty, delete whatever the registry holds under the
   captured type. The deletion goes by type, so it can drop a newer queue that
   was registered for the same type after the captured one was pruned.
   */
  function Unsubscribe<Cb(==,!new)>(b: Bus<Cb>, h: Handle<Cb>): (r: Bus<Cb>)
    requires Valid(b) && ValidHandle(b, h)
    ensures Valid(r)
    ensures Extends(b, r) && r.nextId == b.nextId
    ensures r.queues.Keys == b.queues.Keys
    // exactly the captured listener leaves the captured queue; the rest keep their order
    ensures forall x :: x in r.queues[h.queue].listeners <==> x in b.queues[h.queue].listeners && x != h.listener
    ensures forall i :: 0 <= i < |b.queues[h.queue].listeners| && b.queues[h.queue].listeners[i] == h.listener ==>
              r.queues[h.queue].listeners == b.queues[h.queue].listeners[..i] + b.queues[h.queue].listeners[i + 1..]
    ensures h.listener !in b.queues[h.queue].listeners ==> r.queues[h.queue] == b.queues[h.queue]
    // every other queue is untouched
    ensures forall q :: q in b.queues && q != h.queue ==> r.queues[q] == b.queues[q]
    // the registry loses the captured type exactly when the captured queue is left empty
    ensures |r.queues[h.queue].listeners| == 0 ==> r.registry == b.registry - {h.key}
    ensures |r.queues[h.queue].listeners| > 0 ==> r.registry == b.registry
  {
    var remaining := Delete(b.queues[h.queue].listeners, h.listener);
    forall i | 0 <= i < |b.queues[h.queue].listeners| && b.queues[h.queue].listeners[i] == h.listener
      ensures remaining == b.queues[h.queue].listeners[..i] + b.queues[h.queue].listeners[i + 1..]
    {
      DeleteAt(b.queues[h.queue].listeners, h.listener, i);
    }
    var queues := b.queues[h.queue := Queue(h.key, remaining)];
    var registry := if |remaining| == 0 then b.registry - {h.key} else b.registry;
    Bus(registry, queues, b.nextId)
  }

  /** The calls `forEach` makes over a snapshot: one per entry, in order, each with the payload. */
  function Dispatch<Cb, P>(snapshot: seq<Cb>, payload: P): (r: seq<Invocation<Cb, P>>)
    ensures |r| == |snapshot|
    ensures forall i :: 0 <= i < |r| ==> r[i].callback == snapshot[i] && r[i].payload == payload
  {
    if |snapshot| == 0 then []
    else [Invocation(snapshot[0], payload)] + Dispatch(snapshot[1..], payload)
  }

  /**
   `publish(type, payload)`: a type with no registry entry yields the notice;
   otherwise the queue is copied into an array first and every listener of the
   copy is called with the payload, in insertion order.
   */
  function Publish<Cb(==), P>(b: Bus<Cb>, t: string, payload: P): (r: Outcome<Cb, P>)
    requires Valid(b)
    ensures r.NoSubscribers? <==> t !in b.registry
    ensures r.Delivered? ==> |r.calls| == |Listeners(b, t)| > 0
    ensures r.Delivered? ==> forall i :: 0 <= i < |r.calls| ==>
              r.calls[i] == Invocation(Listeners(b, t)[i], payload)
  {
    if t in b.registry then
      var snapshot := b.queues[b.registry[t]].listeners;
      Delivered(Dispatch(snapshot, payload))
    else
      NoSubscribers
  }

  /**
   One operation a client performs on the bus: nothing, a `subscribe`, or a
   call of a handle's `unsubscribe`.
   */
  datatype Op<Cb> = Skip | SubscribeTo(key: string, listener: Cb) | Cancel(handle: Handle<Cb>)

  /**
   Carry out one operation. A handle can only come from `subscribe`, so it
   always names an existing queue of its own type; a `Cancel` of any other value
   has no counterpart in the source and changes nothing.
   */
  function Apply<Cb(==,!new)>(b: Bus<Cb>, op: Op<Cb>): (r: Bus<Cb>)
    requires Valid(b)
    ensures Valid(r) && Extends(b, r)
    ensures op.Skip? ==> r == b
    ensures op.SubscribeTo? ==> op.listener in Listeners(r, op.key)
    ensures op.Cancel? && ValidHandle(b, op.handle) ==> op.handle.listener !in r.queues[op.handle.queue].listeners
  {
    match op
    case Skip => b
    case SubscribeTo(t, cb) => Subscribe(b, t, cb).bus
    case Cancel(h) => if ValidHandle(b, h) then Unsubscribe(b, h) else b
  }
}
