/**
 A corrected `unsubscribe`. As written, the closure deletes the registry entry
 of its type whenever its own queue is empty, even when that entry is a newer
 queue; a stale handle then silently unsubscribes listeners it never owned.
 The corrected closure prunes the entry only when it is still the captured
 queue. With it the bus keeps the stronger invariant that a type is registered
 exactly when it has a listener, and a stale handle is harmless.
 */
module GuardedUnsubscribe {
  import opened OrderedSet
  import opened EventBus

  /** Every queue that still holds a listener is the one registered for its type. */
  predicate LiveRegistered<Cb>(b: Bus<Cb>) {
    forall q :: q in b.queues && |b.queues[q].listeners| > 0 ==>
      b.queues[q].key in b.registry && b.registry[b.queues[q].key] == q
  }

  /** `unsubscribe` that prunes the registry entry only if it is the captured queue. */
  function UnsubscribeGuarded<Cb(==,!new)>(b: Bus<Cb>, h: Handle<Cb>): (r: Bus<Cb>)
    requires Valid(b) && ValidHandle(b, h)
    ensures Valid(r) && Extends(b, r)
    ensures r.queues == Unsubscribe(b, h).queues
    ensures LiveRegistered(b) ==> LiveRegistered(r)
    ensures forall u :: u != h.key ==> (u in r.registry <==> u in b.registry)
    ensures forall u :: u in r.registry ==> u in b.registry && r.registry[u] == b.registry[u]
    ensures h.key in r.registry <==>
              h.key in b.registry && (b.registry[h.key] != h.queue || |r.queues[h.queue].listeners| > 0)
  {
    var remaining := Delete(b.queues[h.queue].listeners, h.listener);
    var queues := b.queues[h.queue := Queue(h.key, remaining)];
    var prune := |remaining| == 0 && h.key in b.registry && b.registry[h.key] == h.queue;
    Bus(if prune then b.registry - {h.key} else b.registry, queues, b.nextId)
  }

  lemma EmptyIsLiveRegistered<Cb(!new)>()
    ensures LiveRegistered(Empty<Cb>())
  {
  }

  /** Subscribe keeps the stronger invariant too. */
  lemma SubscribeKeepsLiveRegistered<Cb(!new)>(b: Bus<Cb>, t: string, cb: Cb)
    requires Valid(b) && LiveRegistered(b)
    ensures LiveRegistered(Subscribe(b, t, cb).bus)
  {
  }

  /**
   Once its listener is gone from its queue, a handle's corrected
   `unsubscribe` changes nothing, however the bus changed in between.
   */
  lemma GuardedStaleIsNoOp<Cb(!new)>(b: Bus<Cb>, h: Handle<Cb>)
    requires Valid(b) && ValidHandle(b, h)
    requires h.listener !in b.queues[h.queue].listeners
    ensures UnsubscribeGuarded(b, h) == b
  {
  }

  /**
   The scenario that loses a listener as written: with the corrected closure the
   listener subscribed after the prune is still called.
   */
  lemma GuardedStaleKeepsNewEntry<Cb(!new), P>(b: Bus<Cb>, h: Handle<Cb>, cb: Cb, payload: P)
    requires Valid(b) && ValidHandle(b, h) && LiveRegistered(b)
    requires b.queues[h.queue].listeners == [h.listener]
    ensures var once := UnsubscribeGuarded(b, h);
            var again := Subscribe(once, h.key, cb);
            var stale := UnsubscribeGuarded(again.bus, h);
            && stale == again.bus
            && Publish(stale, h.key, payload) == Delivered([Invocation(cb, payload)])
  {
    assert b.registry[h.key] == h.queue;
    var once := UnsubscribeGuarded(b, h);
    assert once.queues[h.queue].listeners == [];
    assert h.key !in once.registry;
    var again := Subscribe(once, h.key, cb);
    assert again.bus.queues[h.queue] == once.queues[h.queue];
    GuardedStaleIsNoOp(again.bus, h);
    var o := Publish(again.bus, h.key, payload);
    assert |o.calls| == 1 && o.calls[0] == Invocation(cb, payload);
  }

  /**
   As written, the same scenario breaks the stronger invariant: it holds before
   the stale call and fails after it, because the newer queue still has a
   listener but is no longer registered.
   */
  lemma AsWrittenBreaksLiveRegistered<Cb(!new), P>(b: Bus<Cb>, h: Handle<Cb>, cb: Cb, payload: P)
    requires Valid(b) && ValidHandle(b, h) && LiveRegistered(b)
    requires b.queues[h.queue].listeners == [h.listener]
    ensures var once := Unsubscribe(b, h);
            var again := Subscribe(once, h.key, cb);
            && LiveRegistered(once)
            && LiveRegistered(again.bus)
            && !LiveRegistered(Unsubscribe(again.bus, h))
  {
  }
}
