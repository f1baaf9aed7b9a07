/**
 Properties that relate several calls to the event bus: delivery exactly once
 and in subscription order, idempotence of subscribe and of a repeated
 unsubscribe, independence of types and of handles, and what a stale handle
 does after its type has been subscribed to again.
 */
module EventBusProperties {
  import opened OrderedSet
  import opened EventBus

  /** How many of `calls` go to `cb`. */
  function Invoked<Cb(==), P>(calls: seq<Invocation<Cb, P>>, cb: Cb): nat {
    if |calls| == 0 then 0
    else (if calls[0].callback == cb then 1 else 0) + Invoked(calls[1..], cb)
  }

  lemma {:induction false} DispatchInvokesEachOnce<Cb(!new), P>(snapshot: seq<Cb>, payload: P, cb: Cb)
    requires NoDup(snapshot)
    ensures Invoked(Dispatch(snapshot, payload), cb) == if cb in snapshot then 1 else 0
  {
    if |snapshot| > 0 {
      var rest := snapshot[1..];
      assert NoDup(rest) by {
        forall i, j | 0 <= i < j < |rest| ensures rest[i] != rest[j] {
          assert rest[i] == snapshot[i + 1] && rest[j] == snapshot[j + 1];
        }
      }
      assert snapshot[0] !in rest by {
        forall k | 0 <= k < |rest| ensures rest[k] != snapshot[0] {
          assert rest[k] == snapshot[k + 1];
        }
      }
      DispatchInvokesEachOnce(rest, payload, cb);
      var calls := Dispatch(snapshot, payload);
      assert calls[1..] == Dispatch(rest, payload);
      assert cb in snapshot <==> cb == snapshot[0] || cb in rest;
    }
  }

  /**
   A publish that finds a queue calls every listener of that queue exactly once,
   and nothing else at all.
   */
  lemma DeliveredExactlyOnce<Cb(!new), P>(b: Bus<Cb>, t: string, payload: P, cb: Cb)
    requires Valid(b) && t in b.registry
    ensures Publish(b, t, payload).Delivered?
    ensures Invoked(Publish(b, t, payload).calls, cb) == if cb in Listeners(b, t) then 1 else 0
  {
    DispatchInvokesEachOnce(Listeners(b, t), payload, cb);
  }

  /**
   The bus after running `ops` one after another, each as `Apply` carries it
   out.
   */
  function RunAll<Cb(==,!new)>(b: Bus<Cb>, ops: seq<Op<Cb>>): (r: Bus<Cb>)
    requires Valid(b)
    ensures Valid(r) && Extends(b, r)
    decreases |ops|
  {
    if |ops| == 0 then b else RunAll(Apply(b, ops[0]), ops[1..])
  }

  /** None of `ops` subscribes to `t`. */
  predicate NoSubscribeTo<Cb>(ops: seq<Op<Cb>>, t: string) {
    forall i :: 0 <= i < |ops| ==> !(ops[i].SubscribeTo? && ops[i].key == t)
  }

  /** A type stays unregistered through every operation that does not subscribe to it. */
  lemma {:induction false} UnregisteredStaysUnregistered<Cb(!new)>(b: Bus<Cb>, ops: seq<Op<Cb>>, t: string)
    requires Valid(b) && t !in b.registry && NoSubscribeTo(ops, t)
    ensures t !in RunAll(b, ops).registry
    decreases |ops|
  {
    if |ops| > 0 {
      var next := Apply(b, ops[0]);
      assert t !in next.registry;
      assert NoSubscribeTo(ops[1..], t) by {
        forall i | 0 <= i < |ops[1..]| ensures !(ops[1..][i].SubscribeTo? && ops[1..][i].key == t) {
          assert ops[1..][i] == ops[i + 1];
        }
      }
      UnregisteredStaysUnregistered(next, ops[1..], t);
    }
  }

  /**
   Whatever else has been subscribed or cancelled, a publish to a type that was
   never subscribed to reports that nobody listens, and calls nobody.
   */
  lemma NothingRegisteredNothingCalled<Cb(!new), P>(ops: seq<Op<Cb>>, t: string, payload: P)
    requires NoSubscribeTo(ops, t)
    ensures Publish(RunAll(Empty<Cb>(), ops), t, payload) == NoSubscribers
  {
    UnregisteredStaysUnregistered(Empty<Cb>(), ops, t);
  }

  /**
   Subscribing `first` and then a listener `second` new to `t` makes every
   publish to `t` call `first` before `second`.
   */
  lemma SubscriptionOrderIsCallOrder<Cb(!new), P>(b: Bus<Cb>, t: string, first: Cb, second: Cb, payload: P)
    requires Valid(b)
    requires second !in Listeners(b, t) && second != first
    ensures var after := Subscribe(Subscribe(b, t, first).bus, t, second).bus;
            var o := Publish(after, t, payload);
            && o.Delivered?
            && exists i, j :: 0 <= i < j < |o.calls| && o.calls[i] == Invocation(first, payload)
                                                   && o.calls[j] == Invocation(second, payload)
  {
  }

  /** A subscribe never changes the relative order of listeners already in any queue. */
  lemma SubscribeKeepsOrder<Cb(!new)>(b: Bus<Cb>, t: string, cb: Cb, q: QueueId, x: Cb, y: Cb)
    requires Valid(b) && q in b.queues
    requires Before(b.queues[q].listeners, x, y)
    ensures Before(Subscribe(b, t, cb).bus.queues[q].listeners, x, y)
  {
  }

  /**
   An unsubscribe keeps the relative order of every pair of listeners other than
   the one it removes, and creates no new ordering.
   */
  lemma UnsubscribeKeepsOrder<Cb(!new)>(b: Bus<Cb>, h: Handle<Cb>, q: QueueId, x: Cb, y: Cb)
    requires Valid(b) && ValidHandle(b, h) && q in b.queues
    requires x != h.listener && y != h.listener
    ensures Before(Unsubscribe(b, h).queues[q].listeners, x, y) <==> Before(b.queues[q].listeners, x, y)
  {
    if q == h.queue {
      var l := b.queues[q].listeners;
      DeleteKeepsOrder(l, h.listener, x, y);
      if h.listener in l {
        var i :| 0 <= i < |l| && l[i] == h.listener;
        DeleteAt(l, h.listener, i);
      }
    }
  }

  /**
   Subscribing the same listener to the same type twice in a row changes
   nothing the second time and returns the same handle, so the two handles
   share one queue entry.
   */
  lemma SubscribeIsIdempotent<Cb(!new)>(b: Bus<Cb>, t: string, cb: Cb)
    requires Valid(b)
    ensures Subscribe(Subscribe(b, t, cb).bus, t, cb) == Subscribe(b, t, cb)
  {
  }

  /**
   Two subscribes of the same listener to the same type, with any operations in
   between, return the same handle exactly when the type is still registered
   with the first subscribe's queue; then cancelling through the first handle
   removes the listener for both. Otherwise the first queue was pruned and the
   second subscribe got a different queue.
   */
  lemma SharedEntryCancelledByEither<Cb(!new)>(b: Bus<Cb>, t: string, cb: Cb, ops: seq<Op<Cb>>)
    requires Valid(b)
    ensures var first := Subscribe(b, t, cb);
            var between := RunAll(first.bus, ops);
            var second := Subscribe(between, t, cb);
            && (second.handle == first.handle <==> t in between.registry && between.registry[t] == first.handle.queue)
            && (second.handle == first.handle ==>
                  var after := Unsubscribe(second.bus, first.handle);
                  && cb !in after.queues[first.handle.queue].listeners
                  && cb !in Listeners(after, t))
  {
  }

  /**
   Cancelling one of two listeners of a type leaves the other one subscribed:
   the next publish still calls it, and no longer calls the cancelled one.
   */
  lemma HandlesAreIndependent<Cb(!new), P>(b: Bus<Cb>, t: string, one: Cb, other: Cb, payload: P)
    requires Valid(b) && one != other
    ensures var first := Subscribe(b, t, one);
            var second := Subscribe(first.bus, t, other);
            var o := Publish(Unsubscribe(second.bus, first.handle), t, payload);
            && o.Delivered?
            && Invoked(o.calls, other) == 1
            && Invoked(o.calls, one) == 0
  {
    var first := Subscribe(b, t, one);
    var second := Subscribe(first.bus, t, other);
    var after := Unsubscribe(second.bus, first.handle);
    assert other in after.queues[first.handle.queue].listeners;
    DeliveredExactlyOnce(after, t, payload, other);
    DeliveredExactlyOnce(after, t, payload, one);
  }

  /** Subscribing to one type changes nothing a publish to another type does. */
  lemma OtherTypesUnaffected<Cb(!new), P>(b: Bus<Cb>, u: string, cb: Cb, t: string, payload: P)
    requires Valid(b) && u != t
    ensures Publish(Subscribe(b, u, cb).bus, t, payload) == Publish(b, t, payload)
  {
  }

  /**
   Cancelling the last listener of a type removes the type from the registry,
   so a publish to it behaves as if it had never been subscribed to.
   */
  lemma LastUnsubscribeForgetsType<Cb(!new), P>(b: Bus<Cb>, h: Handle<Cb>, payload: P)
    requires Valid(b) && ValidHandle(b, h)
    requires b.queues[h.queue].listeners == [h.listener]
    ensures h.key !in Unsubscribe(b, h).registry
    ensures Publish(Unsubscribe(b, h), h.key, payload) == NoSubscribers
  {
  }

  /** A second call of the same handle's `unsubscribe`, straight after the first, changes nothing. */
  lemma UnsubscribeTwiceIsNoOp<Cb(!new)>(b: Bus<Cb>, h: Handle<Cb>)
    requires Valid(b) && ValidHandle(b, h)
    ensures ValidHandle(Unsubscribe(b, h), h)
    ensures Unsubscribe(Unsubscribe(b, h), h) == Unsubscribe(b, h)
  {
  }

  /**
   A handle with nothing left to do: its listener is gone from its queue, and
   if that queue is empty its type is unregistered.
   */
  predicate Settled<Cb(==)>(b: Bus<Cb>, h: Handle<Cb>) {
    && Valid(b) && ValidHandle(b, h)
    && h.listener !in b.queues[h.queue].listeners
    && (|b.queues[h.queue].listeners| == 0 ==> h.key !in b.registry)
  }

  /** An `unsubscribe` leaves its handle settled. */
  lemma UnsubscribeSettles<Cb(!new)>(b: Bus<Cb>, h: Handle<Cb>)
    requires Valid(b) && ValidHandle(b, h)
    ensures Settled(Unsubscribe(b, h), h)
  {
  }

  /** Any operation other than a subscribe to the handle's own type keeps it settled. */
  lemma ApplyKeepsSettled<Cb(!new)>(b: Bus<Cb>, h: Handle<Cb>, op: Op<Cb>)
    requires Settled(b, h)
    requires !(op.SubscribeTo? && op.key == h.key)
    ensures Settled(Apply(b, op), h)
  {
  }

  /** A settled handle stays settled through any operations that do not subscribe to its type. */
  lemma {:induction false} RunAllKeepsSettled<Cb(!new)>(b: Bus<Cb>, h: Handle<Cb>, ops: seq<Op<Cb>>)
    requires Settled(b, h) && NoSubscribeTo(ops, h.key)
    ensures Settled(RunAll(b, ops), h)
    decreases |ops|
  {
    if |ops| > 0 {
      ApplyKeepsSettled(b, h, ops[0]);
      assert NoSubscribeTo(ops[1..], h.key) by {
        forall i | 0 <= i < |ops[1..]| ensures !(ops[1..][i].SubscribeTo? && ops[1..][i].key == h.key) {
          assert ops[1..][i] == ops[i + 1];
        }
      }
      RunAllKeepsSettled(Apply(b, ops[0]), h, ops[1..]);
    }
  }

  /**
   Between two calls of the same handle's `unsubscribe`, any number of
   subscribes to other types and cancels through any handles may happen: as
   long as nothing subscribes to the handle's own type, the second call
   changes nothing.
   */
  lemma UnsubscribeAgainAfterOtherOperations<Cb(!new)>(b: Bus<Cb>, h: Handle<Cb>, ops: seq<Op<Cb>>)
    requires Valid(b) && ValidHandle(b, h) && NoSubscribeTo(ops, h.key)
    ensures var between := RunAll(Unsubscribe(b, h), ops);
            ValidHandle(between, h) && Unsubscribe(between, h) == between
  {
    UnsubscribeSettles(b, h);
    RunAllKeepsSettled(Unsubscribe(b, h), h, ops);
    UnsubscribeSettled(RunAll(Unsubscribe(b, h), ops), h);
  }

  /** A settled handle's `unsubscribe` changes nothing. */
  lemma UnsubscribeSettled<Cb(!new)>(b: Bus<Cb>, h: Handle<Cb>)
    requires Settled(b, h)
    ensures Unsubscribe(b, h) == b
  {
  }

  /**
   As written, a stale handle is not idempotent. Cancel a type's last listener
   through `h`, subscribe `cb` to that type again (a new queue), then call
   `h`'s `unsubscribe` once more: its old queue is still empty, so it deletes
   the type from the registry, although `cb` was never cancelled and is still
   in the new queue. A publish then finds nobody.
   */
  lemma StaleUnsubscribeDropsNewEntry<Cb(!new), P>(b: Bus<Cb>, h: Handle<Cb>, cb: Cb, payload: P)
    requires Valid(b) && ValidHandle(b, h)
    requires b.queues[h.queue].listeners == [h.listener]
    ensures var once := Unsubscribe(b, h);
            var again := Subscribe(once, h.key, cb);
            var stale := Unsubscribe(again.bus, h);
            && again.handle.queue != h.queue
            && Publish(again.bus, h.key, payload).Delivered?
            && cb in stale.queues[again.handle.queue].listeners
            && h.key !in stale.registry
            && Publish(stale, h.key, payload) == NoSubscribers
  {
  }

  /**
   The usage at the end of the source, with listener 0 for "meow" and 1 for
   "woof": each publish reaches its own type's listener only, and after both
   handles are cancelled both types report that nobody is listening.
   */
  lemma UsageScenario()
    ensures var meow := Subscribe(Empty<nat>(), "meow", 0);
            var woof := Subscribe(meow.bus, "woof", 1);
            var done := Unsubscribe(Unsubscribe(woof.bus, meow.handle), woof.handle);
            && Publish(woof.bus, "meow", "Lucas") == Delivered([Invocation(0, "Lucas")])
            && Publish(woof.bus, "meow", "Grover") == Delivered([Invocation(0, "Grover")])
            && Publish(woof.bus, "woof", "Sandy") == Delivered([Invocation(1, "Sandy")])
            && Publish(done, "meow", "Grover") == NoSubscribers
            && Publish(done, "woof", "Sandy") == NoSubscribers
  {
    assert "meow" != "woof" by {
      assert "meow"[0] != "woof"[0];
    }
    var meow := Subscribe(Empty<nat>(), "meow", 0);
    assert meow.handle.queue == 0 && meow.bus.nextId == 1;
    var woof := Subscribe(meow.bus, "woof", 1);
    assert woof.handle.queue == 1;
    assert Listeners(woof.bus, "meow") == [0];
    assert Listeners(woof.bus, "woof") == [1];
    PublishSingle(woof.bus, "meow", 0, "Lucas");
    PublishSingle(woof.bus, "meow", 0, "Grover");
    PublishSingle(woof.bus, "woof", 1, "Sandy");
    var half := Unsubscribe(woof.bus, meow.handle);
    assert half.queues[0].listeners == [];
    assert half.registry == woof.bus.registry - {"meow"};
    var done := Unsubscribe(half, woof.handle);
    assert done.queues[1].listeners == [];
    assert done.registry == half.registry - {"woof"};
  }

  /** A publish to a type whose only listener is `cb` makes exactly the one call to `cb`. */
  lemma PublishSingle<Cb(!new), P>(b: Bus<Cb>, t: string, cb: Cb, payload: P)
    requires Valid(b) && Listeners(b, t) == [cb]
    ensures Publish(b, t, payload) == Delivered([Invocation(cb, payload)])
  {
  }
}
