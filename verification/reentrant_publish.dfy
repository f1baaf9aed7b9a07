/**
 `publish` copies the queue into an array before it calls anyone, so a
 listener that subscribes or unsubscribes while being called changes the bus
 for later publishes but not the set of calls of the current one. Listeners
 are opaque; what one of them does to the bus when called is given as an
 `Op`.
 */
module ReentrantPublish {
  import opened EventBus

  /** The state once every listener of `snapshot` has been called and has reacted, in order. */
  function React<Cb(==,!new), P>(b: Bus<Cb>, snapshot: seq<Cb>, payload: P, react: (Cb, P) -> Op<Cb>): (r: Bus<Cb>)
    requires Valid(b)
    ensures Valid(r) && Extends(b, r)
    ensures (forall i :: 0 <= i < |snapshot| ==> react(snapshot[i], payload).Skip?) ==> r == b
    decreases |snapshot|
  {
    if |snapshot| == 0 then b
    else
      var last := |snapshot| - 1;
      Apply(React(b, snapshot[..last], payload, react), react(snapshot[last], payload))
  }

  /**
   `publish` with listeners that act on the bus: the calls made are exactly
   those `Publish` computes from the state at the start, whatever the listeners
   do; the state afterwards is what their reactions made of it.
   */
  method PublishReentrant<Cb(==,!new), P>(b: Bus<Cb>, t: string, payload: P, react: (Cb, P) -> Op<Cb>)
    returns (outcome: Outcome<Cb, P>, after: Bus<Cb>)
    requires Valid(b)
    ensures outcome == Publish(b, t, payload)
    ensures Valid(after) && Extends(b, after)
    ensures outcome.NoSubscribers? ==> after == b
    ensures outcome.Delivered? ==> after == React(b, Listeners(b, t), payload, react)
  {
    if t !in b.registry {
      return NoSubscribers, b;
    }
    var snapshot := b.queues[b.registry[t]].listeners;
    var calls: seq<Invocation<Cb, P>> := [];
    after := b;
    var i := 0;
    while i < |snapshot|
      invariant 0 <= i <= |snapshot|
      invariant |calls| == i
      invariant forall k :: 0 <= k < i ==> calls[k] == Invocation(snapshot[k], payload)
      invariant after == React(b, snapshot[..i], payload, react)
    {
      calls := calls + [Invocation(snapshot[i], payload)];
      var prefix := snapshot[..i + 1];
      assert prefix[..i] == snapshot[..i] && prefix[i] == snapshot[i];
      after := Apply(after, react(snapshot[i], payload));
      assert after == React(b, prefix, payload, react);
      i := i + 1;
    }
    assert snapshot[..i] == snapshot;
    outcome := Delivered(calls);
    assert calls == Dispatch(snapshot, payload);
  }
}
