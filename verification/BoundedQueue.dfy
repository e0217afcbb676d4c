/** The drop-on-full queue, and the batch path of the events endpoint run on its own. */
module BoundedQueue {
  import opened Strings

  // The queue

  class Queue<T> {
    const capacity: nat
    var c: seq<T>
    var dropped: nat

    ghost predicate Valid()
      reads this
    {
      capacity >= 1 && |c| <= capacity
    }

    constructor (requested: int)
      ensures Valid() && c == [] && dropped == 0 && capacity == (if requested < 1 then 1 else requested)
    {
      capacity := if requested < 1 then 1 else requested;
      c := [];
      dropped := 0;
    }

    /** Send, or count a drop when the channel is full. */
    method Enqueue(r: T) returns (ok: bool)
      requires Valid()
      modifies this
      ensures Valid()
      ensures ok == (|old(c)| < capacity)
      ensures ok ==> c == old(c) + [r] && dropped == old(dropped)
      ensures !ok ==> c == old(c) && dropped == old(dropped) + 1
    {
      if |c| < capacity {
        c := c + [r];
        return true;
      }
      dropped := dropped + 1;
      return false;
    }

    /** A worker takes the oldest record. */
    method Receive() returns (r: T)
      requires Valid() && c != []
      modifies this`c
      ensures Valid() && [r] + c == old(c)
    {
      r := c[0];
      c := c[1..];
    }
  }

  // The batch path of the events endpoint

  datatype Outcome =
    | EmptyBatch
    | BatchTooLarge
    | Rejected(index: nat)                  // the first invalid item
    | Done(accepted: nat, dropped: nat)

  /** Validate everything first, then enqueue. `build` stands for parseAndBuild; a
      `maxBatch` of zero or less disables the size limit. This is the handler running alone;
      module Pipeline interleaves its steps with everybody else's. */
  method PostBatch<I, T>(queue: Queue<T>, items: seq<I>, maxBatch: int, build: I -> Option<T>) returns (r: Outcome)
    requires queue.Valid()
    modifies queue
    ensures queue.Valid()
    ensures r.EmptyBatch? <==> items == []
    ensures r.BatchTooLarge? <==> 0 < maxBatch < |items|
    ensures r.Rejected? <==> !(0 < maxBatch < |items|) && exists i :: 0 <= i < |items| && build(items[i]).None?
    ensures !r.Done? ==> queue.c == old(queue.c) && queue.dropped == old(queue.dropped)
    ensures r.Rejected? ==>
      && r.index < |items| && build(items[r.index]).None?
      && forall i :: 0 <= i < r.index ==> build(items[i]).Some?
    ensures r.Done? ==>
      && r.accepted + r.dropped == |items|
      && queue.dropped == old(queue.dropped) + r.dropped
      && |queue.c| == |old(queue.c)| + r.accepted
      && old(queue.c) <= queue.c
      && forall k :: 0 <= k < r.accepted ==> Some(queue.c[|old(queue.c)| + k]) == build(items[k])
  {
    if |items| == 0 {
      return EmptyBatch;
    }
    if maxBatch > 0 && |items| > maxBatch {
      return BatchTooLarge;
    }
    var records: seq<T> := [];
    var i := 0;
    while i < |items|
      invariant 0 <= i <= |items| && |records| == i
      invariant forall k :: 0 <= k < i ==> build(items[k]) == Some(records[k])
      invariant queue.c == old(queue.c) && queue.dropped == old(queue.dropped) && queue.Valid()
    {
      var rec := build(items[i]);
      if rec.None? {
        return Rejected(i);
      }
      records := records + [rec.value];
      i := i + 1;
    }
    var accepted, dropped := 0, 0;
    i := 0;
    while i < |records|
      invariant 0 <= i <= |records| && queue.Valid()
      invariant accepted + dropped == i && queue.dropped == old(queue.dropped) + dropped
      invariant dropped > 0 ==> |queue.c| == queue.capacity
      invariant queue.c == old(queue.c) + records[..accepted]
    {
      var ok := queue.Enqueue(records[i]);
      if ok {
        assert dropped == 0 && accepted == i;
        accepted := accepted + 1;
      } else {
        dropped := dropped + 1;
      }
      i := i + 1;
    }
    r := Done(accepted, dropped);
  }
}
