/** What becomes of a batch when its handler interleaves with everybody else. */
module Batches {
  import opened Strings
  import opened Pipeline

  lemma {:induction false} ItemsKept(states: seq<State>, steps: seq<Step>, j: nat, i: nat, id: nat)
    requires IsRun(states, steps) && j <= i < |states| && id in states[j].batches
    ensures id in states[i].batches && states[i].batches[id].items == states[j].batches[id].items
    ensures states[i].maxBatch == states[j].maxBatch
    decreases i - j
  {
    hide Init, Apply, Enabled;
    if j < i {
      ItemsKept(states, steps, j, i - 1, id);
      StepKeepsItems(states[i - 1], steps[i - 1], id);
    }
  }

  lemma StepKeepsItems(s: State, step: Step, id: nat)
    requires Enabled(s, step) && id in s.batches
    ensures id in Apply(s, step).batches && Apply(s, step).batches[id].items == s.batches[id].items
    ensures Apply(s, step).maxBatch == s.maxBatch
  {}

  /** An empty, oversized or partly invalid batch never calls Enqueue. */
  lemma RefusedBatchOffersNothing(states: seq<State>, steps: seq<Step>, i: nat, id: nat)
    requires IsRun(states, steps) && i < |states| && id in states[i].batches
    requires !ValidBatch(states[i].batches[id].items, states[i].maxBatch)
    ensures forall j :: 0 <= j < i ==> steps[j] != OfferItem(id)
    ensures ItemsOf(states[i].accepted, id) == {}
  {
    hide Apply, Init, RecordsOk, CountersOk, ValidBatch;
    forall j | 0 <= j < i
      ensures steps[j] != OfferItem(id)
    {
      if steps[j] == OfferItem(id) {
        RunInv(states, steps, j);
        assert Enabled(states[j], steps[j]);
        assert ProgressOk(states[j].batches[id], states[j].maxBatch);
        ItemsKept(states, steps, j, i, id);
        assert false;
      }
    }
    RunInv(states, steps, i);
    assert ProgressOk(states[i].batches[id], states[i].maxBatch);
    forall t | t in states[i].accepted
      ensures t !in ItemsOf(states[i].accepted, id)
    {
      assert Known(states[i].batches, t, states[i].accepted[t]);
    }
  }

  /** The accepted records that came from a batch. */
  function ItemsOf(a: Accepted, id: nat): set<int> {
    set t | t in a && a[t].FromBatch? && a[t].batch == id
  }

  function Values(ts: seq<Option<int>>): set<int> {
    set k | 0 <= k < |ts| && ts[k].Some? :: ts[k].value
  }

  predicate Increasing(ts: seq<Option<int>>) {
    forall j, k :: 0 <= j < k < |ts| && ts[j].Some? && ts[k].Some? ==> ts[j].value < ts[k].value
  }

  lemma {:induction false} ValuesCard(ts: seq<Option<int>>)
    requires Increasing(ts)
    ensures |Values(ts)| == CountSome(ts)
  {
    if ts == [] {
      assert Values(ts) == {};
    } else {
      var n := |ts| - 1;
      ValuesCard(ts[..n]);
      assert Increasing(ts[..n]);
      ValuesLast(ts);
    }
  }

  lemma ValuesLast(ts: seq<Option<int>>)
    requires Increasing(ts) && ts != []
    ensures var n := |ts| - 1;
      && Values(ts) == Values(ts[..n]) + (if ts[n].Some? then {ts[n].value} else {})
      && (ts[n].Some? ==> ts[n].value !in Values(ts[..n]))
  {
    var n := |ts| - 1;
    forall v | v in Values(ts)
      ensures v in Values(ts[..n]) + (if ts[n].Some? then {ts[n].value} else {})
    {
      var k :| 0 <= k < |ts| && ts[k].Some? && ts[k].value == v;
      if k < n { assert ts[..n][k].value == v; }
    }
    forall v | v in Values(ts[..n])
      ensures v in Values(ts) && (ts[n].Some? ==> v != ts[n].value)
    {
      var k :| 0 <= k < n && ts[..n][k].Some? && ts[..n][k].value == v;
      assert ts[k].value == v;
    }
  }

  /** At every moment of every run a batch's counters are the number of its records in the
      pipeline and the number of its dropped items; when it answers they add up to its size. */
  lemma BatchCounts(states: seq<State>, steps: seq<Step>, i: nat, id: nat)
    requires IsRun(states, steps) && i < |states| && id in states[i].batches
    ensures var s, b := states[i], states[i].batches[id];
      && b.accepted == |ItemsOf(s.accepted, id)|
      && b.accepted + b.dropped == |b.tickets| <= |b.items|
      && (forall k, t :: 0 <= k < |b.tickets| ==> (b.tickets[k] == Some(t) <==> IsItem(s.accepted, t, id, k)))
      && (b.progress == Answered ==> b.accepted + b.dropped == |b.items| && ValidBatch(b.items, s.maxBatch))
  {
    hide RecordsOk, CountersOk, IsRun, CountSome, ValidBatch;
    RunInv(states, steps, i);
    var s, b := states[i], states[i].batches[id];
    assert ProgressOk(b, s.maxBatch) && TicketsOk(b, id, s.accepted);
    ValuesCard(b.tickets);
    forall k, t | 0 <= k < |b.tickets|
      ensures b.tickets[k] == Some(t) <==> IsItem(s.accepted, t, id, k)
    {
      if IsItem(s.accepted, t, id, k) { assert Known(s.batches, t, s.accepted[t]); }
    }
    forall t: int
      ensures t in ItemsOf(s.accepted, id) <==> t in Values(b.tickets)
    {
      if t in ItemsOf(s.accepted, id) {
        assert Known(s.batches, t, s.accepted[t]);
        assert b.tickets[s.accepted[t].item] == Some(t);
      }
      if t in Values(b.tickets) {
        var k :| 0 <= k < |b.tickets| && b.tickets[k].Some? && b.tickets[k].value == t;
        assert IsItem(s.accepted, t, id, k);
      }
    }
    assert ItemsOf(s.accepted, id) == Values(b.tickets);
  }

  /** The accepted items of a batch pass through the queue in batch order, whatever else
      is queued between them. */
  lemma BatchInOrder(states: seq<State>, steps: seq<Step>, i: nat, id: nat, p: nat, q: nat, j: nat, k: nat)
    requires IsRun(states, steps) && i < |states|
    requires p < q < |states[i].taken + states[i].queue|
    requires IsItem(states[i].accepted, (states[i].taken + states[i].queue)[p], id, j)
    requires IsItem(states[i].accepted, (states[i].taken + states[i].queue)[q], id, k)
    ensures j < k
  {
    hide RecordsOk, CountersOk, IsRun, CountSome, ValidBatch;
    var s := states[i];
    var order := s.taken + s.queue;
    FirstInFirstOut(states, steps, i);
    RunInv(states, steps, i);
    assert Known(s.batches, order[p], s.accepted[order[p]]) && Known(s.batches, order[q], s.accepted[order[q]]);
    var ts := s.batches[id].tickets;
    assert TicketsOk(s.batches[id], id, s.accepted);
    assert ts[j] == Some(order[p]) && ts[k] == Some(order[q]) && order[p] < order[q];
  }

  // When the accepted items are the first ones

  function Tickets(s: State, id: nat): seq<Option<int>> {
    if id in s.batches then s.batches[id].tickets else []
  }

  predicate Full(s: State) { |s.queue| >= s.capacity }

  /** What an offer made now gets. */
  function NextTicket(s: State): Option<int> { if Full(s) then None else Some(s.offered) }

  /** What one step adds to the history of a batch. */
  lemma StepTickets(s: State, step: Step, id: nat)
    requires Enabled(s, step)
    ensures Tickets(Apply(s, step), id) == if step == OfferItem(id) then Tickets(s, id) + [NextTicket(s)] else Tickets(s, id)
  {}

  /** No accepted item comes after a dropped one. */
  predicate DropsLast(ts: seq<Option<int>>) {
    forall j, k :: 0 <= j < k < |ts| && ts[j].None? ==> ts[k].None?
  }

  predicate HasDrop(ts: seq<Option<int>>) { exists k :: 0 <= k < |ts| && ts[k].None? }

  /** Step `d` is the batch's, and finds the queue full. */
  predicate DropsAt(states: seq<State>, steps: seq<Step>, d: int, id: nat) {
    0 <= d < |steps| && d < |states| && steps[d] == OfferItem(id) && Full(states[d])
  }

  /** Once an offer of the batch met a full queue, all its later ones do. */
  predicate StaysFull(states: seq<State>, steps: seq<Step>, i: nat, id: nat)
    requires i <= |steps| <= |states|
  {
    forall d, j :: 0 <= d < j < i && DropsAt(states, steps, d, id) && steps[j] == OfferItem(id) ==> Full(states[j])
  }

  lemma DropsLastSnoc(ts: seq<Option<int>>, t: Option<int>)
    ensures DropsLast(ts + [t]) <==> DropsLast(ts) && (HasDrop(ts) ==> t.None?)
    ensures HasDrop(ts + [t]) <==> HasDrop(ts) || t.None?
  {
    var ts' := ts + [t];
    assert ts'[|ts|] == t && forall k :: 0 <= k < |ts| ==> ts'[k] == ts[k];
  }

  /** A dropped item is an offer that met a full queue. */
  lemma {:induction false} DropsAreFullOffers(states: seq<State>, steps: seq<Step>, i: nat, id: nat)
    requires IsRun(states, steps) && i < |states|
    ensures HasDrop(Tickets(states[i], id)) <==> exists d :: 0 <= d < i && DropsAt(states, steps, d, id)
  {
    hide Apply, Enabled, Full, Tickets;
    if i == 0 {
      NoBatchesYet(states[0], id);
    } else {
      DropsAreFullOffers(states, steps, i - 1, id);
      StepTickets(states[i - 1], steps[i - 1], id);
      DropsLastSnoc(Tickets(states[i - 1], id), NextTicket(states[i - 1]));
      assert DropsAt(states, steps, i - 1, id) <==> steps[i - 1] == OfferItem(id) && NextTicket(states[i - 1]).None?;
    }
  }

  lemma NoBatchesYet(s: State, id: nat)
    requires Init(s)
    ensures Tickets(s, id) == []
  {}

  /** In every run, no accepted item of a batch comes after a dropped one exactly when each
      offer after its first drop again meets a full queue. */
  lemma {:induction false} BatchPrefixIff(states: seq<State>, steps: seq<Step>, i: nat, id: nat)
    requires IsRun(states, steps) && i < |states|
    ensures DropsLast(Tickets(states[i], id)) <==> StaysFull(states, steps, i, id)
  {
    hide Apply, Enabled, Full, Tickets, DropsLast, HasDrop, DropsAt;
    if i == 0 {
      NoBatchesYet(states[0], id);
      NothingDropped();
    } else {
      BatchPrefixIff(states, steps, i - 1, id);
      DropsAreFullOffers(states, steps, i - 1, id);
      StepTickets(states[i - 1], steps[i - 1], id);
      DropsLastSnoc(Tickets(states[i - 1], id), NextTicket(states[i - 1]));
      StaysFullSnoc(states, steps, i, id);
    }
  }

  lemma NothingDropped()
    ensures DropsLast([]) && !HasDrop([])
  {}

  lemma StaysFullSnoc(states: seq<State>, steps: seq<Step>, i: nat, id: nat)
    requires 0 < i <= |steps| <= |states|
    ensures StaysFull(states, steps, i, id) <==>
      && StaysFull(states, steps, i - 1, id)
      && (steps[i - 1] == OfferItem(id) && (exists d :: 0 <= d < i - 1 && DropsAt(states, steps, d, id)) ==> Full(states[i - 1]))
  {
    hide Full, DropsAt;
  }

  /** Then they are the first `accepted` items of the batch. */
  lemma {:induction false} DropsLastIsPrefix(ts: seq<Option<int>>)
    ensures CountSome(ts) <= |ts|
    ensures DropsLast(ts) <==> forall k :: 0 <= k < |ts| ==> (ts[k].Some? <==> k < CountSome(ts))
  {
    if ts != [] {
      var n := |ts| - 1;
      var c := CountSome(ts[..n]);
      DropsLastIsPrefix(ts[..n]);
      assert ts == ts[..n] + [ts[n]];
      DropsLastSnoc(ts[..n], ts[n]);
      assert forall k :: 0 <= k < n ==> ts[..n][k] == ts[k];
      if ts[n].Some? && c < n { assert DropsLast(ts[..n]) ==> ts[..n][c].None?; }
    }
  }

  /** Only a worker makes room: without one the queue stays full. */
  lemma {:induction false} FullWithoutTake(states: seq<State>, steps: seq<Step>, d: nat, j: nat)
    requires IsRun(states, steps) && d <= j < |states| && Full(states[d])
    requires forall k :: d <= k < j ==> !steps[k].Take?
    ensures Full(states[j])
    decreases j - d
  {
    hide Apply, Enabled, Full, Init;
    if d < j {
      FullWithoutTake(states, steps, d, j - 1);
      StepKeepsFull(states[j - 1], steps[j - 1]);
    }
  }

  lemma StepKeepsFull(s: State, step: Step)
    requires Enabled(s, step) && Full(s) && !step.Take?
    ensures Full(Apply(s, step))
  {}

  /** If no worker takes a record after the batch's first drop, its first items are the
      accepted ones. */
  lemma PrefixWithoutTake(states: seq<State>, steps: seq<Step>, i: nat, id: nat)
    requires IsRun(states, steps) && i < |states|
    requires forall d, k :: 0 <= d < k < i && DropsAt(states, steps, d, id) ==> !steps[k].Take?
    ensures var ts := Tickets(states[i], id);
      forall k :: 0 <= k < |ts| ==> (ts[k].Some? <==> k < CountSome(ts))
  {
    hide Apply, Enabled, Init, Full, Tickets, CountSome;
    forall d, j | 0 <= d < j < i && DropsAt(states, steps, d, id) && steps[j] == OfferItem(id)
      ensures Full(states[j])
    {
      FullWithoutTake(states, steps, d, j);
    }
    BatchPrefixIff(states, steps, i, id);
    DropsLastIsPrefix(Tickets(states[i], id));
  }

  lemma Extend(states: seq<State>, steps: seq<Step>, step: Step) returns (states': seq<State>, steps': seq<Step>)
    requires IsRun(states, steps) && Enabled(states[|steps|], step)
    ensures IsRun(states', steps') && |states'| == |steps'| + 1
    ensures states'[0] == states[0] && states'[|steps'|] == Apply(states[|steps|], step)
  {
    hide Apply, Enabled, Init;
    states', steps' := states + [Apply(states[|steps|], step)], steps + [step];
  }

  /** Three valid items, up to the point where the handler starts to enqueue. */
  lemma ThreeItemsChecked(s0: State) returns (states: seq<State>, steps: seq<Step>)
    requires Init(s0) && s0.maxBatch == 0
    ensures IsRun(states, steps) && |states| == |steps| + 1 && states[0] == s0
    ensures states[|steps|] == s0.(batches := map[0 := Batch([true, true, true], Offering, 0, 0, 0, [])])
  {
    states, steps := [s0], [];
    assert IsRun(states, steps);
    hide IsRun;
    var items := [true, true, true];
    states, steps := Extend(states, steps, Post(0, items));
    assert states[|steps|] == s0.(batches := map[0 := Batch(items, Checking, 0, 0, 0, [])]);
    states, steps := Extend(states, steps, CheckItem(0));
    assert states[|steps|] == s0.(batches := map[0 := Batch(items, Checking, 1, 0, 0, [])]);
    states, steps := Extend(states, steps, CheckItem(0));
    assert states[|steps|] == s0.(batches := map[0 := Batch(items, Checking, 2, 0, 0, [])]);
    states, steps := Extend(states, steps, CheckItem(0));
    assert states[|steps|] == s0.(batches := map[0 := Batch(items, Checking, 3, 0, 0, [])]);
    states, steps := Extend(states, steps, CheckItem(0));
    assert states[|steps|] == s0.(batches := map[0 := Batch(items, Offering, 0, 0, 0, [])]);
  }

  /** Batch order does not mean a prefix: with room for one record, a worker that takes the
      first item after the second was dropped makes room for the third. */
  lemma BatchNeedNotBePrefix(s0: State)
    requires Init(s0) && s0.capacity == 1 && s0.maxBatch == 0 && s0.workers == [None]
    ensures exists states: seq<State>, steps: seq<Step> ::
      && |states| == |steps| + 1 && IsRun(states, steps) && states[0] == s0
      && 0 in states[|steps|].batches && states[|steps|].batches[0].progress == Answered
      && states[|steps|].batches[0].tickets == [Some(0), None, Some(2)]
  {
    var states, steps := ThreeItemsChecked(s0);
    assert s0.queue == [] && s0.offered == 0;
    hide IsRun, Init;
    var items := [true, true, true];
    states, steps := Extend(states, steps, OfferItem(0));
    assert At(states[|steps|], [0], 1, Batch(items, Offering, 1, 1, 0, [Some(0)]));
    states, steps := Extend(states, steps, OfferItem(0));
    assert At(states[|steps|], [0], 2, Batch(items, Offering, 2, 1, 1, [Some(0), None]));
    states, steps := Extend(states, steps, Take(0));
    assert At(states[|steps|], [], 2, Batch(items, Offering, 2, 1, 1, [Some(0), None]));
    states, steps := Extend(states, steps, OfferItem(0));
    assert At(states[|steps|], [2], 3, Batch(items, Offering, 3, 2, 1, [Some(0), None, Some(2)]));
    states, steps := Extend(states, steps, Answer(0));
  }

  predicate At(s: State, queue: seq<int>, offered: nat, b: Batch) {
    s.queue == queue && s.offered == offered && 0 in s.batches && s.batches[0] == b
  }
}
