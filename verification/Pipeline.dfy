/** Handlers, the bounded queue, the worker pool and the counters, as interleaved atomic steps. */
module Pipeline {
  import opened Strings
  import opened Sets

  // A record is named by its ticket: the number of offers before it.

  /** Which handler made the record; the flags say what the capture handler will count. */
  datatype Origin =
    | FromCapture(noService: bool, noCorrelation: bool)
    | FromEvents
    | FromBatch(batch: nat, item: nat)

  /** How far a capture handler has got after its record was accepted. */
  datatype Phase = Enqueued | CountedCaptured | CountedService

  datatype Progress = Checking | Refused | Offering | Answered

  /** A batch handler: how far it has got, its two counters, and what became of each item. */
  datatype Batch = Batch(
    items: seq<bool>,                // does parseAndBuild accept the item
    progress: Progress,
    next: nat,
    accepted: nat,
    dropped: nat,
    tickets: seq<Option<int>>)       // history: the ticket of each offered item, None when dropped

  datatype State = State(
    capacity: nat,
    maxBatch: int,
    queue: seq<int>,
    offered: nat,
    dropped: nat,
    captured: nat,
    withoutService: nat,
    withoutCorrelation: nat,
    panics: nat,
    handlers: map<int, Phase>,       // capture handlers between enqueue and return
    batches: map<nat, Batch>,        // batch handlers, by number
    workers: seq<Option<int>>,       // the record each worker is processing
    accepted: map<int, Origin>,      // history: every accepted record
    taken: seq<int>,                 // history: records in the order workers took them
    finished: seq<int>,              // history: records workers are done with
    takenBy: map<int, nat>)          // history: the worker that took a record

  predicate Init(s: State) {
    && s.capacity >= 1 && s.queue == [] && s.offered == s.dropped == 0
    && s.captured == s.withoutService == s.withoutCorrelation == s.panics == 0
    && s.handlers == map[] && s.batches == map[] && s.accepted == map[] && s.taken == [] && s.finished == [] && s.takenBy == map[]
    && forall w :: 0 <= w < |s.workers| ==> s.workers[w].None?
  }

  datatype Step =
    | Offer(origin: Origin)                       // a handler of one record calls Enqueue
    | Post(batch: nat, items: seq<bool>)          // a batch arrives
    | CheckItem(batch: nat)                       // its handler validates the next item
    | OfferItem(batch: nat)                       // calls Enqueue for the next item
    | Answer(batch: nat)                          // and reports its counters
    | CountCaptured(ticket: int)                  // a capture handler counts, in three steps
    | CountService(ticket: int)
    | CountCorrelation(ticket: int)
    | Take(worker: nat)                           // a worker receives the oldest record
    | Finish(worker: nat, panicked: bool)         // and is done with it

  predicate Enabled(s: State, step: Step) {
    match step
    case Offer(o) => !o.FromBatch?
    case Post(b, _) => b !in s.batches
    case CheckItem(b) => b in s.batches && s.batches[b].progress == Checking
    case OfferItem(b) => b in s.batches && s.batches[b].progress == Offering && s.batches[b].next < |s.batches[b].items|
    case Answer(b) => b in s.batches && s.batches[b].progress == Offering && s.batches[b].next >= |s.batches[b].items|
    case CountCaptured(t) => t in s.handlers && s.handlers[t] == Enqueued
    case CountService(t) => t in s.handlers && s.handlers[t] == CountedCaptured && t in s.accepted
    case CountCorrelation(t) => t in s.handlers && s.handlers[t] == CountedService && t in s.accepted
    case Take(w) => w < |s.workers| && s.workers[w].None? && s.queue != []
    case Finish(w, _) => w < |s.workers| && s.workers[w].Some?
  }

  predicate NoService(o: Origin) { o.FromCapture? && o.noService }

  predicate NoCorrelation(o: Origin) { o.FromCapture? && o.noCorrelation }

  /** One call of Enqueue. */
  function Offered(s: State, o: Origin): State {
    var t := s.offered;
    if |s.queue| < s.capacity then
      s.(queue := s.queue + [t], offered := t + 1, accepted := s.accepted[t := o],
         handlers := if o.FromCapture? then s.handlers[t := Enqueued] else s.handlers)
    else s.(offered := t + 1, dropped := s.dropped + 1)
  }

  function NewBatch(items: seq<bool>, maxBatch: int): Batch {
    Batch(items, if items == [] || 0 < maxBatch < |items| then Refused else Checking, 0, 0, 0, [])
  }

  function Checked(b: Batch): Batch {
    if b.next >= |b.items| then b.(progress := Offering, next := 0)
    else if b.items[b.next] then b.(next := b.next + 1)
    else b.(progress := Refused)
  }

  /** The handler after its Enqueue returned, with the ticket when it returned true. */
  function ItemDone(b: Batch, ticket: Option<int>): Batch {
    var b' := b.(next := b.next + 1, tickets := b.tickets + [ticket]);
    if ticket.Some? then b'.(accepted := b.accepted + 1) else b'.(dropped := b.dropped + 1)
  }

  function Apply(s: State, step: Step): State
    requires Enabled(s, step)
  {
    match step
    case Offer(o) => Offered(s, o)
    case Post(b, items) => s.(batches := s.batches[b := NewBatch(items, s.maxBatch)])
    case CheckItem(b) => s.(batches := s.batches[b := Checked(s.batches[b])])
    case OfferItem(b) =>
      var ticket := if |s.queue| < s.capacity then Some(s.offered) else None;
      Offered(s, FromBatch(b, s.batches[b].next)).(batches := s.batches[b := ItemDone(s.batches[b], ticket)])
    case Answer(b) => s.(batches := s.batches[b := s.batches[b].(progress := Answered)])
    case CountCaptured(t) =>
      s.(captured := s.captured + 1, handlers := s.handlers[t := CountedCaptured])
    case CountService(t) =>
      s.(withoutService := s.withoutService + (if NoService(s.accepted[t]) then 1 else 0),
         handlers := s.handlers[t := CountedService])
    case CountCorrelation(t) =>
      s.(withoutCorrelation := s.withoutCorrelation + (if NoCorrelation(s.accepted[t]) then 1 else 0),
         handlers := s.handlers - {t})
    case Take(w) =>
      var t := s.queue[0];
      s.(queue := s.queue[1..], workers := s.workers[w := Some(t)], taken := s.taken + [t], takenBy := s.takenBy[t := w])
    case Finish(w, panicked) =>
      s.(workers := s.workers[w := None], finished := s.finished + [s.workers[w].value],
         panics := s.panics + (if panicked then 1 else 0))
  }

  // What the counters count

  type Accepted = map<int, Origin>
  type Handlers = map<int, Phase>

  predicate AtPhase(h: Handlers, t: int, phases: set<Phase>) { t in h && h[t] in phases }

  function Captures(a: Accepted): set<int> { set t | t in a && a[t].FromCapture? }

  function CapturedSet(a: Accepted, h: Handlers): set<int> {
    set t | t in a && a[t].FromCapture? && !AtPhase(h, t, {Enqueued})
  }

  function ServiceSet(a: Accepted, h: Handlers): set<int> {
    set t | t in a && NoService(a[t]) && !AtPhase(h, t, {Enqueued, CountedCaptured})
  }

  function CorrelationSet(a: Accepted, h: Handlers): set<int> {
    set t | t in a && NoCorrelation(a[t]) && t !in h
  }

  predicate HandlersOk(a: Accepted, h: Handlers) {
    forall t :: t in h ==> t in a && a[t].FromCapture?
  }

  predicate Counted(a: Accepted, h: Handlers, captured: nat, withoutService: nat, withoutCorrelation: nat) {
    && HandlersOk(a, h)
    && captured == |CapturedSet(a, h)|
    && withoutService == |ServiceSet(a, h)|
    && withoutCorrelation == |CorrelationSet(a, h)|
  }

  predicate CountersOk(s: State) {
    Counted(s.accepted, s.handlers, s.captured, s.withoutService, s.withoutCorrelation)
  }

  lemma CountOffer(a: Accepted, h: Handlers, c: nat, ws: nat, wc: nat, t: int, o: Origin)
    requires Counted(a, h, c, ws, wc) && t !in a
    ensures Counted(a[t := o], if o.FromCapture? then h[t := Enqueued] else h, c, ws, wc)
  {
    var a', h' := a[t := o], if o.FromCapture? then h[t := Enqueued] else h;
    assert t !in h;
    assert CapturedSet(a', h') == CapturedSet(a, h);
    assert ServiceSet(a', h') == ServiceSet(a, h);
    assert CorrelationSet(a', h') == CorrelationSet(a, h);
  }

  lemma CountCapturedStep(a: Accepted, h: Handlers, c: nat, ws: nat, wc: nat, t: int)
    requires Counted(a, h, c, ws, wc) && t in h && h[t] == Enqueued
    ensures Counted(a, h[t := CountedCaptured], c + 1, ws, wc)
  {
    var h' := h[t := CountedCaptured];
    assert t !in CapturedSet(a, h) && CapturedSet(a, h') == CapturedSet(a, h) + {t};
    assert ServiceSet(a, h') == ServiceSet(a, h);
    assert CorrelationSet(a, h') == CorrelationSet(a, h);
  }

  lemma CountServiceStep(a: Accepted, h: Handlers, c: nat, ws: nat, wc: nat, t: int)
    requires Counted(a, h, c, ws, wc) && t in h && h[t] == CountedCaptured && t in a
    ensures Counted(a, h[t := CountedService], c, ws + (if NoService(a[t]) then 1 else 0), wc)
  {
    var h' := h[t := CountedService];
    assert t !in ServiceSet(a, h);
    assert CapturedSet(a, h') == CapturedSet(a, h);
    assert ServiceSet(a, h') == ServiceSet(a, h) + (if NoService(a[t]) then {t} else {});
    assert CorrelationSet(a, h') == CorrelationSet(a, h);
  }

  lemma CountCorrelationStep(a: Accepted, h: Handlers, c: nat, ws: nat, wc: nat, t: int)
    requires Counted(a, h, c, ws, wc) && t in h && h[t] == CountedService && t in a
    ensures Counted(a, h - {t}, c, ws, wc + (if NoCorrelation(a[t]) then 1 else 0))
  {
    var h' := h - {t};
    assert t !in CorrelationSet(a, h);
    assert CapturedSet(a, h') == CapturedSet(a, h);
    assert ServiceSet(a, h') == ServiceSet(a, h);
    assert CorrelationSet(a, h') == CorrelationSet(a, h) + (if NoCorrelation(a[t]) then {t} else {});
  }

  lemma StepCounters(s: State, step: Step)
    requires CountersOk(s) && Enabled(s, step) && s.offered !in s.accepted
    ensures CountersOk(Apply(s, step))
  {
    hide Counted;
    var a, h, c, ws, wc := s.accepted, s.handlers, s.captured, s.withoutService, s.withoutCorrelation;
    match step {
      case Offer(o) => CountOffer(a, h, c, ws, wc, s.offered, o);
      case OfferItem(b) => CountOffer(a, h, c, ws, wc, s.offered, FromBatch(b, s.batches[b].next));
      case CountCaptured(t) => CountCapturedStep(a, h, c, ws, wc, t);
      case CountService(t) => CountServiceStep(a, h, c, ws, wc, t);
      case CountCorrelation(t) => CountCorrelationStep(a, h, c, ws, wc, t);
      case _ =>
    }
  }

  // Where the records are

  function Held(workers: seq<Option<int>>): multiset<int> {
    if workers == [] then multiset{}
    else
      var n := |workers| - 1;
      Held(workers[..n]) + (if workers[n].Some? then multiset{workers[n].value} else multiset{})
  }

  predicate Distinct(ts: seq<int>) {
    forall i, j :: 0 <= i < j < |ts| ==> ts[i] != ts[j]
  }

  /** Every accepted record was offered, and is either taken or still queued, once. */
  ghost predicate OrderOk(a: Accepted, order: seq<int>, offered: nat) {
    && (forall t :: t in a ==> 0 <= t < offered)
    && Distinct(order)
    && (forall t :: t in a <==> t in order)
  }

  /** Every taken record is held by a worker or finished. */
  ghost predicate WorkOk(taken: seq<int>, finished: seq<int>, workers: seq<Option<int>>, takenBy: map<int, nat>) {
    && multiset(taken) == multiset(finished) + Held(workers)
    && (forall t :: t in takenBy <==> t in taken)
    && (forall w :: 0 <= w < |workers| && workers[w].Some? ==> HeldBy(takenBy, workers[w].value, w))
  }

  predicate HeldBy(takenBy: map<int, nat>, t: int, w: nat) { t in takenBy && takenBy[t] == w }

  ghost predicate RecordsOk(s: State) {
    && s.capacity >= 1 && |s.queue| <= s.capacity
    && s.offered == |s.accepted| + s.dropped
    && OrderOk(s.accepted, s.taken + s.queue, s.offered)
    && WorkOk(s.taken, s.finished, s.workers, s.takenBy)
    && s.panics <= |s.finished|
  }

  // What a batch handler has done

  /** Accepted by the two limits and by every item's validation. */
  predicate ValidBatch(items: seq<bool>, maxBatch: int) {
    items != [] && !(0 < maxBatch < |items|) && false !in items
  }

  function CountSome(ts: seq<Option<int>>): nat {
    if ts == [] then 0 else CountSome(ts[..|ts| - 1]) + (if ts[|ts| - 1].Some? then 1 else 0)
  }

  predicate ProgressOk(b: Batch, maxBatch: int) {
    && b.next <= |b.items|
    && match b.progress
       case Checking => b.tickets == [] && b.items != [] && !(0 < maxBatch < |b.items|) && false !in b.items[..b.next]
       case Refused => b.tickets == [] && !ValidBatch(b.items, maxBatch)
       case Offering => ValidBatch(b.items, maxBatch) && |b.tickets| == b.next
       case Answered => ValidBatch(b.items, maxBatch) && |b.tickets| == |b.items|
  }

  predicate TicketsOk(b: Batch, id: nat, a: Accepted) {
    && b.accepted == CountSome(b.tickets) && b.accepted + b.dropped == |b.tickets|
    && (forall k :: 0 <= k < |b.tickets| && b.tickets[k].Some? ==> IsItem(a, b.tickets[k].value, id, k))
    && (forall j, k :: 0 <= j < k < |b.tickets| && b.tickets[j].Some? && b.tickets[k].Some? ==>
          b.tickets[j].value < b.tickets[k].value)
  }

  predicate IsItem(a: Accepted, t: int, id: nat, k: nat) { t in a && a[t] == FromBatch(id, k) }

  /** An accepted batch record belongs to a batch that knows it. */
  predicate Known(batches: map<nat, Batch>, t: int, o: Origin) {
    o.FromBatch? ==>
      o.batch in batches && o.item < |batches[o.batch].tickets| && batches[o.batch].tickets[o.item] == Some(t)
  }

  predicate BatchesOk(s: State) {
    && (forall id :: id in s.batches ==> ProgressOk(s.batches[id], s.maxBatch))
    && (forall id :: id in s.batches ==> TicketsOk(s.batches[id], id, s.accepted))
    && (forall t :: t in s.accepted ==> Known(s.batches, t, s.accepted[t]))
  }

  ghost predicate Inv(s: State) { RecordsOk(s) && CountersOk(s) && BatchesOk(s) }

  lemma CheckedOk(b: Batch, maxBatch: int)
    requires ProgressOk(b, maxBatch) && b.progress == Checking
    ensures ProgressOk(Checked(b), maxBatch)
  {
    if b.next < |b.items| {
      assert b.items[..b.next + 1] == b.items[..b.next] + [b.items[b.next]];
    } else {
      assert b.items[..b.next] == b.items;
    }
  }

  lemma ItemDoneOk(b: Batch, id: nat, a: Accepted, offered: nat, ticket: Option<int>)
    requires TicketsOk(b, id, a) && |b.tickets| == b.next && ticket in {None, Some(offered)}
    requires forall t :: t in a ==> t < offered
    ensures TicketsOk(ItemDone(b, ticket), id, if ticket.Some? then a[offered := FromBatch(id, b.next)] else a)
  {
    assert (b.tickets + [ticket])[..|b.tickets|] == b.tickets;
  }

  lemma TicketsKept(b: Batch, id: nat, a: Accepted, t: int, o: Origin)
    requires TicketsOk(b, id, a) && t !in a
    ensures TicketsOk(b, id, a[t := o])
  {}

  lemma StepBatches(s: State, step: Step)
    requires BatchesOk(s) && Enabled(s, step) && forall t :: t in s.accepted ==> t < s.offered
    ensures BatchesOk(Apply(s, step))
  {
    hide TicketsOk, ProgressOk, Checked, ItemDone, NewBatch;
    var s' := Apply(s, step);
    match step {
      case Offer(o) =>
        OfferKeeps(s, o);
      case Post(b, items) =>
        NewBatchOk(items, s.maxBatch, b, s.accepted);
      case CheckItem(b) =>
        CheckedOk(s.batches[b], s.maxBatch);
        CheckedTickets(s.batches[b], b, s.accepted);
      case OfferItem(b) =>
        OfferItemKeeps(s, b);
      case Answer(b) =>
        AnswerOk(s.batches[b], s.maxBatch, b, s.accepted);
      case _ =>
    }
  }

  lemma OfferKeeps(s: State, o: Origin)
    requires BatchesOk(s) && !o.FromBatch? && s.offered !in s.accepted
    ensures BatchesOk(Offered(s, o))
  {
    hide TicketsOk, ProgressOk;
    forall id | id in s.batches
      ensures TicketsOk(s.batches[id], id, Offered(s, o).accepted)
    {
      TicketsKept(s.batches[id], id, s.accepted, s.offered, o);
    }
  }

  lemma NewBatchOk(items: seq<bool>, maxBatch: int, id: nat, a: Accepted)
    ensures ProgressOk(NewBatch(items, maxBatch), maxBatch) && TicketsOk(NewBatch(items, maxBatch), id, a)
    ensures NewBatch(items, maxBatch).tickets == []
  {}

  lemma CheckedTickets(b: Batch, id: nat, a: Accepted)
    requires TicketsOk(b, id, a)
    ensures TicketsOk(Checked(b), id, a) && Checked(b).tickets == b.tickets
  {}

  lemma AnswerOk(b: Batch, maxBatch: int, id: nat, a: Accepted)
    requires ProgressOk(b, maxBatch) && TicketsOk(b, id, a) && b.progress == Offering && b.next >= |b.items|
    ensures ProgressOk(b.(progress := Answered), maxBatch) && TicketsOk(b.(progress := Answered), id, a)
  {}

  lemma ItemDoneProgress(b: Batch, maxBatch: int, ticket: Option<int>)
    requires ProgressOk(b, maxBatch) && b.progress == Offering
    ensures |b.tickets| == b.next && ItemDone(b, ticket).tickets == b.tickets + [ticket]
    ensures b.next < |b.items| ==> ProgressOk(ItemDone(b, ticket), maxBatch)
  {}

  lemma OfferItemKeeps(s: State, b: nat)
    requires BatchesOk(s) && Enabled(s, OfferItem(b)) && forall t :: t in s.accepted ==> t < s.offered
    ensures BatchesOk(Apply(s, OfferItem(b)))
  {
    hide TicketsOk, ProgressOk, ItemDone;
    var s', was := Apply(s, OfferItem(b)), s.batches[b];
    var ticket := if |s.queue| < s.capacity then Some(s.offered) else None;
    ItemDoneProgress(was, s.maxBatch, ticket);
    ItemDoneOk(was, b, s.accepted, s.offered, ticket);
    forall id | id in s'.batches && id != b
      ensures TicketsOk(s'.batches[id], id, s'.accepted)
    {
      TicketsKept(s.batches[id], id, s.accepted, s.offered, FromBatch(b, was.next));
    }
    forall t | t in s'.accepted
      ensures Known(s'.batches, t, s'.accepted[t])
    {
      if t in s.accepted {
        assert Known(s.batches, t, s.accepted[t]);
      }
    }
  }

  lemma {:induction false} HeldIdle(workers: seq<Option<int>>)
    requires forall w :: 0 <= w < |workers| ==> workers[w].None?
    ensures Held(workers) == multiset{}
  {
    if workers != [] { HeldIdle(workers[..|workers| - 1]); }
  }

  lemma {:induction false} HeldTake(workers: seq<Option<int>>, w: nat, t: int)
    requires w < |workers| && workers[w].None?
    ensures Held(workers[w := Some(t)]) == Held(workers) + multiset{t}
  {
    var n := |workers| - 1;
    var workers' := workers[w := Some(t)];
    if w == n {
      assert workers'[..n] == workers[..n];
      assert Held(workers[..n]) + multiset{} == Held(workers[..n]);
    } else {
      HeldTake(workers[..n], w, t);
      assert workers'[..n] == workers[..n][w := Some(t)];
      Swap(Held(workers[..n]), if workers[n].Some? then multiset{workers[n].value} else multiset{}, multiset{t});
    }
  }

  lemma Swap(a: multiset<int>, b: multiset<int>, c: multiset<int>)
    ensures a + b + c == a + c + b
  {}

  lemma Regroup(a: multiset<int>, b: multiset<int>, c: multiset<int>)
    ensures a + b + c == a + (b + c)
  {}

  lemma HeldFinish(workers: seq<Option<int>>, w: nat)
    requires w < |workers| && workers[w].Some?
    ensures Held(workers[w := None]) + multiset{workers[w].value} == Held(workers)
  {
    HeldTake(workers[w := None], w, workers[w].value);
    assert workers[w := None][w := workers[w]] == workers;
  }

  lemma Admit(a: Accepted, order: seq<int>, offered: nat, o: Origin)
    requires OrderOk(a, order, offered)
    ensures offered !in a && |a[offered := o]| == |a| + 1
    ensures OrderOk(a[offered := o], order + [offered], offered + 1)
  {}

  lemma Taking(taken: seq<int>, finished: seq<int>, workers: seq<Option<int>>, takenBy: map<int, nat>, w: nat, t: int)
    requires WorkOk(taken, finished, workers, takenBy) && w < |workers| && workers[w].None? && t !in taken
    ensures WorkOk(taken + [t], finished, workers[w := Some(t)], takenBy[t := w])
  {
    HeldTake(workers, w, t);
    assert multiset(taken + [t]) == multiset(taken) + multiset{t};
    Regroup(multiset(finished), Held(workers), multiset{t});
  }

  lemma Finishing(taken: seq<int>, finished: seq<int>, workers: seq<Option<int>>, takenBy: map<int, nat>, w: nat)
    requires WorkOk(taken, finished, workers, takenBy) && w < |workers| && workers[w].Some?
    ensures WorkOk(taken, finished + [workers[w].value], workers[w := None], takenBy)
  {
    var t, workers' := workers[w].value, workers[w := None];
    HeldFinish(workers, w);
    assert multiset(finished + [t]) == multiset(finished) + multiset{t};
    Swap(multiset(finished), Held(workers'), multiset{t});
    Regroup(multiset(finished), Held(workers'), multiset{t});
  }

  lemma NotTakenYet(a: Accepted, taken: seq<int>, queue: seq<int>, offered: nat)
    requires OrderOk(a, taken + queue, offered) && queue != []
    ensures queue[0] !in taken
  {
    var order := taken + queue;
    assert order[|taken|] == queue[0];
    assert forall i :: 0 <= i < |taken| ==> order[i] == taken[i];
  }

  lemma StepRecords(s: State, step: Step)
    requires RecordsOk(s) && Enabled(s, step)
    ensures RecordsOk(Apply(s, step))
  {
    hide OrderOk, WorkOk;
    match step {
      case Offer(o) =>
        OfferRecords(s, o);
      case OfferItem(b) =>
        OfferRecords(s, FromBatch(b, s.batches[b].next));
      case Take(w) =>
        var t := s.queue[0];
        NotTakenYet(s.accepted, s.taken, s.queue, s.offered);
        Taking(s.taken, s.finished, s.workers, s.takenBy, w, t);
        assert s.taken + [t] + s.queue[1..] == s.taken + s.queue;
      case Finish(w, _) =>
        Finishing(s.taken, s.finished, s.workers, s.takenBy, w);
      case _ =>
    }
  }

  lemma OfferRecords(s: State, o: Origin)
    requires RecordsOk(s)
    ensures RecordsOk(Offered(s, o))
  {
    hide OrderOk, WorkOk;
    Admit(s.accepted, s.taken + s.queue, s.offered, o);
    assert s.taken + (s.queue + [s.offered]) == s.taken + s.queue + [s.offered];
    MoreOffers(s.accepted, s.taken + s.queue, s.offered);
  }

  lemma MoreOffers(a: Accepted, order: seq<int>, offered: nat)
    requires OrderOk(a, order, offered)
    ensures OrderOk(a, order, offered + 1)
  {}

  lemma InitInv(s: State)
    requires Init(s)
    ensures Inv(s)
  {
    HeldIdle(s.workers);
    assert CapturedSet(s.accepted, s.handlers) == ServiceSet(s.accepted, s.handlers) == CorrelationSet(s.accepted, s.handlers) == {};
    assert multiset(s.taken) == multiset(s.finished) + Held(s.workers);
  }

  /** A run: any interleaving of enabled steps from an initial state. */
  predicate IsRun(states: seq<State>, steps: seq<Step>) {
    && |states| == |steps| + 1
    && Init(states[0])
    && forall i :: 0 <= i < |steps| ==> Enabled(states[i], steps[i]) && states[i + 1] == Apply(states[i], steps[i])
  }

  lemma {:induction false} RunInv(states: seq<State>, steps: seq<Step>, i: nat)
    requires IsRun(states, steps) && i < |states|
    ensures Inv(states[i])
  {
    hide Inv, Apply, Enabled, Init;
    if i == 0 {
      InitInv(states[0]);
    } else {
      RunInv(states, steps, i - 1);
      StepInv(states[i - 1], steps[i - 1]);
    }
  }

  lemma StepInv(s: State, step: Step)
    requires Inv(s) && Enabled(s, step)
    ensures Inv(Apply(s, step))
  {
    assert forall t :: t in s.accepted ==> t < s.offered;
    hide RecordsOk, CountersOk, BatchesOk, Apply, Enabled;
    StepRecords(s, step);
    StepCounters(s, step);
    StepBatches(s, step);
  }

  // Consequences in every reachable state

  function Members(ts: seq<int>): set<int> { set t | t in ts }

  lemma {:induction false} DistinctCard(ts: seq<int>)
    requires Distinct(ts)
    ensures |Members(ts)| == |ts|
  {
    if ts == [] {
      assert Members(ts) == {};
    } else {
      var n := |ts| - 1;
      DistinctCard(ts[..n]);
      assert ts == ts[..n] + [ts[n]] && ts[n] !in ts[..n];
      assert Members(ts) == Members(ts[..n]) + {ts[n]};
    }
  }

  /** Nothing is lost or duplicated, and the counters never show an impossible ratio. */
  lemma Conservation(states: seq<State>, steps: seq<Step>, i: nat)
    requires IsRun(states, steps) && i < |states|
    ensures var s := states[i];
      && |s.queue| <= s.capacity
      && s.offered == |s.accepted| + s.dropped
      && |s.accepted| == |s.queue| + |Held(s.workers)| + |s.finished|
      && s.panics <= |s.finished|
      && s.withoutService <= s.captured <= |s.accepted|
      && s.withoutCorrelation <= s.captured
  {
    hide Held;
    RunInv(states, steps, i);
    var s := states[i];
    CountersNested(s.accepted, s.handlers);
    OrderCard(s.accepted, s.taken + s.queue, s.offered);
    assert |multiset(s.taken)| == |multiset(s.finished)| + |Held(s.workers)|;
  }

  lemma CountersNested(a: Accepted, h: Handlers)
    ensures |ServiceSet(a, h)| <= |CapturedSet(a, h)| && |CorrelationSet(a, h)| <= |CapturedSet(a, h)| <= |a|
  {
    forall t: int
      ensures t in ServiceSet(a, h) || t in CorrelationSet(a, h) ==> t in CapturedSet(a, h)
      ensures t in CapturedSet(a, h) ==> t in a.Keys
    {}
    SubsetCard(ServiceSet(a, h), CapturedSet(a, h));
    SubsetCard(CorrelationSet(a, h), CapturedSet(a, h));
    SubsetCard(CapturedSet(a, h), a.Keys);
  }

  lemma OrderCard(a: Accepted, order: seq<int>, offered: nat)
    requires OrderOk(a, order, offered)
    ensures |a| == |order|
  {
    DistinctCard(order);
    forall t: int
      ensures t in a.Keys <==> t in Members(order)
    {
      assert t in a <==> t in order;
    }
    assert a.Keys == Members(order);
  }

  /** Once no capture handler is between its enqueue and its return, the captured-family
      counters are exactly the accepted captures and those without service or correlation. */
  lemma QuietCounters(states: seq<State>, steps: seq<Step>, i: nat)
    requires IsRun(states, steps) && i < |states| && states[i].handlers == map[]
    ensures var s := states[i];
      && s.captured == |Captures(s.accepted)|
      && s.withoutService == |set t | t in s.accepted && NoService(s.accepted[t])|
      && s.withoutCorrelation == |set t | t in s.accepted && NoCorrelation(s.accepted[t])|
  {
    RunInv(states, steps, i);
    var s := states[i];
    assert CapturedSet(s.accepted, s.handlers) == Captures(s.accepted);
    assert ServiceSet(s.accepted, s.handlers) == set t | t in s.accepted && NoService(s.accepted[t]);
    assert CorrelationSet(s.accepted, s.handlers) == set t | t in s.accepted && NoCorrelation(s.accepted[t]);
  }

  lemma {:induction false} HeldMember(workers: seq<Option<int>>, t: int)
    ensures t in Held(workers) <==> exists w :: 0 <= w < |workers| && workers[w] == Some(t)
  {
    if workers != [] {
      var n := |workers| - 1;
      HeldMember(workers[..n], t);
      assert forall w :: 0 <= w < n ==> workers[..n][w] == workers[w];
    }
  }

  /** Each accepted record is in exactly one place: queued, held by the worker that took it
      and by no other, or finished. */
  lemma ExactlyOneWorker(states: seq<State>, steps: seq<Step>, i: nat, t: int)
    requires IsRun(states, steps) && i < |states| && t in states[i].accepted
    ensures var s := states[i];
      && (t in s.queue <==> t !in s.taken)
      && (t in s.taken <==> t in s.takenBy)
      && multiset(s.taken)[t] <= 1 && multiset(s.queue)[t] <= 1
      && (t in s.taken <==> (t in s.finished) != (t in Held(s.workers)))
      && (t in Held(s.workers) ==> t in s.takenBy)
      && forall w :: 0 <= w < |s.workers| ==> (s.workers[w] == Some(t) <==> t in Held(s.workers) && s.takenBy[t] == w)
  {
    RunInv(states, steps, i);
    var s := states[i];
    HeldMember(s.workers, t);
    OnceEach(s.taken + s.queue, t);
    assert multiset(s.taken + s.queue) == multiset(s.taken) + multiset(s.queue);
  }

  lemma {:induction false} OnceEach(ts: seq<int>, t: int)
    requires Distinct(ts)
    ensures multiset(ts)[t] == if t in ts then 1 else 0
  {
    if ts != [] {
      var n := |ts| - 1;
      OnceEach(ts[..n], t);
      assert ts == ts[..n] + [ts[n]];
    }
  }

  /** A record that one worker has held is never held by another. */
  lemma WorkerNeverChanges(states: seq<State>, steps: seq<Step>, i: nat, j: nat, t: int, v: nat, w: nat)
    requires IsRun(states, steps) && i <= j < |states|
    requires v < |states[i].workers| && states[i].workers[v] == Some(t)
    requires w < |states[j].workers| && states[j].workers[w] == Some(t)
    ensures v == w
  {
    hide Apply, Enabled, Init, CountersOk, BatchesOk;
    RunInv(states, steps, i);
    RunInv(states, steps, j);
    assert HeldBy(states[i].takenBy, t, v) && HeldBy(states[j].takenBy, t, w);
    TakerKept(states, steps, i, j, t);
  }

  lemma {:induction false} TakerKept(states: seq<State>, steps: seq<Step>, i: nat, j: nat, t: int)
    requires IsRun(states, steps) && i <= j < |states| && t in states[i].takenBy
    ensures t in states[j].takenBy && states[j].takenBy[t] == states[i].takenBy[t]
    decreases j - i
  {
    hide Inv, Init, Apply, Enabled;
    if i < j {
      TakerKept(states, steps, i, j - 1, t);
      RunInv(states, steps, j - 1);
      TakenByKept(states[j - 1], steps[j - 1], t);
    }
  }

  lemma TakenByKept(s: State, step: Step, t: int)
    requires Inv(s) && Enabled(s, step) && t in s.takenBy
    ensures t in Apply(s, step).takenBy && Apply(s, step).takenBy[t] == s.takenBy[t]
  {
    hide CountersOk, BatchesOk;
    if step.Take? {
      assert (s.taken + s.queue)[|s.taken|] == s.queue[0];
      var k :| 0 <= k < |s.taken| && s.taken[k] == t;
      assert (s.taken + s.queue)[k] == t;
    }
  }

  /** Workers take records in the order they were accepted. */
  lemma {:induction false} FirstInFirstOut(states: seq<State>, steps: seq<Step>, i: nat)
    requires IsRun(states, steps) && i < |states|
    ensures var order := states[i].taken + states[i].queue;
      forall a, b :: 0 <= a < b < |order| ==> order[a] < order[b]
  {
    hide Inv, Init;
    if i == 0 {
      assert states[0].taken == [] && states[0].queue == [] by { InitEmpty(states[0]); }
    } else {
      FirstInFirstOut(states, steps, i - 1);
      RunInv(states, steps, i - 1);
      OrderKept(states[i - 1], steps[i - 1]);
    }
  }

  lemma InitEmpty(s: State)
    requires Init(s)
    ensures s.taken == [] && s.queue == []
  {}

  lemma OrderKept(s: State, step: Step)
    requires Inv(s) && Enabled(s, step)
    requires var order := s.taken + s.queue; forall a, b :: 0 <= a < b < |order| ==> order[a] < order[b]
    ensures var order := Apply(s, step).taken + Apply(s, step).queue; forall a, b :: 0 <= a < b < |order| ==> order[a] < order[b]
  {
    hide CountersOk, BatchesOk, WorkOk;
    var order, s' := s.taken + s.queue, Apply(s, step);
    if (step.Offer? || step.OfferItem?) && |s.queue| < s.capacity {
      assert s'.taken + s'.queue == order + [s.offered];
      assert forall a :: 0 <= a < |order| ==> order[a] in order;
    } else {
      assert s'.taken + s'.queue == order;
    }
  }
}
