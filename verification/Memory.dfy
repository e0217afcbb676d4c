/** The bounded ring of recent records and its correlation index. */
module Memory {
  import opened Strings
  import opened Capture
  import opened Division

  function Min(a: int, b: int): int { if a < b then a else b }

  /** The live records, newest first: the last `capacity` writes of the history. */
  function Live(history: seq<Record>, capacity: nat): seq<Record> {
    var n := Min(|history|, capacity);
    seq(n, i requires 0 <= i < n => history[|history| - 1 - i])
  }

  /** Position of the first record with the id in a newest-first scan. */
  function FirstHit(live: seq<Record>, cid: string): (r: Option<nat>)
    ensures r.Some? ==> r.value < |live| && live[r.value].CorrelationID() == cid
    ensures forall j :: 0 <= j < (if r.Some? then r.value else |live|) ==> live[j].CorrelationID() != cid
  {
    if live == [] then None
    else if live[0].CorrelationID() == cid then Some(0)
    else
      var r := FirstHit(live[1..], cid);
      if r.None? then None else Some(r.value + 1)
  }

  lemma FirstHitUnique(live: seq<Record>, cid: string, i: nat)
    requires i < |live| && live[i].CorrelationID() == cid
    requires forall j :: 0 <= j < i ==> live[j].CorrelationID() != cid
    ensures FirstHit(live, cid) == Some(i)
  {}

  lemma FirstHitPrefix(live: seq<Record>, cid: string, k: nat)
    requires k <= |live|
    ensures FirstHit(live[..k], cid) ==
      (var r := FirstHit(live, cid); if r.Some? && r.value < k then r else None)
  {
    hide FirstHit;
    var r, p := FirstHit(live, cid), FirstHit(live[..k], cid);
    if p.Some? { FirstHitUnique(live, cid, p.value); }
    if r.Some? && r.value < k { FirstHitUnique(live[..k], cid, r.value); }
  }

  lemma LiveAfterWrite(history: seq<Record>, r: Record, capacity: nat)
    requires capacity >= 1
    ensures var live := Live(history, capacity);
      Live(history + [r], capacity) == [r] + live[..Min(|live|, capacity - 1)]
  {}

  // Ring positions

  /** Position of the i-th newest record when `head` is the next position to write. */
  function Slot(head: int, i: int, capacity: int): int {
    if head - 1 - i >= 0 then head - 1 - i else head - 1 - i + capacity
  }

  function Forward(x: nat, capacity: nat): (r: nat)
    requires x < capacity
    ensures r == if x + 1 == capacity then 0 else x + 1
  {
    (x + 1) % capacity
  }

  function Back(x: nat, capacity: nat): (r: nat)
    requires x < capacity
    ensures r == if x == 0 then capacity - 1 else x - 1
  {
    if x > 0 then ModPlus(x - 1, capacity); (x - 1 + capacity) % capacity
    else (x - 1 + capacity) % capacity
  }

  /** The buffer holds the live records at their positions. */
  ghost predicate BufOk(buf: seq<Option<Record>>, live: seq<Record>, head: nat, capacity: nat) {
    && |buf| == capacity && head < capacity && |live| <= capacity
    && forall i :: 0 <= i < |live| ==> 0 <= Slot(head, i, capacity) < capacity && buf[Slot(head, i, capacity)] == Some(live[i])
  }

  /** The index knows exactly the ids a scan finds, and points at the scan's first hit. */
  ghost predicate IndexOk(index: map<string, nat>, live: seq<Record>, head: nat, capacity: nat) {
    && (forall cid :: cid in index <==> FirstHit(live, cid).Some?)
    && (forall cid :: cid in index ==> index[cid] == Slot(head, FirstHit(live, cid).value, capacity))
  }

  lemma BufAfterWrite(buf: seq<Option<Record>>, live: seq<Record>, head: nat, capacity: nat, r: Record)
    requires BufOk(buf, live, head, capacity)
    ensures BufOk(buf[head := Some(r)], [r] + live[..Min(|live|, capacity - 1)], Forward(head, capacity), capacity)
  {}

  /** The index without the evicted record, if the index pointed at it. */
  function Evicted(index: map<string, nat>, evictee: Option<Record>, pos: nat, full: bool): map<string, nat> {
    if full && evictee.Some? then
      var cid := evictee.value.CorrelationID();
      if (if cid in index then index[cid] else 0) == pos then index - {cid} else index
    else index
  }

  lemma HitAfterWrite(live: seq<Record>, r: Record, k: nat, cid: string)
    requires k <= |live|
    ensures FirstHit([r] + live[..k], cid) ==
      if r.CorrelationID() == cid then Some(0)
      else var h := FirstHit(live, cid); if h.Some? && h.value < k then Some(h.value + 1) else None
  {
    hide FirstHit;
    FirstHitPrefix(live, cid, k);
    FirstHitCons(r, live[..k], cid);
  }

  lemma FirstHitCons(r: Record, rest: seq<Record>, cid: string)
    ensures FirstHit([r] + rest, cid) ==
      if r.CorrelationID() == cid then Some(0)
      else var h := FirstHit(rest, cid); if h.Some? then Some(h.value + 1) else None
  {
    var live := [r] + rest;
    assert live[0] == r && live[1..] == rest;
  }

  lemma IndexAfterWrite(index: map<string, nat>, buf: seq<Option<Record>>, live: seq<Record>, head: nat, capacity: nat, r: Record)
    requires BufOk(buf, live, head, capacity) && IndexOk(index, live, head, capacity)
    ensures IndexOk(Evicted(index, buf[head], head, |live| == capacity)[r.CorrelationID() := head],
      [r] + live[..Min(|live|, capacity - 1)], Forward(head, capacity), capacity)
  {
    hide Forward, FirstHit;
    var k := Min(|live|, capacity - 1);
    var head' := Forward(head, capacity);
    var index' := Evicted(index, buf[head], head, |live| == capacity)[r.CorrelationID() := head];
    if |live| == capacity {
      assert Slot(head, capacity - 1, capacity) == head;
      assert buf[head] == Some(live[capacity - 1]);
    }
    forall cid: string
      ensures cid in index' <==> FirstHit([r] + live[..k], cid).Some?
      ensures cid in index' ==> index'[cid] == Slot(head', FirstHit([r] + live[..k], cid).value, capacity)
    {
      HitAfterWrite(live, r, k, cid);
      EvictedHit(index, buf, live, head, capacity, cid);
    }
  }

  /** Eviction drops exactly the id whose first hit was the oldest record. */
  lemma EvictedHit(index: map<string, nat>, buf: seq<Option<Record>>, live: seq<Record>, head: nat, capacity: nat, cid: string)
    requires BufOk(buf, live, head, capacity) && IndexOk(index, live, head, capacity)
    ensures var h := FirstHit(live, cid);
      var index' := Evicted(index, buf[head], head, |live| == capacity);
      && (cid in index' <==> h.Some? && h.value < Min(|live|, capacity - 1))
      && (cid in index' ==> index'[cid] == Slot(head, h.value, capacity))
  {
    hide FirstHit;
    var h := FirstHit(live, cid);
    if |live| == capacity {
      assert Slot(head, capacity - 1, capacity) == head;
      var oldest := live[capacity - 1].CorrelationID();
      assert buf[head] == Some(live[capacity - 1]);
      assert FirstHit(live, oldest).Some?;
      if h.Some? && h.value == capacity - 1 {
        assert oldest == cid;
      }
    }
  }

  class MemorySink {
    const capacity: nat
    var buf: array<Option<Record>>
    var head: nat
    var size: nat
    var corrIdx: map<string, nat>
    ghost var history: seq<Record>      // every record ever written, oldest first

    ghost predicate Valid()
      reads this, buf
    {
      && capacity >= 1 && buf.Length == capacity
      && size == |Live(history, capacity)|
      && BufOk(buf[..], Live(history, capacity), head, capacity)
      && IndexOk(corrIdx, Live(history, capacity), head, capacity)
    }

    constructor (requested: int)
      ensures Valid() && fresh(buf)
      ensures history == [] && capacity == (if requested < 1 then 1 else requested)
    {
      var c: nat := if requested < 1 then 1 else requested;
      capacity := c;
      buf := new Option<Record>[c](_ => None);
      head, size := 0, 0;
      corrIdx := map[];
      history := [];
    }

    method Write(r: Record)
      requires Valid()
      modifies this`head, this`size, this`corrIdx, this`history, buf
      ensures Valid() && history == old(history) + [r]
    {
      hide Forward, BufOk, IndexOk, FirstHit;
      ghost var live := Live(history, capacity);
      ghost var before := buf[..];
      assert head < capacity && |live| <= capacity by { BufBounds(before, live, head, capacity); }
      var pos := head;
      if size == capacity && buf[pos].Some? {
        var cid := buf[pos].value.CorrelationID();
        if (if cid in corrIdx then corrIdx[cid] else 0) == pos {
          corrIdx := corrIdx - {cid};
        }
      }
      assert corrIdx == Evicted(old(corrIdx), before[pos], pos, |live| == capacity);
      buf[pos] := Some(r);
      corrIdx := corrIdx[r.CorrelationID() := pos];
      head := Forward(head, capacity);
      if size < capacity {
        size := size + 1;
      }
      history := history + [r];
      LiveAfterWrite(old(history), r, capacity);
      assert buf[..] == before[pos := Some(r)];
      BufAfterWrite(before, live, pos, capacity, r);
      IndexAfterWrite(old(corrIdx), before, live, pos, capacity, r);
    }

    /** Up to n most recent records, newest first. */
    method Recent(n: int) returns (out: seq<Record>)
      requires Valid()
      ensures out == Live(history, capacity)[..if n <= 0 then 0 else Min(n, size)]
    {
      hide Back, Live, IndexOk;
      if n <= 0 {
        return [];
      }
      var count := if n > size then size else n;
      out := [];
      ghost var live := Live(history, capacity);
      var idx := Back(head, capacity);
      for i := 0 to count
        invariant out == live[..i]
        invariant idx < capacity
        invariant i < capacity ==> idx == Slot(head, i, capacity)
      {
        assert buf[..][idx] == Some(live[i]);
        out := out + [buf[idx].value];
        idx := Back(idx, capacity);
      }
    }

    /** The most recently written live record with the id, found through the index. */
    method ByCorrelationID(correlationID: string) returns (r: Option<Record>)
      requires Valid()
      ensures var hit := FirstHit(Live(history, capacity), correlationID);
        r == if hit.Some? then Some(Live(history, capacity)[hit.value]) else None
    {
      if correlationID !in corrIdx {
        return None;
      }
      ghost var i := FirstHit(Live(history, capacity), correlationID).value;
      assert buf[..][Slot(head, i, capacity)] == Some(Live(history, capacity)[i]);
      return buf[corrIdx[correlationID]];
    }
  }

  lemma BufBounds(buf: seq<Option<Record>>, live: seq<Record>, head: nat, capacity: nat)
    requires BufOk(buf, live, head, capacity)
    ensures head < capacity && |live| <= capacity == |buf|
  {}
}
