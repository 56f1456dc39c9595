// The E1000 receive ring shared by the network card and the driver: 32 descriptors, one buffer each.
module RxRing {
  import opened Bytes

  const BUFFER_SIZE: nat := 2048

  type Packet = p: seq<byte> | |p| <= 2048 witness []

  datatype RxDesc = RxDesc(bufferAddr: nat, length: nat, status: nat)

  datatype Event = Fill(packet: Packet) | Receive

  /** How many slots after the one following `tail` slot `s` comes, around the ring. */
  function Dist(tail: nat, s: nat): (d: nat)
    requires tail < 32 && s < 32
    ensures d < 32
  {
    if s > tail then s - tail - 1 else s + 31 - tail
  }

  /** The slot `k` places after the one following `tail`. */
  function SlotAfter(tail: nat, k: nat): (s: nat)
    requires tail < 32 && k < 32
    ensures s < 32
  {
    if tail + 1 + k < 32 then tail + 1 + k else tail + 1 + k - 32
  }

  lemma SlotDist(tail: nat, k: nat)
    requires tail < 32 && k < 32
    ensures Dist(tail, SlotAfter(tail, k)) == k
  {
  }

  lemma DistInjective(tail: nat, s: nat, t: nat)
    requires tail < 32 && s < 32 && t < 32
    ensures Dist(tail, s) == Dist(tail, t) <==> s == t
  {
  }

  /** Moving the tail on by one brings every slot but the new tail one place nearer. */
  lemma DistNext(tail: nat, s: nat)
    requires tail < 32 && s < 32
    ensures var t := SlotAfter(tail, 0); Dist(t, s) == if s == t then 31 else Dist(tail, s) - 1
    ensures Dist(tail, s) == 0 <==> s == SlotAfter(tail, 0)
    ensures Dist(tail, s) == 31 <==> s == tail
  {
  }

  lemma SlotNext(tail: nat, k: nat)
    requires tail < 32 && k < 31
    ensures SlotAfter(SlotAfter(tail, 0), k) == SlotAfter(tail, k + 1)
  {
  }

  /** Buffer `s` of the pool starts with packet `p`. */
  ghost predicate Holds(pool: seq<byte>, s: nat, p: Packet)
    requires s < 32 && |pool| == 65536
  {
    forall k :: 0 <= k < |p| ==> pool[s * BUFFER_SIZE + k] == p[k]
  }

  ghost predicate Shaped(d: seq<RxDesc>, pool: seq<byte>, rdh: nat, rdt: nat) {
    && |d| == 32 && |pool| == 65536 && rdh < 32 && rdt < 32
    && (forall s :: 0 <= s < 32 ==> d[s].bufferAddr == s * BUFFER_SIZE)
  }

  /** Slot `s` has a packet not yet received: it lies after RDT and before RDH, going around. */
  predicate Ready(rdh: nat, rdt: nat, s: nat)
    requires rdh < 32 && rdt < 32 && s < 32
  {
    Dist(rdt, s) < Dist(rdt, rdh)
  }

  ghost predicate Waiting(d: seq<RxDesc>, pool: seq<byte>, slot: nat, p: Packet)
    requires slot < 32 && |d| == 32 && |pool| == 65536
  {
    d[slot].length == |p| && Holds(pool, slot, p)
  }

  /**
   * The ready bit is set exactly on the slots from the one after RDT up to RDH, those hold the queue in order, and
   * the slot at RDT still holds what was received last.
   */
  ghost predicate RingOk(d: seq<RxDesc>, pool: seq<byte>, rdh: nat, rdt: nat, queue: seq<Packet>, last: Packet) {
    && Shaped(d, pool, rdh, rdt)
    && |queue| == Dist(rdt, rdh)
    && (forall s :: 0 <= s < 32 ==> (d[s].status % 2 == 1 <==> Ready(rdh, rdt, s)))
    && (forall k :: 0 <= k < |queue| ==> Waiting(d, pool, SlotAfter(rdt, k), queue[k]))
    && Holds(pool, rdt, last)
  }

  lemma RingStarts(d: seq<RxDesc>, pool: seq<byte>)
    requires Shaped(d, pool, 0, 31) && forall s :: 0 <= s < 32 ==> d[s].status == 0
    ensures RingOk(d, pool, 0, 31, [], [])
  {
  }

  lemma HeadMoved(tail: nat, head: nat)
    requires tail < 32 && head < 32 && head != tail
    ensures Dist(tail, SlotAfter(head, 0)) == Dist(tail, head) + 1
  {
  }

  lemma HoldsElsewhere(pool: seq<byte>, pool2: seq<byte>, slot: nat, p: Packet, s: nat, q: Packet)
    requires |pool| == 65536 && slot < 32 && s < 32 && s != slot
    requires pool2 == Splice(pool, slot * BUFFER_SIZE, p) && Holds(pool, s, q)
    ensures Holds(pool2, s, q)
  {
  }

  /** The card's step on the slot at the head keeps the ring in order. */
  lemma FillKeeps(d: seq<RxDesc>, pool: seq<byte>, rdh: nat, rdt: nat, queue: seq<Packet>, last: Packet, p: Packet,
                  d2: seq<RxDesc>, pool2: seq<byte>)
    requires RingOk(d, pool, rdh, rdt, queue, last) && rdh != rdt
    requires d2 == d[rdh := RxDesc(d[rdh].bufferAddr, |p|, 1)] && pool2 == Splice(pool, rdh * BUFFER_SIZE, p)
    ensures |queue| < 31 && RingOk(d2, pool2, SlotAfter(rdh, 0), rdt, queue + [p], last)
  {
    hide Dist;
    hide SlotAfter;
    hide Holds;
    var more := queue + [p];
    HeadMoved(rdt, rdh);
    DistNext(rdt, rdh);
    forall s | 0 <= s < 32 ensures d2[s].status % 2 == 1 <==> Ready(SlotAfter(rdh, 0), rdt, s) {
      DistInjective(rdt, s, rdh);
    }
    forall k | 0 <= k < |more| ensures Waiting(d2, pool2, SlotAfter(rdt, k), more[k]) {
      SlotDist(rdt, k);
      DistInjective(rdt, SlotAfter(rdt, k), rdh);
      if k < |queue| {
        assert Waiting(d, pool, SlotAfter(rdt, k), queue[k]);
        HoldsElsewhere(pool, pool2, rdh, p, SlotAfter(rdt, k), queue[k]);
      } else {
        HoldsWritten(pool, pool2, rdh, p);
      }
    }
    HoldsElsewhere(pool, pool2, rdh, p, rdt, last);
  }

  lemma HoldsWritten(pool: seq<byte>, pool2: seq<byte>, slot: nat, p: Packet)
    requires |pool| == 65536 && slot < 32 && pool2 == Splice(pool, slot * BUFFER_SIZE, p)
    ensures Holds(pool2, slot, p)
  {
  }

  /** The driver looks at the right slot: it is ready exactly when a packet is waiting. */
  lemma OldestReady(d: seq<RxDesc>, pool: seq<byte>, rdh: nat, rdt: nat, queue: seq<Packet>, last: Packet)
    requires RingOk(d, pool, rdh, rdt, queue, last)
    ensures d[SlotAfter(rdt, 0)].status % 2 == 1 <==> queue != []
    ensures queue != [] ==> Waiting(d, pool, SlotAfter(rdt, 0), queue[0])
  {
    DistNext(rdt, SlotAfter(rdt, 0));
  }

  /** The driver's step keeps the ring in order. */
  lemma ReceiveKeeps(d: seq<RxDesc>, pool: seq<byte>, rdh: nat, rdt: nat, queue: seq<Packet>, last: Packet,
                     d2: seq<RxDesc>)
    requires RingOk(d, pool, rdh, rdt, queue, last) && queue != []
    requires var t := SlotAfter(rdt, 0); d2 == d[t := RxDesc(d[t].bufferAddr, d[t].length, 0)]
    ensures RingOk(d2, pool, rdh, SlotAfter(rdt, 0), queue[1..], queue[0])
  {
    hide Dist;
    hide Holds;
    var t := SlotAfter(rdt, 0);
    OldestReady(d, pool, rdh, rdt, queue, last);
    DistNext(rdt, rdh);
    forall s | 0 <= s < 32 ensures d2[s].status % 2 == 1 <==> Ready(rdh, t, s) {
      DistNext(rdt, s);
    }
    forall k | 0 <= k < |queue| - 1 ensures Waiting(d2, pool, SlotAfter(t, k), queue[1..][k]) {
      SlotNext(rdt, k);
      assert Waiting(d, pool, SlotAfter(rdt, k + 1), queue[k + 1]);
    }
  }

  class Ring {
    const descs: array<RxDesc>
    const pool: array<byte>                           // the buffers, back to back
    var rdh: nat                                      // next slot the card fills
    var rdt: nat                                      // the slot the driver returned last; the card stops there
    ghost var queue: seq<Packet>                      // filled and not yet received, oldest first
    ghost var last: Packet                            // what the last successful receive returned

    ghost predicate Valid()
      reads this, descs, pool
    {
      RingOk(descs[..], pool[..], rdh, rdt, queue, last)
    }

    /** Receive set-up: zeroed descriptors, a buffer each, head 0 and tail 31. */
    constructor ()
      ensures Valid() && fresh(descs) && fresh(pool) && queue == [] && last == []
    {
      descs := new RxDesc[32](_ => RxDesc(0, 0, 0));
      pool := new byte[65536](_ => 0);
      queue, last := [], [];
      rdh, rdt := 0, 31;
      new;
      for i := 0 to 32
        invariant rdh == 0 && rdt == 31 && queue == [] && last == [] && fresh(descs) && fresh(pool)
        invariant forall s :: 0 <= s < i ==> descs[s].bufferAddr == s * BUFFER_SIZE
        invariant forall s :: 0 <= s < 32 ==> descs[s].status == 0
      {
        descs[i] := descs[i].(bufferAddr := i * BUFFER_SIZE);
        descs[i] := descs[i].(status := 0);
      }
      RingStarts(descs[..], pool[..]);
    }

    /** The card's transfer of a packet into the buffer at `at`. */
    method Transfer(at: nat, p: Packet)
      requires at + |p| <= pool.Length
      modifies pool
      ensures pool[..] == Splice(old(pool[..]), at, p)
    {
      forall k | 0 <= k < |p| { pool[at + k] := p[k]; }
    }

    /** Card step: a packet arrives. It goes to the slot at the head unless head equals tail; then it is lost. */
    method DeviceFill(p: Packet) returns (stored: bool)
      requires Valid()
      modifies this`rdh, this`queue, descs, pool
      ensures Valid() && rdt == old(rdt)
      ensures stored == (|old(queue)| < 31)
      ensures queue == if stored then old(queue) + [p] else old(queue)
    {
      DistNext(rdt, rdh);
      if rdh == rdt { return false; }
      ghost var d := descs[..];
      Transfer(descs[rdh].bufferAddr, p);
      descs[rdh] := descs[rdh].(length := |p|, status := 1);
      FillKeeps(d, old(pool[..]), rdh, rdt, queue, last, p, descs[..], pool[..]);
      rdh := (rdh + 1) % 32;
      queue := queue + [p];
      stored := true;
    }

    /** Driver step: the oldest waiting packet, by place and length in the pool; None when there is none. */
    method Receive() returns (r: Option<(nat, nat)>)
      requires Valid()
      modifies this`rdt, this`queue, this`last, descs
      ensures Valid() && rdh == old(rdh)
      ensures r.None? <==> old(queue) == []
      ensures r.None? ==> queue == [] && last == old(last) && rdt == old(rdt)
      ensures r.Some? ==>
                && r.value.0 + r.value.1 <= pool.Length
                && pool[r.value.0..r.value.0 + r.value.1] == old(queue)[0] == last
                && queue == old(queue)[1..] && rdt == SlotAfter(old(rdt), 0)
    {
      var idx := (rdt + 1) % 32;
      OldestReady(descs[..], pool[..], rdh, rdt, queue, last);
      if descs[idx].status % 2 != 0 {
        var len := descs[idx].length;
        r := Some((idx * BUFFER_SIZE, len));
        ghost var d := descs[..];
        descs[idx] := descs[idx].(status := 0);
        ReceiveKeeps(d, pool[..], rdh, rdt, queue, last, descs[..]);
        rdt := idx;
        last := queue[0];
        queue := queue[1..];
      } else {
        r := None;
      }
    }

    /**
     * Every interleaving of card and driver steps behaves as a first-in first-out queue of at most 31 packets, and
     * what the last receive returned is still in its buffer.
     */
    method Interleave(events: seq<Event>) returns (received: seq<Packet>)
      requires Valid() && queue == []
      modifies this`rdh, this`rdt, this`queue, this`last, descs, pool
      ensures Valid() && Fifo(events) == FifoState(queue, received)
      ensures received != [] ==> last == received[|received| - 1] && Holds(pool[..], rdt, last)
    {
      received := [];
      for i := 0 to |events|
        invariant Valid() && Fifo(events[..i]) == FifoState(queue, received)
        invariant received != [] ==> last == received[|received| - 1]
      {
        assert events[..i + 1][..i] == events[..i];
        match events[i] {
          case Fill(p) =>
            var stored := DeviceFill(p);
          case Receive =>
            var r := Receive();
            match r {
              case Some(place) =>
                var p: Packet := pool[place.0..place.0 + place.1];
                received := received + [p];
              case None =>
            }
        }
      }
      assert events[..|events|] == events;
    }
  }

  // ------------------------------------------------------------- the queue

  datatype FifoState = FifoState(waiting: seq<Packet>, received: seq<Packet>)

  /** A queue of at most 31 packets that loses what arrives when it is full. */
  function Fifo(events: seq<Event>): (s: FifoState)
    ensures |s.waiting| <= 31
  {
    if events == [] then FifoState([], [])
    else
      var s := Fifo(events[..|events| - 1]);
      match events[|events| - 1]
      case Fill(p) => if |s.waiting| < 31 then FifoState(s.waiting + [p], s.received) else s
      case Receive => if s.waiting == [] then s else FifoState(s.waiting[1..], s.received + [s.waiting[0]])
  }

  /** The packets that found room, in order of arrival. */
  function Accepted(events: seq<Event>): seq<Packet> {
    if events == [] then []
    else
      var before := events[..|events| - 1];
      match events[|events| - 1]
      case Fill(p) => Accepted(before) + if |Fifo(before).waiting| < 31 then [p] else []
      case Receive => Accepted(before)
  }

  /** No accepted packet is lost, repeated or reordered. */
  lemma {:induction false} InOrder(events: seq<Event>)
    ensures Accepted(events) == Fifo(events).received + Fifo(events).waiting
  {
    if events == [] {
    } else {
      var before := events[..|events| - 1];
      InOrder(before);
      var s := Fifo(before);
      match events[|events| - 1]
      case Fill(p) =>
      case Receive =>
        if s.waiting != [] { assert s.waiting == [s.waiting[0]] + s.waiting[1..]; }
    }
  }
}
