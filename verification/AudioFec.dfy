/** audioBroadcastThread of src/stream.cpp: audio packets, and parity after every fourth. */
module AudioFec {
  import opened Bytes
  import opened ReedSolomon
  import GcmIv

  const DATA_SHARDS: nat := 4
  const FEC_SHARDS: nat := 2
  const SEQ_RANGE: nat := 65536

  /** An encoded audio packet as numbered and stamped by the session. */
  datatype Sent = Sent(number: nat, timestamp: nat, bytes: seq<Byte>)

  datatype OnWire =
    | Data(packet: Sent)
    | Parity(number: nat, shardIndex: nat, baseNumber: nat, baseTimestamp: nat, bytes: seq<Byte>)

  /** One call of the Reed-Solomon encoder: the number of packets sent by then, the FEC header, what is in slots 0
      to 3, and the parity shards made of it. */
  datatype ParityCall = ParityCall(after: nat, baseNumber: nat, baseTimestamp: nat, size: nat, slots: seq<seq<Byte>>,
                                   parity: seq<seq<Byte>>)

  /** The 16-bit number of packet `k` of a session. */
  function Number(k: nat): nat { k % SEQ_RANGE }

  /** Its 32-bit timestamp. */
  function Timestamp(k: nat, duration: nat): nat { k * duration % GcmIv.TWO_32 }

  lemma NextTimestamp(k: nat, duration: nat)
    ensures (Timestamp(k, duration) + duration) % GcmIv.TWO_32 == Timestamp(k + 1, duration)
  {
    var m, t := GcmIv.TWO_32, Timestamp(k, duration);
    var q, q', r' := k * duration / m, (t + duration) / m, (t + duration) % m;
    NextMultiple(k, duration);
    DivModUnique((k + 1) * duration, m, q + q', r');
  }

  class AudioStream {
    const duration: nat
    const slotSize: nat
    const rs: Rs
    var number: nat
    var timestamp: nat
    var baseNumber: nat
    var baseTimestamp: nat
    var slots: array<seq<Byte>>
    var wire: seq<OnWire>
    // every packet sent so far, and every parity computation
    ghost var sent: seq<Sent>
    ghost var calls: seq<ParityCall>

    /** At most `fill` packets wait for their parity; they are in the slots in order. */
    ghost predicate Filling(fill: nat)
      reads this, slots
    {
      && slots.Length == DATA_SHARDS
      && number == Number(|sent|) && timestamp == Timestamp(|sent|, duration)
      && History(sent, calls, slots[..], duration, slotSize, rs, fill)
      && (4 * |calls| < |sent| ==>
            baseNumber == sent[4 * |calls|].number && baseTimestamp == sent[4 * |calls|].timestamp)
      && Wired(wire, sent, calls, duration)
    }

    ghost predicate Valid()
      reads this, slots
    {
      Filling(3)
    }

    constructor (duration: nat, slotSize: nat, rs: Rs)
      ensures Valid() && fresh(slots) && sent == [] && calls == [] && wire == []
      ensures this.duration == duration && this.slotSize == slotSize && this.rs == rs && timestamp == 0
    {
      this.duration, this.slotSize, this.rs := duration, slotSize, rs;
      number, timestamp, baseNumber, baseTimestamp, wire, sent, calls := 0, 0, 0, 0, [], [], [];
      slots := new seq<Byte>[DATA_SHARDS](_ => Zeros(slotSize));
    }

    /** One packet, already encoded. Its place in the block follows from its 16-bit number alone. */
    method Send(bytes: seq<Byte>)
      requires Valid() && |bytes| <= slotSize
      modifies this, slots
      ensures Valid() && slots == old(slots)
      ensures sent == old(sent) + [Sent(|old(sent)| % SEQ_RANGE, |old(sent)| * duration % GcmIv.TWO_32, bytes)]
      ensures old(calls) <= calls
    {
      var n := number;
      var last := EndsBlock(n, |sent|, |calls|);
      Accept(bytes);
      CompleteIf(last, n, |bytes|);
    }

    /** Whether a packet completes its block, told from its 16-bit number. */
    static method EndsBlock(n: nat, ghost count: nat, ghost blocks: nat) returns (last: bool)
      requires n == Number(count) && 4 * blocks <= count < 4 * blocks + 4
      ensures last <==> count == 4 * blocks + 3
    {
      BlockPosition(count, blocks);
      last := (n + 1) % DATA_SHARDS == 0;
    }

    method CompleteIf(last: bool, n: nat, size: nat)
      requires Filling(4) && (last <==> |sent| == 4 * |calls| + 4)
      requires sent != [] && n == sent[|sent| - 1].number && size == |sent[|sent| - 1].bytes|
      modifies this`wire, this`calls
      ensures Valid() && old(calls) <= calls
    {
      if last {
        Complete(n, size);
      }
    }

    /** The packet goes to its slot and to the wire. */
    method Accept(bytes: seq<Byte>)
      requires Valid() && |bytes| <= slotSize
      modifies this`number, this`timestamp, this`baseNumber, this`baseTimestamp, this`wire, this`sent, slots
      ensures Filling(4)
      ensures sent == old(sent) + [Sent(old(number), old(timestamp), bytes)]
    {
      BlockPosition(|sent|, |calls|);
      var slot := number % DATA_SHARDS;
      if slot == 0 {
        baseNumber, baseTimestamp := number, timestamp;
      }
      Place(slot, bytes);
    }

    method Place(slot: nat, bytes: seq<Byte>)
      requires slots.Length == DATA_SHARDS && number == Number(|sent|) && timestamp == Timestamp(|sent|, duration)
      requires History(sent, calls, slots[..], duration, slotSize, rs, 3)
      requires Wired(wire, sent, calls, duration) && |bytes| <= slotSize && slot == |sent| - 4 * |calls|
      requires baseNumber == (if slot == 0 then number else sent[4 * |calls|].number)
      requires baseTimestamp == (if slot == 0 then timestamp else sent[4 * |calls|].timestamp)
      modifies this`number, this`timestamp, this`wire, this`sent, slots
      ensures Filling(4)
      ensures sent == old(sent) + [Sent(old(number), old(timestamp), bytes)]
    {
      ghost var next := Sent(number, timestamp, bytes);
      AcceptStep(sent, calls, slots[..], duration, slotSize, rs, next);
      WireData(wire, sent, calls, duration, next, wire + [Data(next)]);
      GcmIv.ModIncrement(|sent|, SEQ_RANGE);
      NextTimestamp(|sent|, duration);
      slots[slot] := bytes + slots[slot][|bytes|..];
      assert slots[..] == old(slots[..])[slot := bytes + old(slots[slot])[|bytes|..]];
      sent, wire := sent + [next], wire + [Data(Sent(number, timestamp, bytes))];
      number, timestamp := GcmIv.Next(number, SEQ_RANGE), (timestamp + duration) % GcmIv.TWO_32;
    }

    /** Parity over the four slots, cut to the size of the packet that completes the block. */
    method Complete(n: nat, size: nat)
      requires Filling(4) && |sent| == 4 * |calls| + 4 && n == sent[|sent| - 1].number
          && size == |sent[|sent| - 1].bytes|
      modifies this`wire, this`calls
      ensures Filling(0) && sent == old(sent) && old(calls) <= calls
    {
      CompleteFits(sent, calls, slots[..], duration, slotSize, rs);
      var views := [slots[0][..size], slots[1][..size], slots[2][..size], slots[3][..size]];
      var parity := rs.enc(views, FEC_SHARDS);
      ghost var call := ParityCall(|sent|, baseNumber, baseTimestamp, size, views, parity);
      CompleteStep(sent, calls, slots[..], duration, slotSize, rs, call);
      SendParity(n, parity, call);
      calls := calls + [call];
    }

    method SendParity(n: nat, parity: seq<seq<Byte>>, ghost call: ParityCall)
      requires Wired(wire, sent, calls, duration) && |sent| == 4 * |calls| + 4 && n == Number(|sent| - 1)
      requires baseNumber == Number(4 * |calls|) && baseTimestamp == Timestamp(4 * |calls|, duration)
      requires call.parity == parity
      modifies this`wire
      ensures Wired(wire, sent, calls + [call], duration)
    {
      BlockNumbers(|calls|);
      wire := wire + [Parity((n + 1) % SEQ_RANGE, 0, baseNumber, baseTimestamp, Shard(parity, 0)),
                      Parity((n + 2) % SEQ_RANGE, 1, baseNumber, baseTimestamp, Shard(parity, 1))];
      WireParity(old(wire), sent, calls, duration, call, wire);
    }
  }

  ghost predicate History(sent: seq<Sent>, calls: seq<ParityCall>, slots: seq<seq<Byte>>, duration: nat, slotSize: nat,
                          rs: Rs, fill: nat)
  {
    && |slots| == 4 && (forall k :: 0 <= k < 4 ==> |slots[k]| == slotSize)
    && 4 * |calls| <= |sent| <= 4 * |calls| + fill && fill <= 4
    && (forall k :: 0 <= k < |sent| ==> sent[k].number == Number(k) && sent[k].timestamp == Timestamp(k, duration))
    && (forall j :: 0 <= j < |sent| - 4 * |calls| ==> sent[4 * |calls| + j].bytes <= slots[j])
    && (forall b :: 0 <= b < |calls| ==> CallCovers(calls[b], sent, rs, b))
  }

  lemma AcceptStep(sent: seq<Sent>, calls: seq<ParityCall>, slots: seq<seq<Byte>>, duration: nat, slotSize: nat, rs: Rs,
                   next: Sent)
    requires History(sent, calls, slots, duration, slotSize, rs, 3) && |next.bytes| <= slotSize
    requires next.number == Number(|sent|) && next.timestamp == Timestamp(|sent|, duration)
    ensures var slot := |sent| - 4 * |calls|;
            var slots' := slots[slot := next.bytes + slots[slot][|next.bytes|..]];
            History(sent + [next], calls, slots', duration, slotSize, rs, 4)
  {
    var slot := |sent| - 4 * |calls|;
    var slots' := slots[slot := next.bytes + slots[slot][|next.bytes|..]];
    var sent' := sent + [next];
    forall j | 0 <= j <= slot ensures sent'[4 * |calls| + j].bytes <= slots'[j] {
      if j < slot { assert sent'[4 * |calls| + j] == sent[4 * |calls| + j]; }
    }
  }

  lemma CompleteFits(sent: seq<Sent>, calls: seq<ParityCall>, slots: seq<seq<Byte>>, duration: nat, slotSize: nat,
                     rs: Rs)
    requires History(sent, calls, slots, duration, slotSize, rs, 4) && |sent| == 4 * |calls| + 4
    ensures |sent[|sent| - 1].bytes| <= slotSize
  {
    assert sent[4 * |calls| + 3].bytes <= slots[3];
  }

  lemma CompleteStep(sent: seq<Sent>, calls: seq<ParityCall>, slots: seq<seq<Byte>>, duration: nat, slotSize: nat,
                     rs: Rs, call: ParityCall)
    requires History(sent, calls, slots, duration, slotSize, rs, 4) && |sent| == 4 * |calls| + 4
    requires call.after == |sent| && call.baseNumber == sent[4 * |calls|].number
        && call.baseTimestamp == sent[4 * |calls|].timestamp
    requires call.size == |sent[|sent| - 1].bytes| <= slotSize
    requires call.slots == [slots[0][..call.size], slots[1][..call.size], slots[2][..call.size], slots[3][..call.size]]
    requires call.parity == rs.enc(call.slots, FEC_SHARDS)
    ensures History(sent, calls + [call], slots, duration, slotSize, rs, 0)
  {
    var b := |calls|;
    assert sent[4 * b + 0].bytes <= slots[0] && sent[4 * b + 1].bytes <= slots[1];
    assert sent[4 * b + 2].bytes <= slots[2] && sent[4 * b + 3].bytes <= slots[3];
    assert CallCovers(call, sent, rs, b);
  }

  /** 65536 is a multiple of four, so the 16-bit number keeps the position in the block. */
  lemma BlockPosition(n: nat, blocks: nat)
    requires 4 * blocks <= n < 4 * blocks + 4
    ensures Number(n) % DATA_SHARDS == n - 4 * blocks
    ensures (Number(n) + 1) % DATA_SHARDS == 0 <==> n == 4 * blocks + 3
  {
    ModFour(n);
    DivModUnique(n, 4, blocks, n - 4 * blocks);
    var m := Number(n);
    if m % 4 == 3 { DivModUnique(m + 1, 4, m / 4 + 1, 0); } else { DivModUnique(m + 1, 4, m / 4, m % 4 + 1); }
  }

  lemma ModFour(n: nat)
    ensures n % SEQ_RANGE % 4 == n % 4
  {
    var q, r := n / SEQ_RANGE, n % SEQ_RANGE;
    DivModUnique(n, 4, 16384 * q + r / 4, r % 4);
  }

  /** The parity packets of block `b` are numbered as if they followed its last packet. */
  lemma BlockNumbers(b: nat)
    ensures (Number(4 * b + 3) + 1) % SEQ_RANGE == (4 * b + 4) % SEQ_RANGE
    ensures (Number(4 * b + 3) + 2) % SEQ_RANGE == (4 * b + 5) % SEQ_RANGE
  {
    var n := 4 * b + 3;
    var q, r := n / SEQ_RANGE, n % SEQ_RANGE;
    var q1, r1, q2, r2 := (r + 1) / SEQ_RANGE, (r + 1) % SEQ_RANGE, (r + 2) / SEQ_RANGE, (r + 2) % SEQ_RANGE;
    DivModUnique(n + 1, SEQ_RANGE, q + q1, r1);
    DivModUnique(n + 2, SEQ_RANGE, q + q2, r2);
  }

  /** Parity computation `b` saw the four packets 4b to 4b+3 and announces the first of them. */
  ghost predicate CallCovers(call: ParityCall, sent: seq<Sent>, rs: Rs, b: nat) {
    && call.parity == rs.enc(call.slots, FEC_SHARDS)
    && call.after == 4 * b + 4 <= |sent|
    && call.baseNumber == sent[4 * b].number == Number(4 * b)
    && call.baseTimestamp == sent[4 * b].timestamp
    && call.size == |sent[4 * b + 3].bytes|
    && |call.slots| == 4
    && SeesPacket(call.slots[0], sent[4 * b], call.size)
    && SeesPacket(call.slots[1], sent[4 * b + 1], call.size)
    && SeesPacket(call.slots[2], sent[4 * b + 2], call.size)
    && SeesPacket(call.slots[3], sent[4 * b + 3], call.size)
  }

  /** The slot shows the packet, cut to the size of the parity computation. */
  predicate SeesPacket(view: seq<Byte>, s: Sent, size: nat) {
    |view| == size && if |s.bytes| <= size then s.bytes <= view else view <= s.bytes
  }

  /** The wire carries every packet once, in order, and behind the fourth of each block its parity: two packets
      numbered on, which name the first packet of the block and its time. */
  ghost predicate Wired(wire: seq<OnWire>, sent: seq<Sent>, calls: seq<ParityCall>, duration: nat) {
    && |wire| == |sent| + 2 * |calls|
    && (forall k :: 0 <= k < |sent| ==> k + 2 * (k / 4) < |wire| && wire[k + 2 * (k / 4)] == Data(sent[k]))
    && (forall b :: 0 <= b < |calls| ==> ParityAt(wire, calls[b], b, duration))
  }

  ghost predicate ParityAt(wire: seq<OnWire>, call: ParityCall, b: nat, duration: nat) {
    && 6 * b + 6 <= |wire|
    && var time := 4 * b * duration % GcmIv.TWO_32;
    && wire[6 * b + 4] == Parity((4 * b + 4) % SEQ_RANGE, 0, 4 * b % SEQ_RANGE, time, Shard(call.parity, 0))
    && wire[6 * b + 5] == Parity((4 * b + 5) % SEQ_RANGE, 1, 4 * b % SEQ_RANGE, time, Shard(call.parity, 1))
  }

  function Shard(parity: seq<seq<Byte>>, x: nat): seq<Byte> {
    if x < |parity| then parity[x] else []
  }

  lemma WireData(wire: seq<OnWire>, sent: seq<Sent>, calls: seq<ParityCall>, duration: nat, next: Sent,
                 wire': seq<OnWire>)
    requires Wired(wire, sent, calls, duration) && 4 * |calls| <= |sent| < 4 * |calls| + 4
    requires wire' == wire + [Data(next)]
    ensures Wired(wire', sent + [next], calls, duration)
  {
    forall b | 0 <= b < |calls| ensures ParityAt(wire', calls[b], b, duration) {
      assert ParityAt(wire, calls[b], b, duration);
    }
  }

  lemma WireParity(wire: seq<OnWire>, sent: seq<Sent>, calls: seq<ParityCall>, duration: nat, call: ParityCall,
                   wire': seq<OnWire>)
    requires Wired(wire, sent, calls, duration) && |sent| == 4 * |calls| + 4
    requires var b := |calls|;
      wire' == wire + [
        Parity((4 * b + 4) % SEQ_RANGE, 0, Number(4 * b), Timestamp(4 * b, duration), Shard(call.parity, 0)),
        Parity((4 * b + 5) % SEQ_RANGE, 1, Number(4 * b), Timestamp(4 * b, duration), Shard(call.parity, 1))]
    ensures Wired(wire', sent, calls + [call], duration)
  {
    forall b | 0 <= b < |calls| + 1 ensures ParityAt(wire', (calls + [call])[b], b, duration) {
      if b < |calls| { assert ParityAt(wire, calls[b], b, duration); }
    }
  }

  /** Packet `k` is in its slot when the parity is computed: it was sent before, and no later packet has taken
      the slot. */
  ghost predicate InSlot(call: ParityCall, k: nat) {
    k < call.after && forall later :: k < later < call.after ==> later % DATA_SHARDS != k % DATA_SHARDS
  }

  /** Over any run, including the wrap of the number: the parity computation `b` is over packet `k` exactly
      when `b` is `k / 4`, and sees it in slot `k % 4`, whole when it has the size of the computation. */
  lemma EveryPacketIsCovered(a: AudioStream, k: nat, b: nat)
    requires a.Valid() && k < |a.sent| && b < |a.calls|
    ensures InSlot(a.calls[b], k) <==> b == k / 4
    ensures b == k / 4 ==>
      && a.calls[b].baseNumber == Number(k - k % 4)
      && |a.calls[b].slots| == 4 && SeesPacket(a.calls[b].slots[k % 4], a.sent[k], a.calls[b].size)
      && (|a.sent[k].bytes| == a.calls[b].size ==> a.calls[b].slots[k % 4] == a.sent[k].bytes)
  {
    assert CallCovers(a.calls[b], a.sent, a.rs, b);
    SlotTaken(a.calls[b], k, b);
  }

  lemma SlotTaken(call: ParityCall, k: nat, b: nat)
    requires call.after == 4 * b + 4
    ensures InSlot(call, k) <==> b == k / 4
  {
    if k + 4 < call.after { assert (k + 4) % DATA_SHARDS == k % DATA_SHARDS; }
  }

  function Payload(p: OnWire): seq<Byte> {
    if p.Data? then p.packet.bytes else p.bytes
  }

  /** What the six packets of block `b` carry. */
  function BlockOnWire(wire: seq<OnWire>, b: nat): (r: seq<seq<Byte>>)
    requires 6 * b + 6 <= |wire|
    ensures |r| == 6 && forall x :: 0 <= x < 6 ==> r[x] == Payload(wire[6 * b + x])
  {
    seq(6, x requires 0 <= x < 6 => Payload(wire[6 * b + x]))
  }

  /** Any four of the six packets of a block give its four audio packets, when these have one size. */
  lemma PacketsRecover(a: AudioStream, b: nat, at: seq<nat>)
    requires a.Valid() && RsLawful(a.rs) && b < |a.calls| && Recoverable(DATA_SHARDS, FEC_SHARDS, at)
    requires forall k :: 4 * b <= k < 4 * b + 4 ==> |a.sent[k].bytes| == |a.sent[4 * b + 3].bytes|
    ensures 6 * b + 6 <= |a.wire|
    ensures a.rs.dec(at, Picked(BlockOnWire(a.wire, b), at), FEC_SHARDS)
         == [a.sent[4 * b].bytes, a.sent[4 * b + 1].bytes, a.sent[4 * b + 2].bytes, a.sent[4 * b + 3].bytes]
  {
    var call := a.calls[b];
    assert CallCovers(call, a.sent, a.rs, b) && ParityAt(a.wire, call, b, a.duration);
    SlotsAre(call, a.sent, a.rs, b);
    ParitySize(a.rs, call.slots, FEC_SHARDS, call.size);
    BlockIs(a.wire, a.sent, a.calls, a.duration, b, call.slots, call.parity);
    DataRecovers(a.rs, call.slots, FEC_SHARDS, call.size, at);
  }

  lemma SlotsAre(call: ParityCall, sent: seq<Sent>, rs: Rs, b: nat)
    requires CallCovers(call, sent, rs, b)
    requires forall k :: 4 * b <= k < 4 * b + 4 ==> |sent[k].bytes| == call.size
    ensures call.slots
         == [sent[4 * b].bytes, sent[4 * b + 1].bytes, sent[4 * b + 2].bytes, sent[4 * b + 3].bytes]
  {
    Whole(call.slots[0], sent[4 * b]);
    Whole(call.slots[1], sent[4 * b + 1]);
    Whole(call.slots[2], sent[4 * b + 2]);
    Whole(call.slots[3], sent[4 * b + 3]);
  }

  lemma Whole(view: seq<Byte>, s: Sent)
    requires SeesPacket(view, s, |s.bytes|)
    ensures view == s.bytes
  {
    assert view[..|s.bytes|] == view;
  }

  lemma BlockIs(wire: seq<OnWire>, sent: seq<Sent>, calls: seq<ParityCall>, duration: nat, b: nat,
                slots: seq<seq<Byte>>, parity: seq<seq<Byte>>)
    requires Wired(wire, sent, calls, duration) && b < |calls| && 4 * b + 4 <= |sent| && 6 * b + 6 <= |wire|
    requires ParityAt(wire, calls[b], b, duration) && parity == calls[b].parity && |parity| == FEC_SHARDS
    requires slots == [sent[4 * b].bytes, sent[4 * b + 1].bytes, sent[4 * b + 2].bytes, sent[4 * b + 3].bytes]
    ensures BlockOnWire(wire, b) == slots + parity
  {
    var block := BlockOnWire(wire, b);
    DataAt(wire, sent, calls, duration, b, 0, block);
    DataAt(wire, sent, calls, duration, b, 1, block);
    DataAt(wire, sent, calls, duration, b, 2, block);
    DataAt(wire, sent, calls, duration, b, 3, block);
    assert block[4] == Payload(wire[6 * b + 4]) && block[5] == Payload(wire[6 * b + 5]);
    SixShards(block, slots, parity);
  }

  lemma SixShards(block: seq<seq<Byte>>, slots: seq<seq<Byte>>, parity: seq<seq<Byte>>)
    requires |block| == 6 && |slots| == 4 && |parity| == 2
    requires block[0] == slots[0] && block[1] == slots[1] && block[2] == slots[2] && block[3] == slots[3]
    requires block[4] == parity[0] && block[5] == parity[1]
    ensures block == slots + parity
  {
  }

  lemma DataAt(wire: seq<OnWire>, sent: seq<Sent>, calls: seq<ParityCall>, duration: nat, b: nat, j: nat,
               block: seq<seq<Byte>>)
    requires Wired(wire, sent, calls, duration) && j < 4 && 4 * b + j < |sent|
    requires 6 * b + 6 <= |wire| && block == BlockOnWire(wire, b)
    ensures block[j] == sent[4 * b + j].bytes
  {
    var k := 4 * b + j;
    assert k / 4 == b && wire[k + 2 * (k / 4)] == Data(sent[k]);
    assert block[j] == Payload(wire[6 * b + j]);
  }

  /** Only the packets of a block that is not complete yet wait for their parity. */
  lemma WaitingPackets(a: AudioStream, k: nat)
    requires a.Valid() && k < |a.sent|
    ensures k / 4 < |a.calls| <==> k < |a.sent| - |a.sent| % 4
  {
  }
}
