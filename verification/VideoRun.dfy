/** The video of a session as it runs: frames sent and paced together, and what holds on the wire after any
    number of them (src/stream.cpp). */
module VideoRun {
  import opened Bytes
  import opened FecEncode
  import opened ReedSolomon
  import opened VideoFrames
  import opened VideoLimits
  import opened VideoNumbers
  import opened VideoSend
  import opened VideoThread
  import GcmIv
  import Pacing

  /** The largest batch the stream sends. */
  function LargestBatch(packetsize: nat): nat {
    Largest(BatchLimit(Blocksize(packetsize)))
  }

  /** The pacer paces what the stream puts on the wire. */
  ghost predicate Running(v: VideoStream, p: Pacing.Pacer)
    reads v, p
  {
    && v.Valid() && p.Valid() && p.Settled()
    && p.p == Pacing.PacketsPerMs(Blocksize(v.packetsize))
    && p.b == LargestBatch(v.packetsize) && p.sent == |v.wire|
  }

  /** One frame, its batches held back by the pacer. */
  method SendPacedFrame(v: VideoStream, p: Pacing.Pacer, latency: nat, frameType: Byte, payload: seq<Byte>,
                        frameIndex: nat, timestamp: nat, fec: nat, rs: Rs, batched: nat -> bool, lag: (nat, nat) -> nat,
                        oversleep: (nat, nat) -> nat, idle: nat)
    returns (sent: seq<SentBlock>)
    requires Running(v, p) && Lawful(v.cipher) && RsLawful(rs)
    requires v.packetsize > NV_VIDEO_PACKET_SIZE && 1 <= fec <= 255
    modifies v, p
    ensures Running(v, p) && v.wire == old(v.wire) + Packets(sent)
    ensures p.marks == old(p.marks) + [Pacing.Mark(p.frameStart, |old(v.wire)|)] && p.clock >= old(p.clock)
  {
    ghost var info;
    var batches;
    sent, batches, info := SendFrame(v, latency, frameType, payload, frameIndex, timestamp, fec, rs, batched);
    BatchesOfFrame(batches, sent, v.packetsize);
    p.SendFrame(batches, lag, oversleep, idle);
  }

  /** The batches of a frame are batches for the pacer, and have all its packets. */
  lemma {:induction false} BatchesOfFrame(batches: seq<seq<nat>>, sent: seq<SentBlock>, packetsize: nat)
    requires InBatches(batches, sent, BatchLimit(Blocksize(packetsize)))
    ensures Pacing.Total(batches) == |Packets(sent)|
    ensures forall x <- batches :: forall count <- x :: 1 <= count <= LargestBatch(packetsize)
    decreases |sent|
  {
    if sent != [] {
      var last := |sent| - 1;
      BatchesOfFrame(batches[..last], sent[..last], packetsize);
      assert batches == batches[..last] + [batches[last]];
    }
  }

  /** At every instant of every run, since the start of any frame, no more packets are on the wire than P for each
      elapsed millisecond plus P and one batch, up to a nanosecond's worth for each frame begun since. */
  lemma RateOnWire(v: VideoStream, p: Pacing.Pacer, j: nat, now: int)
    requires Running(v, p) && j < |p.marks| && now >= p.clock
    ensures p.p == 100_000 / Blocksize(v.packetsize)
    ensures Pacing.Within(p.marks[j], |v.wire|, now, p.p, LargestBatch(v.packetsize), |p.marks| - j)
  {
    Pacing.PacketsPerMsIs(Blocksize(v.packetsize));
    Pacing.RateAtAnyInstant(p, j, now);
  }

  /** Over every run, packet `k` of a session opens to number `k` modulo 65536, and a data packet to the same number
      of 24 bits in its stream index, from bit 8 on. */
  lemma NumbersOnWire(v: VideoStream, k: nat)
    requires v.Valid() && k < |v.wire|
    ensures |v.data| == |v.wire| && |Opened(v.cipher, v.wire[k])| >= FEC_INFO_AT
    ensures var plain := Opened(v.cipher, v.wire[k]);
      && FromBigEndian16(plain[SEQUENCE_AT..TIMESTAMP_AT]) == k % 65536
      && (v.data[k] ==> FromLittleEndian(plain[STREAM_INDEX_AT..FRAME_INDEX_AT]) == k % 0x100_0000 * 256)
  {
    assert Numbered(v.wire[k], v.cipher, k, CounterAfter(v.cipher, 0, k), v.data[k]);
  }

  /** Over every run, two packets are encrypted under one IV only with a multiple of 2 to the 64 between them. */
  lemma IvsOnWire(v: VideoStream, i: nat, j: nat)
    requires v.Valid() && v.cipher.Gcm? && i < j < |v.wire|
    ensures v.wire[i].prefix.EncPrefix? && v.wire[j].prefix.EncPrefix?
    ensures v.wire[i].prefix.iv == v.wire[j].prefix.iv <==> (j - i) % GcmIv.TWO_64 == 0
  {
    IvsRepeatOnlyOnWrap(v.wire, v.cipher, v.data, i, j);
  }
}
