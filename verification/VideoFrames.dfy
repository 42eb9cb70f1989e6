/** One frame from encoder output to the wire (videoBroadcastThread of src/stream.cpp), and what a client
    can rely on. */
module VideoFrames {
  import opened Bytes
  import opened Packetizer
  import opened FecSplit
  import opened FecEncode
  import opened ReedSolomon
  import opened Reassembly
  import opened VideoSend
  import opened VideoLimits
  import opened VideoNumbers
  import opened VideoThread
  import opened Wrappers
  import FecInfo
  import VideoClient

  function Packets(sent: seq<SentBlock>): seq<Packet> {
    if sent == [] then [] else Packets(sent[..|sent| - 1]) + sent[|sent| - 1].packets
  }

  /** The data packets of all FEC blocks in order, opened. */
  function Data(c: Cipher, sent: seq<SentBlock>): seq<seq<Byte>>
    requires forall b <- sent :: b.dataShards <= |b.packets|
  {
    if sent == [] then [] else Data(c, sent[..|sent| - 1]) + OpenedData(c, sent[|sent| - 1])
  }

  /** What is fixed for a frame. */
  datatype FrameInfo = FrameInfo(lowseq: nat, counter: nat, frameIndex: nat, timestamp: nat, blocks: nat, fec: nat,
                                 minParity: nat, bs: nat)

  function InfoOf(f: FrameInfo, before: nat, b: nat): BlockInfo {
    BlockInfo(f.lowseq + before, f.frameIndex, f.timestamp, b, f.blocks)
  }

  /** Block `b` is on the wire with its numbering continuing where the blocks before it stopped. */
  ghost predicate BlockSent(sent: seq<SentBlock>, b: nat, f: FrameInfo, c: Cipher)
    requires b < |sent|
  {
    var before := |Packets(sent[..b])|;
    && OnWire(sent[b], f.bs, InfoOf(f, before, b), f.fec, f.minParity, c, CounterAfter(c, f.counter, before))
    && (f.fec != 0 ==> sent[b].dataShards + ParityShards(sent[b].dataShards, f.fec) <= DATA_SHARDS_MAX)
  }

  ghost predicate FrameSent(sent: seq<SentBlock>, f: FrameInfo, c: Cipher) {
    forall b :: 0 <= b < |sent| ==> BlockSent(sent, b, f, c)
  }

  /** The packets of a block stay within what the Reed-Solomon code allows exactly when the larger of the
      computed parity and the minimum leaves room: the split only sees to the first. */
  lemma PacketsWithinLimit(sent: seq<SentBlock>, b: nat, f: FrameInfo, c: Cipher)
    requires b < |sent| && FrameSent(sent, f, c) && f.fec != 0
    ensures |sent[b].packets| <= DATA_SHARDS_MAX <==> sent[b].dataShards + f.minParity <= DATA_SHARDS_MAX
  {
    assert BlockSent(sent, b, f, c);
  }

  lemma SentAppend(sent: seq<SentBlock>, next: SentBlock, f: FrameInfo, c: Cipher)
    requires FrameSent(sent, f, c) && BlockSent(sent + [next], |sent|, f, c)
    ensures FrameSent(sent + [next], f, c)
    ensures Packets(sent + [next]) == Packets(sent) + next.packets
    ensures forall b <- sent + [next] :: b.dataShards <= |b.packets|
    ensures Data(c, sent + [next]) == Data(c, sent) + OpenedData(c, next)
  {
    var all := sent + [next];
    assert all[..|sent|] == sent;
    forall b | 0 <= b < |all| ensures BlockSent(all, b, f, c) {
      assert b < |sent| ==> all[..b] == sent[..b] && BlockSent(sent, b, f, c);
    }
    forall b <- all ensures b.dataShards <= |b.packets| {
      var k :| 0 <= k < |all| && all[k] == b;
      assert BlockSent(all, k, f, c);
    }
    forall b <- sent ensures b.dataShards <= |b.packets| {
      var k :| 0 <= k < |sent| && sent[k] == b;
      assert BlockSent(sent, k, f, c);
    }
  }

  lemma SamePayloadsAppend(a: seq<seq<Byte>>, b: seq<seq<Byte>>, a': seq<seq<Byte>>, b': seq<seq<Byte>>)
    requires SamePayloads(a, b) && SamePayloads(a', b')
    ensures SamePayloads(a + a', b + b')
  {
  }

  /** A piece of the packetised frame that starts and ends at a packet boundary, or ends the frame. */
  lemma NextBlock(image: seq<Byte>, bs: nat, done: nat, len: nat)
    requires bs > 0 && done + len <= |image| && done % bs == 0
    ensures DataShards(image[..done + len], bs) ==
        DataShards(image[..done], bs) + DataShards(image[done..done + len], bs)
  {
    assert image[..done + len] == image[..done] + image[done..done + len];
    DataShardsAppend(image[..done], image[done..done + len], bs);
  }

  /** Every block of a packetised frame has room for the header of its last packet. */
  lemma ImageHasRoom(size: nat, packetsize: nat, bs: nat, total: nat, offset: nat, len: nat, aligned: bool)
    requires size > 0 && packetsize > NV_VIDEO_PACKET_SIZE && bs == Blocksize(packetsize)
    requires total == PacketisedSize(size, packetsize) && offset % bs == 0 && offset + len <= total
    requires if aligned then len % bs == 0 else offset + len == total
    ensures RoomForHeaders(len, bs)
  {
    if !aligned {
      LastPacketHasRoom(size, packetsize);
      SameRemainder(offset, len, bs);
    }
  }

  lemma SameRemainder(offset: nat, len: nat, bs: nat)
    requires bs > 0 && offset % bs == 0
    ensures (offset + len) % bs == len % bs
  {
    DivParts(offset, bs);
    DivParts(len, bs);
    Distribute2(offset / bs + len / bs, len / bs, bs);
    DivModUnique(offset + len, bs, offset / bs + len / bs, len % bs);
  }

  function HeaderOf(latency: nat, frameType: Byte, payload: seq<Byte>, packetsize: nat): (h: seq<Byte>)
    requires packetsize > NV_VIDEO_PACKET_SIZE
    ensures |h| == 8
  {
    FrameHeader(latency, frameType, LastPayloadField(8 + |payload|, PayloadSize(packetsize)))
  }

  /** The blocks sent are those the frame is split into. */
  ghost predicate AsSplit(sent: seq<SentBlock>, blocks: seq<Block>, bs: nat)
    requires bs > 0
  {
    |sent| <= |blocks| && forall b :: 0 <= b < |sent| ==> sent[b].dataShards == CeilDiv(blocks[b].length, bs)
  }

  /** Every block left in batches within the limit. */
  ghost predicate InBatches(batches: seq<seq<nat>>, sent: seq<SentBlock>, limit: nat) {
    |batches| == |sent| && forall b :: 0 <= b < |sent| ==> GoodBatches(batches[b], limit, |sent[b].packets|)
  }

  /** The blocks of a frame whose header and payload have `size` bytes. */
  function BlocksOf(size: nat, packetsize: nat, fec: nat): seq<Block>
    requires size > 0 && packetsize > NV_VIDEO_PACKET_SIZE && 1 <= fec <= 255
  {
    Split(PacketisedSize(size, packetsize), Blocksize(packetsize), fec)
  }

  function FecOf(size: nat, packetsize: nat, fec: nat): nat
    requires size > 0 && packetsize > NV_VIDEO_PACKET_SIZE && 1 <= fec <= 255
  {
    FecUsed(PacketisedSize(size, packetsize), Blocksize(packetsize), fec)
  }

  /** One frame. The FEC blocks of the packetised frame are stamped, encoded and sent in order; the
      sequence numbers and the IV counter run on from block to block. Which blocks are sent, and whether a
      client can read them, follows from the size of the frame and the settings of the session. */
  method SendFrame(v: VideoStream, latency: nat, frameType: Byte, payload: seq<Byte>, frameIndex: nat, timestamp: nat,
                   fec: nat, rs: Rs, batched: nat -> bool)
    returns (sent: seq<SentBlock>, batches: seq<seq<nat>>, ghost info: FrameInfo)
    requires v.Valid() && Lawful(v.cipher) && RsLawful(rs)
    requires v.packetsize > NV_VIDEO_PACKET_SIZE && 1 <= fec <= 255
    modifies v
    ensures v.Valid() && v.wire == old(v.wire) + Packets(sent) && v.data == old(v.data) + Kinds(sent)
    ensures |sent| == |BlocksOf(8 + |payload|, v.packetsize, fec)|
    ensures AsSplit(sent, BlocksOf(8 + |payload|, v.packetsize, fec), Blocksize(v.packetsize))
    ensures InBatches(batches, sent, BatchLimit(Blocksize(v.packetsize)))
    ensures info == FrameInfo(old(v.lowseq), old(v.ivCounter), frameIndex, timestamp, |sent|,
                              FecOf(8 + |payload|, v.packetsize, fec), v.minParity, Blocksize(v.packetsize))
    ensures FrameSent(sent, info, v.cipher)
    ensures Stamped(sent, v.cipher, frameIndex, timestamp) && AllRecover(sent, v.cipher, rs)
    ensures forall b <- sent :: b.dataShards <= |b.packets|
    ensures var frame := HeaderOf(latency, frameType, payload, v.packetsize) + payload;
      SamePayloads(Data(v.cipher, sent),
                   DataShards(Interleave(RAW_HEADER, PayloadSize(v.packetsize), frame), Blocksize(v.packetsize)))
    ensures forall arrived: seq<seq<Byte>> | multiset(arrived) == multiset(OnAir(v.cipher, sent)) ::
      VideoClient.ClientRead(arrived, PayloadSize(v.packetsize))
      == Some(HeaderOf(latency, frameType, payload, v.packetsize) + payload)
      <==> LastPayloadLen(8 + |payload|, PayloadSize(v.packetsize)) < 65536
           && FrameFits(8 + |payload|, v.packetsize, fec, v.minParity)
  {
    var sl, bs := PayloadSize(v.packetsize), Blocksize(v.packetsize);
    var header := HeaderOf(latency, frameType, payload, v.packetsize);
    ghost var data := header + payload;
    ghost var image := Interleave(RAW_HEADER, sl, data);

    var frame := ConcatAndInsert(RAW_HEADER, sl, header, payload);
    InterleaveLength(RAW_HEADER, sl, data);
    var blocks, fecUsed := SplitBlocks(frame.Length, bs, fec);
    info := FrameInfo(v.lowseq, v.ivCounter, frameIndex, timestamp, |blocks|, fecUsed, v.minParity, bs);

    NoBlocksYet(v.cipher, info, v.wire, image, bs);
    ghost var wire0, data0 := v.wire, v.data;
    sent, batches := SendBlocks(v, frame, blocks, frameIndex, timestamp, fec, fecUsed, rs, batched, info, image, |data|,
                                bs);
    v.data := v.data + Kinds(sent);
    RunGrows(wire0, data0, sent, info, v.cipher, v.wire, v.data);
    CounterRuns(v.cipher, 0, |wire0|, info.counter, |Packets(sent)|, v.ivCounter, |v.wire|);
    FrameFitsIff(sent, blocks, info, v.cipher, |data|, v.packetsize, fec);
    FrameStamped(sent, info, v.cipher);
    forall arrived: seq<seq<Byte>> | multiset(arrived) == multiset(OnAir(v.cipher, sent))
      ensures VideoClient.ClientRead(arrived, sl) == Some(data)
         <==> LastPayloadLen(8 + |payload|, sl) < 65536 && AllFieldsFit(sent)
    {
      ClientReassembles(v.cipher, sent, info, arrived, latency, frameType, payload, v.packetsize, data);
    }
  }

  /** Every packet of the frame opens to its frame index and time, every data packet to its flags, and what is
      authenticated is what it opens to. */
  ghost predicate Stamped(sent: seq<SentBlock>, c: Cipher, frameIndex: nat, timestamp: nat) {
    forall b, x :: 0 <= b < |sent| && 0 <= x < |sent[b].packets| ==>
      PacketStamped(sent[b].packets[x], c, x, sent[b].dataShards, frameIndex, timestamp)
  }

  ghost predicate PacketStamped(p: Packet, c: Cipher, x: nat, dataShards: nat, frameIndex: nat, timestamp: nat) {
    var plain := Opened(c, p);
    && |plain| >= RAW_HEADER && FrameFields(plain, frameIndex, timestamp)
    && (x < dataShards ==> FlagsOnWire(plain[FLAGS_AT], x, dataShards))
    && (c.Gcm? ==>
          p.prefix.EncPrefix? && p.prefix.frameNumber == frameIndex && p.prefix.tag == c.tag(p.prefix.iv, plain))
  }

  lemma FrameStamped(sent: seq<SentBlock>, f: FrameInfo, c: Cipher)
    requires FrameSent(sent, f, c)
    ensures Stamped(sent, c, f.frameIndex, f.timestamp)
  {
    forall b, x | 0 <= b < |sent| && 0 <= x < |sent[b].packets|
      ensures PacketStamped(sent[b].packets[x], c, x, sent[b].dataShards, f.frameIndex, f.timestamp)
    {
      assert BlockSent(sent, b, f, c);
      var before := |Packets(sent[..b])|;
      assert PacketAsSent(sent[b], x, f.bs, InfoOf(f, before, b), c, CounterAfter(c, f.counter, before));
    }
  }

  /** In every block, whichever packets are lost: as many as there are data packets give the payloads of those. */
  ghost predicate AllRecover(sent: seq<SentBlock>, c: Cipher, rs: Rs) {
    forall b <- sent :: LossesRecover(c, b, rs)
  }

  lemma RecoverAppend(sent: seq<SentBlock>, next: SentBlock, sent': seq<SentBlock>, c: Cipher, rs: Rs)
    requires AllRecover(sent, c, rs) && LossesRecover(c, next, rs) && sent' == sent + [next]
    ensures AllRecover(sent', c, rs)
  {
  }

  /** The next frame continues the numbers and the IV counter of the session. */
  lemma RunGrows(wire: seq<Packet>, data: seq<bool>, sent: seq<SentBlock>, f: FrameInfo, c: Cipher, wire': seq<Packet>,
                 data': seq<bool>)
    requires NumberedFrom(wire, c, 0, 0, data) && FrameSent(sent, f, c)
    requires f.lowseq == |wire| && f.counter == CounterAfter(c, 0, |wire|)
    requires wire' == wire + Packets(sent) && data' == data + Kinds(sent)
    ensures NumberedFrom(wire', c, 0, 0, data')
  {
    PacketsNumbered(sent, f, c);
    NumberedJoin(wire, Packets(sent), c, 0, 0, data, Kinds(sent), wire', data');
  }

  /** What is put in the fields fits them exactly when the size of the frame and the settings say so. */
  lemma FrameFitsIff(sent: seq<SentBlock>, blocks: seq<Block>, f: FrameInfo, c: Cipher, size: nat, packetsize: nat,
                     fec: nat)
    requires size > 0 && packetsize > NV_VIDEO_PACKET_SIZE && 1 <= fec <= 255
    requires blocks == BlocksOf(size, packetsize, fec) && |sent| == |blocks| && f.fec == FecOf(size, packetsize, fec)
    requires GoodSplit(blocks, PacketisedSize(size, packetsize), Blocksize(packetsize), fec, f.fec)
    requires FrameSent(sent, f, c) && AsSplit(sent, blocks, Blocksize(packetsize))
    ensures AllFieldsFit(sent) <==> FrameFits(size, packetsize, fec, f.minParity)
  {
    var bs := Blocksize(packetsize);
    forall b <- blocks ensures CeilDiv(b.length, bs) > 0 {
      CeilDivZero(b.length, bs);
    }
    SplitFitsIff(size, packetsize, fec, f.minParity, PacketisedSize(size, packetsize), bs, blocks);
    forall b | 0 <= b < |sent|
      ensures FieldsFit(sent[b]) <==> ShardsFit(CeilDiv(blocks[b].length, bs), f.fec, f.minParity)
    {
      assert BlockSent(sent, b, f, c) && blocks[b] in blocks;
    }
    AllOrNone(sent, blocks, bs, f.fec, f.minParity);
  }

  lemma AllOrNone(sent: seq<SentBlock>, blocks: seq<Block>, bs: nat, fec: nat, minParity: nat)
    requires bs > 0 && |sent| == |blocks| && forall b <- blocks :: CeilDiv(b.length, bs) > 0
    requires forall b :: 0 <= b < |sent| ==>
      (FieldsFit(sent[b]) <==> ShardsFit(CeilDiv(blocks[b].length, bs), fec, minParity))
    ensures AllFieldsFit(sent) <==> forall b <- blocks :: ShardsFit(CeilDiv(b.length, bs), fec, minParity)
  {
    if AllFieldsFit(sent) {
      forall b <- blocks ensures ShardsFit(CeilDiv(b.length, bs), fec, minParity) {
        var k :| 0 <= k < |blocks| && blocks[k] == b;
        assert FieldsFit(sent[k]);
      }
    } else {
      var s :| s in sent && !FieldsFit(s);
      var k :| 0 <= k < |sent| && sent[k] == s;
      assert blocks[k] in blocks;
    }
  }

  // ---- the client

  /** All packets of a frame as a client opens them. */
  function OnAir(c: Cipher, sent: seq<SentBlock>): seq<seq<Byte>> {
    if sent == [] then [] else OnAir(c, sent[..|sent| - 1]) + OpenedBlock(c, sent[|sent| - 1]).packets
  }

  function OpenedBlock(c: Cipher, b: SentBlock): VideoClient.Block {
    VideoClient.Block(b.dataShards, b.percentage,
                      seq(|b.packets|, x requires 0 <= x < |b.packets| => Opened(c, b.packets[x])))
  }

  function OpenedFrame(c: Cipher, sent: seq<SentBlock>): seq<VideoClient.Block> {
    seq(|sent|, b requires 0 <= b < |sent| => OpenedBlock(c, sent[b]))
  }

  /** What is put in the fields of a block fits them. */
  predicate FieldsFit(b: SentBlock) {
    |b.packets| <= 1024 && b.dataShards < 1024 && b.percentage < 256
  }

  predicate AllFieldsFit(sent: seq<SentBlock>) {
    forall b <- sent :: FieldsFit(b)
  }

  /** A block whose parity was not raised to a minimum fits. */
  lemma UsualBlockFits(b: SentBlock, bs: nat, i: BlockInfo, fec: nat, minParity: nat, c: Cipher, counter: nat)
    requires OnWire(b, bs, i, fec, minParity, c, counter) && fec < 256
    requires b.dataShards + ParityShards(b.dataShards, fec) <= DATA_SHARDS_MAX
    requires fec == 0 || minParity <= ParityShards(b.dataShards, fec)
    ensures FieldsFit(b)
  {
  }

  lemma {:induction false} SameFrame(c: Cipher, sent: seq<SentBlock>)
    requires forall b <- sent :: b.dataShards <= |b.packets|
    ensures VideoClient.Flat(OpenedFrame(c, sent)) == OnAir(c, sent)
    ensures forall k <- OpenedFrame(c, sent) :: k.data <= |k.packets|
    ensures VideoClient.SentData(OpenedFrame(c, sent)) == Data(c, sent)
  {
    if sent != [] {
      var front, last := sent[..|sent| - 1], sent[|sent| - 1];
      SameFrame(c, front);
      assert OpenedFrame(c, sent) == OpenedFrame(c, front) + [OpenedBlock(c, last)];
      assert OpenedFrame(c, sent)[..|front|] == OpenedFrame(c, front);
      assert OpenedBlock(c, last).packets[..last.dataShards] == OpenedData(c, last);
      assert sent == front + [last];
    }
  }

  lemma SameFields(c: Cipher, sent: seq<SentBlock>)
    ensures VideoClient.AllFit(OpenedFrame(c, sent)) <==> AllFieldsFit(sent)
  {
    var frame := OpenedFrame(c, sent);
    assert forall b :: 0 <= b < |sent| ==> frame[b] == OpenedBlock(c, sent[b]);
    if VideoClient.AllFit(frame) {
      forall s <- sent ensures FieldsFit(s) {
        var b :| 0 <= b < |sent| && sent[b] == s;
        assert VideoClient.Fits(frame[b]);
      }
    }
    if AllFieldsFit(sent) {
      forall k <- frame ensures VideoClient.Fits(k) {
        var b :| 0 <= b < |frame| && frame[b] == k;
        assert FieldsFit(sent[b]);
      }
    }
  }

  /** A packet says where it belongs. */
  lemma PacketCarries(b: SentBlock, x: nat, bs: nat, i: BlockInfo, c: Cipher, counter: nat)
    requires x < |b.packets| && PacketAsSent(b, x, bs, i, c, counter) && i.blockIndex < i.blocks <= 4
    ensures VideoClient.Carries(Opened(c, b.packets[x]), i.blockIndex, i.blocks, x, b.dataShards, b.percentage)
  {
    MultiFecBlocksDecodes(i);
  }

  lemma BlockOfFrameCarries(sent: seq<SentBlock>, b: nat, f: FrameInfo, c: Cipher)
    requires b < |sent| == f.blocks <= 4 && BlockSent(sent, b, f, c) && f.fec < 256
    ensures VideoClient.BlockCarries(OpenedBlock(c, sent[b]), b, |sent|)
  {
    var before := |Packets(sent[..b])|;
    forall x | 0 <= x < |sent[b].packets|
      ensures VideoClient.Carries(Opened(c, sent[b].packets[x]), b, |sent|, x, sent[b].dataShards, sent[b].percentage)
    {
      PacketCarries(sent[b], x, f.bs, InfoOf(f, before, b), c, CounterAfter(c, f.counter, before));
    }
    PercentageBound(sent[b].dataShards, f.fec, f.minParity);
  }

  lemma FrameOfBlocksCarries(sent: seq<SentBlock>, f: FrameInfo, c: Cipher)
    requires FrameSent(sent, f, c) && 0 < |sent| == f.blocks <= 4 && f.fec < 256
    ensures var frame := OpenedFrame(c, sent); frame != [] && VideoClient.FrameCarries(frame, |frame|)
  {
    forall b | 0 <= b < |sent| ensures VideoClient.BlockCarries(OpenedFrame(c, sent)[b], b, |sent|) {
      assert BlockSent(sent, b, f, c);
      BlockOfFrameCarries(sent, b, f, c);
    }
  }

  lemma PercentageBound(d: nat, fec: nat, minParity: nat)
    requires d > 0 && fec < 256
    ensures var (parity, percentage) := FecInfo.AdjustParity(d, fec, minParity);
      percentage < 256 || percentage <= 100 * parity
  {
    if minParity > 0 { QuotientAtMost(100 * minParity, d); }
  }

  lemma QuotientAtMost(n: nat, d: nat)
    requires d > 0
    ensures n / d <= n
  {
    DivParts(n, d);
    if n / d > 0 { ProductAtLeast(n / d, d); }
  }

  lemma ProductAtLeast(q: nat, d: nat)
    requires d > 0
    ensures q * d >= q
  {
    ProductAtMost(1, d, q, q);
  }

  /** The frame header and payload come back from the packets of the frame, in whatever order they arrive,
      however the frame was split, padded and encrypted, exactly when the length of the last payload fits its
      16 bits, every index and count ten and every percentage eight. */
  lemma ClientReassembles(c: Cipher, sent: seq<SentBlock>, f: FrameInfo, arrived: seq<seq<Byte>>, latency: nat,
                          frameType: Byte, payload: seq<Byte>, packetsize: nat, whole: seq<Byte>)
    requires packetsize > NV_VIDEO_PACKET_SIZE && whole == HeaderOf(latency, frameType, payload, packetsize) + payload
    requires FrameSent(sent, f, c) && 0 < |sent| == f.blocks <= 4 && f.fec < 256
    requires forall b <- sent :: b.dataShards <= |b.packets|
    requires SamePayloads(Data(c, sent),
                          DataShards(Interleave(RAW_HEADER, PayloadSize(packetsize), whole), Blocksize(packetsize)))
    requires multiset(arrived) == multiset(OnAir(c, sent))
    ensures VideoClient.ClientRead(arrived, PayloadSize(packetsize)) == Some(whole)
       <==> LastPayloadLen(8 + |payload|, PayloadSize(packetsize)) < 65536 && AllFieldsFit(sent)
  {
    var sl := PayloadSize(packetsize);
    FrameOfBlocksCarries(sent, f, c);
    SameFrame(c, sent);
    SameFields(c, sent);
    VideoClient.ReadsIff(OpenedFrame(c, sent), arrived, sl);
    DataReassembles(Data(c, sent), DataShards(Interleave(RAW_HEADER, sl, whole), RAW_HEADER + sl), latency, frameType,
                    payload, sl, whole);
  }

  lemma DataReassembles(data: seq<seq<Byte>>, shards: seq<seq<Byte>>, latency: nat, frameType: Byte, payload: seq<Byte>,
                        sl: nat, whole: seq<Byte>)
    requires sl > 0 && SamePayloads(data, shards)
    requires whole == FrameHeader(latency, frameType, LastPayloadField(8 + |payload|, sl)) + payload
    requires shards == DataShards(Interleave(RAW_HEADER, sl, whole), RAW_HEADER + sl)
    ensures ReassembleAny(data, sl) == whole <==> LastPayloadLen(8 + |payload|, sl) < 65536
  {
    SameStripped(data, shards);
    FrameReassembles(latency, frameType, payload, sl, data, shards, whole);
  }

  lemma SameStripped(a: seq<seq<Byte>>, b: seq<seq<Byte>>)
    requires SamePayloads(a, b)
    ensures (forall p <- a :: |p| >= RAW_HEADER) && (forall p <- b :: |p| >= RAW_HEADER) && Payloads(a) == Payloads(b)
  {
    forall p <- a ensures |p| >= RAW_HEADER {
      var k :| 0 <= k < |a| && a[k] == p;
    }
    forall p <- b ensures |p| >= RAW_HEADER {
      var k :| 0 <= k < |b| && b[k] == p;
    }
  }

  lemma NoBlocksYet(c: Cipher, info: FrameInfo, wire: seq<Packet>, image: seq<Byte>, bs: nat)
    requires bs > 0
    ensures FrameProgress([], info, c, wire, wire, info.lowseq, info.counter)
    ensures ImageProgress([], c, image, image, 0, bs)
  {
    CeilDivZero(0, bs);
    assert wire + Packets([]) == wire;
  }

  method SendBlocks(v: VideoStream, frame: array<Byte>, blocks: seq<Block>, frameIndex: nat, timestamp: nat, fec: nat,
                    fecUsed: nat, rs: Rs, batched: nat -> bool, ghost info: FrameInfo, ghost image: seq<Byte>,
                    ghost size: nat, bs: nat)
    returns (sent: seq<SentBlock>, batches: seq<seq<nat>>)
    requires Lawful(v.cipher) && RsLawful(rs) && 1 <= fec <= 255 && size > 0
    requires v.packetsize > NV_VIDEO_PACKET_SIZE && bs == Blocksize(v.packetsize)
    requires GoodSplit(blocks, |image|, bs, fec, fecUsed) && |image| == PacketisedSize(size, v.packetsize)
    requires info == FrameInfo(v.lowseq, v.ivCounter, frameIndex, timestamp, |blocks|, fecUsed, v.minParity, bs)
    requires FrameProgress([], info, v.cipher, v.wire, v.wire, v.lowseq, v.ivCounter)
    requires ImageProgress([], v.cipher, frame[..], image, 0, bs)
    modifies v`wire, v`lowseq, v`ivCounter, frame
    ensures |sent| == |blocks| && AsSplit(sent, blocks, bs) && InBatches(batches, sent, BatchLimit(bs))
    ensures AllRecover(sent, v.cipher, rs)
    ensures FrameProgress(sent, info, v.cipher, old(v.wire), v.wire, v.lowseq, v.ivCounter)
    ensures SamePayloads(Data(v.cipher, sent), DataShards(image, bs))
  {
    sent, batches := [], [];
    var lowseq: nat := v.lowseq;
    ghost var done: nat := 0;
    for b := 0 to |blocks|
      invariant SentUpTo(v, frame, sent, batches, b, blocks, lowseq, done, info, image, old(v.wire), bs, rs)
    {
      ghost var end := BlockEnd(blocks, |image|, size, v.packetsize, bs, fec, fecUsed, b, done);
      sent, batches, lowseq := SendNext(v, frame, blocks[b].offset, blocks[b].length, lowseq, b, blocks, frameIndex,
                                        timestamp, fecUsed, rs, batched, sent, batches, info, image, old(v.wire), bs,
                                        end);
      done := end;
    }
    v.lowseq := lowseq;
    assert image[..done] == image;
  }

  /** The first `b` blocks have been sent; `done` bytes of the frame are in them. */
  ghost predicate SentUpTo(v: VideoStream, frame: array<Byte>, sent: seq<SentBlock>, batches: seq<seq<nat>>, b: nat,
                           blocks: seq<Block>, lowseq: nat, done: nat, info: FrameInfo, image: seq<Byte>,
                           wire0: seq<Packet>, bs: nat, rs: Rs)
    reads v, frame
  {
    && |sent| == b <= |blocks| && Shaped(sent, batches, blocks, bs) && AllRecover(sent, v.cipher, rs)
    && FrameProgress(sent, info, v.cipher, wire0, v.wire, lowseq, v.ivCounter)
    && ImageProgress(sent, v.cipher, frame[..], image, done, bs)
    && done == if b < |blocks| then blocks[b].offset else |image|
  }

  /** Where block `b` ends, and what sending it needs to know. */
  lemma BlockEnd(blocks: seq<Block>, total: nat, size: nat, packetsize: nat, bs: nat, fec: nat, fecUsed: nat, b: nat,
                 done: nat)
    returns (end: nat)
    requires size > 0 && packetsize > NV_VIDEO_PACKET_SIZE && bs == Blocksize(packetsize) && 1 <= fec <= 255
    requires GoodSplit(blocks, total, bs, fec, fecUsed) && total == PacketisedSize(size, packetsize)
    requires b < |blocks| && done == blocks[b].offset
    ensures end == done + blocks[b].length <= total && blocks[b].length > 0 && done % bs == 0
    ensures end == if b + 1 < |blocks| then blocks[b + 1].offset else total
    ensures RoomForHeaders(blocks[b].length, bs)
    ensures fecUsed != 0 ==>
      CeilDiv(blocks[b].length, bs) + ParityShards(CeilDiv(blocks[b].length, bs), fecUsed) <= DATA_SHARDS_MAX
  {
    end := done + blocks[b].length;
    BlockInImage(blocks, total, bs, b);
    ImageHasRoom(size, packetsize, bs, total, done, blocks[b].length, b < |blocks| - 1);
    BlockHasParity(blocks, total, bs, fec, fecUsed, b);
  }

  ghost predicate Shaped(sent: seq<SentBlock>, batches: seq<seq<nat>>, blocks: seq<Block>, bs: nat) {
    bs > 0 && AsSplit(sent, blocks, bs) && InBatches(batches, sent, BatchLimit(bs))
  }

  lemma ShapedAppend(sent: seq<SentBlock>, batches: seq<seq<nat>>, blocks: seq<Block>, bs: nat, next: SentBlock,
                     more: seq<nat>)
    requires Shaped(sent, batches, blocks, bs) && |sent| < |blocks|
    requires next.dataShards == CeilDiv(blocks[|sent|].length, bs) && GoodBatches(more, BatchLimit(bs), |next.packets|)
    ensures Shaped(sent + [next], batches + [more], blocks, bs)
  {
  }

  ghost predicate FrameProgress(sent: seq<SentBlock>, info: FrameInfo, c: Cipher, wire0: seq<Packet>, wire: seq<Packet>,
                                lowseq: nat, counter: nat)
  {
    && FrameSent(sent, info, c)
    && (forall s <- sent :: s.dataShards <= |s.packets|)
    && wire == wire0 + Packets(sent)
    && lowseq == info.lowseq + |Packets(sent)|
    && counter == CounterAfter(c, info.counter, |Packets(sent)|)
  }

  ghost predicate ImageProgress(sent: seq<SentBlock>, c: Cipher, frame: seq<Byte>, image: seq<Byte>, done: nat, bs: nat)
    requires bs > 0 && forall s <- sent :: s.dataShards <= |s.packets|
  {
    && done <= |image| == |frame|
    && frame[done..] == image[done..]
    && SamePayloads(Data(c, sent), DataShards(image[..done], bs))
  }

  /** The next FEC block of a frame. */
  method SendNext(v: VideoStream, frame: array<Byte>, offset: nat, len: nat, lowseq: nat, b: nat, blocks: seq<Block>,
                  frameIndex: nat, timestamp: nat, fec: nat, rs: Rs, batched: nat -> bool, sent: seq<SentBlock>,
                  batches: seq<seq<nat>>, ghost info: FrameInfo, ghost image: seq<Byte>, ghost wire0: seq<Packet>,
                  bs: nat, ghost end: nat)
    returns (sent': seq<SentBlock>, batches': seq<seq<nat>>, lowseq': nat)
    requires Lawful(v.cipher) && bs > 0 && RsLawful(rs) && b == |sent| < |blocks| && len == blocks[b].length
    requires info == FrameInfo(info.lowseq, info.counter, frameIndex, timestamp, |blocks|, fec, v.minParity, bs)
    requires SentUpTo(v, frame, sent, batches, b, blocks, lowseq, offset, info, image, wire0, bs, rs)
    requires len > 0 && end == offset + len <= |image| && offset % bs == 0 && RoomForHeaders(len, bs)
    requires end == if b + 1 < |blocks| then blocks[b + 1].offset else |image|
    requires fec != 0 ==> CeilDiv(len, bs) + ParityShards(CeilDiv(len, bs), fec) <= DATA_SHARDS_MAX
    modifies v`wire, v`ivCounter, frame
    ensures SentUpTo(v, frame, sent', batches', b + 1, blocks, lowseq', end, info, image, wire0, bs, rs)
  {
    var i := BlockInfo(lowseq, frameIndex, timestamp, b, |blocks|);
    ghost var was, wire1, counter := frame[..], v.wire, v.ivCounter;
    PieceOfImage(was, image, offset, len);
    var next, nextBatches := v.SendFecBlock(frame, offset, len, bs, i, fec, rs, batched);
    sent', batches', lowseq' := sent + [next], batches + [nextBatches], lowseq + |next.packets|;
    CeilDivZero(len, bs);
    assert sent'[..b] == sent;
    SentAppend(sent, next, info, v.cipher);
    ShapedAppend(sent, batches, blocks, bs, next, nextBatches);
    RecoverAppend(sent, next, sent', v.cipher, rs);
    CounterAdds(v.cipher, info.counter, |Packets(sent)|, |next.packets|);
    NextBlock(image, bs, offset, len);
    SamePayloadsAppend(Data(v.cipher, sent), DataShards(image[..offset], bs), OpenedData(v.cipher, next),
                       DataShards(image[offset..offset + len], bs));
    AppendWire(wire0, Packets(sent), next.packets);
  }

  lemma AppendWire(wire0: seq<Packet>, a: seq<Packet>, b: seq<Packet>)
    ensures wire0 + a + b == wire0 + (a + b)
  {
  }

  lemma PieceOfImage(frame: seq<Byte>, image: seq<Byte>, offset: nat, len: nat)
    requires offset + len <= |image| == |frame| && frame[offset..] == image[offset..]
    ensures frame[offset..offset + len] == image[offset..offset + len]
    ensures frame[offset + len..] == image[offset + len..]
  {
    assert frame[offset..offset + len] == frame[offset..][..len];
    assert frame[offset + len..] == frame[offset..][len..];
    assert image[offset + len..] == image[offset..][len..];
  }

  lemma BlockInImage(blocks: seq<Block>, size: nat, bs: nat, b: nat)
    requires Contiguous(blocks, size) && b < |blocks|
    ensures blocks[b].offset + blocks[b].length <= size
    ensures b == |blocks| - 1 ==> blocks[b].offset + blocks[b].length == size
    decreases |blocks| - b
  {
    if b < |blocks| - 1 { BlockInImage(blocks, size, bs, b + 1); }
  }

  lemma BlockHasParity(blocks: seq<Block>, size: nat, bs: nat, fec: nat, fecUsed: nat, b: nat)
    requires bs > 0 && 1 <= fec <= 255 && GoodSplit(blocks, size, bs, fec, fecUsed) && b < |blocks|
    ensures fecUsed != 0 ==>
      CeilDiv(blocks[b].length, bs) + ParityShards(CeilDiv(blocks[b].length, bs), fecUsed) <= DATA_SHARDS_MAX
  {
  }

  // ---- numbering over a frame

  /** Which packets of a frame are data packets. */
  function Kinds(sent: seq<SentBlock>): (r: seq<bool>)
    ensures |r| == |Packets(sent)|
  {
    if sent == [] then [] else Kinds(sent[..|sent| - 1]) + BlockKinds(sent[|sent| - 1])
  }

  function BlockKinds(b: SentBlock): (r: seq<bool>)
    ensures |r| == |b.packets|
  {
    seq(|b.packets|, x => x < b.dataShards)
  }

  /** The packets of a frame, counted over all its blocks, carry the numbers and IVs from its first on. */
  lemma {:induction false} PacketsNumbered(sent: seq<SentBlock>, f: FrameInfo, c: Cipher)
    requires FrameSent(sent, f, c)
    ensures NumberedFrom(Packets(sent), c, f.lowseq, f.counter, Kinds(sent))
  {
    if sent != [] {
      var last := |sent| - 1;
      var front := sent[..last];
      forall b | 0 <= b < last ensures BlockSent(front, b, f, c) {
        assert front[..b] == sent[..b] && BlockSent(sent, b, f, c);
      }
      PacketsNumbered(front, f, c);
      assert BlockSent(sent, last, f, c);
      BlockNumbered(sent[last], f, |Packets(front)|, last, c);
      NumberedJoin(Packets(front), sent[last].packets, c, f.lowseq, f.counter, Kinds(front), BlockKinds(sent[last]),
                   Packets(sent), Kinds(sent));
    }
  }

  lemma BlockNumbered(b: SentBlock, f: FrameInfo, before: nat, n: nat, c: Cipher)
    requires forall x :: 0 <= x < |b.packets| ==>
      PacketAsSent(b, x, f.bs, InfoOf(f, before, n), c, CounterAfter(c, f.counter, before))
    ensures NumberedFrom(b.packets, c, f.lowseq + before, CounterAfter(c, f.counter, before), BlockKinds(b))
  {
    var counter := CounterAfter(c, f.counter, before);
    forall x | 0 <= x < |b.packets|
      ensures Numbered(b.packets[x], c, f.lowseq + before + x, CounterAfter(c, counter, x), BlockKinds(b)[x])
    {
      assert PacketAsSent(b, x, f.bs, InfoOf(f, before, n), c, counter);
      NumbersAgree(f.lowseq + before, x);
    }
  }
}
