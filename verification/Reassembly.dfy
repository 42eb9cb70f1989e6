/** What a client does with the packets of a frame, and that it gets the frame back. */
module Reassembly {
  import opened Bytes
  import opened Packetizer
  import opened FecEncode

  /** sizeof(video_packet_raw_t): RTP header, four reserved bytes, NV_VIDEO_PACKET. */
  const RAW_HEADER: nat := 32

  function Concat(parts: seq<seq<Byte>>): seq<Byte> {
    if parts == [] then [] else parts[0] + Concat(parts[1..])
  }

  lemma {:induction false} ConcatAppend(a: seq<seq<Byte>>, b: seq<seq<Byte>>)
    ensures Concat(a + b) == Concat(a) + Concat(b)
  {
    if a == [] {
      assert a + b == b;
    } else {
      ConcatAppend(a[1..], b);
      assert (a + b)[0] == a[0] && (a + b)[1..] == a[1..] + b;
      Associate(a[0], Concat(a[1..]), Concat(b));
    }
  }

  lemma Associate(a: seq<Byte>, b: seq<Byte>, c: seq<Byte>)
    ensures a + (b + c) == a + b + c
  {
  }

  /** The payload of each packet: everything after the packet header. */
  function Payloads(packets: seq<seq<Byte>>): (r: seq<seq<Byte>>)
    requires forall p <- packets :: |p| >= RAW_HEADER
    ensures |r| == |packets|
  {
    seq(|packets|, i requires 0 <= i < |packets| => packets[i][RAW_HEADER..])
  }

  /** The client joins the payloads of the data packets and cuts the last one to the length that the
      frame header, the first eight bytes, announces. */
  function Reassemble(packets: seq<seq<Byte>>, payloadSize: nat): seq<Byte>
    requires forall p <- packets :: |p| >= RAW_HEADER
  {
    Cut(Concat(Payloads(packets)), payloadSize)
  }

  /** Packets too short for a header make no frame. */
  function ReassembleAny(packets: seq<seq<Byte>>, payloadSize: nat): seq<Byte> {
    if forall p <- packets :: |p| >= RAW_HEADER then Reassemble(packets, payloadSize) else []
  }

  function Cut(all: seq<Byte>, payloadSize: nat): seq<Byte> {
    if |all| < 8 then []
    else
      var last := FromLittleEndian(all[4..6]);
      if last > payloadSize || payloadSize - last > |all| then all
      else all[..|all| - (payloadSize - last)]
  }

  /** Splitting at a packet boundary splits the packets. */
  lemma DataShardsAppend(a: seq<Byte>, b: seq<Byte>, bs: nat)
    requires bs > 0 && |a| % bs == 0
    ensures DataShards(a + b, bs) == DataShards(a, bs) + DataShards(b, bs)
  {
    var n := |a| / bs;
    DivParts(|a|, bs);
    var whole := a + b;
    CountAppend(n, bs, |b|);
    forall i | 0 <= i < n + CeilDiv(|b|, bs)
      ensures i * bs <= |whole|
      ensures ShardOf(whole, bs, i) == (DataShards(a, bs) + DataShards(b, bs))[i]
    {
      ShardInBlock(|whole|, bs, i);
      if i < n {
        StrideStep(bs, i, n);
        ShardInBlock(|a|, bs, i);
        assert whole[i * bs..i * bs + bs] == a[i * bs..i * bs + bs];
      } else {
        Distribute2(i, n, bs);
        ShardInBlock(|b|, bs, i - n);
        ShardShift(a, b, bs, i, n);
      }
    }
  }

  lemma ShardShift(a: seq<Byte>, b: seq<Byte>, bs: nat, i: nat, n: nat)
    requires i >= n && |a| == n * bs && i * bs == n * bs + (i - n) * bs && (i - n) * bs <= |b|
    ensures ShardOf(a + b, bs, i) == ShardOf(b, bs, i - n)
  {
    var off := (i - n) * bs;
    assert (a + b)[i * bs..] == b[off..];
    if off + bs <= |b| {
      assert (a + b)[i * bs..i * bs + bs] == b[off..off + bs];
    }
  }

  lemma CountAppend(n: nat, bs: nat, len: nat)
    requires bs > 0
    ensures CeilDiv(n * bs, bs) == n
    ensures CeilDiv(n * bs + len, bs) == n + CeilDiv(len, bs)
  {
    CeilDivWhole(n, bs);
    if len == 0 {
      CeilDivZero(0, bs);
    } else {
      var k, r := CeilDivParts(len, bs);
      assert n * bs + len == (n + k) * bs + r;
      CeilDivIs(n * bs + len, bs, n + k, r);
    }
  }

  /** Bytes of padding in the last packet. */
  function Padding(size: nat, sl: nat): nat
    requires sl > 0
  {
    (sl - size % sl) % sl
  }

  /** Stripping the packets of an interleaved frame gives the frame and the padding of its last packet. */
  lemma {:induction false} StripInterleaved(sl: nat, data: seq<Byte>)
    requires sl > 0
    ensures Concat(Payloads(DataShards(Interleave(RAW_HEADER, sl, data), RAW_HEADER + sl)))
         == data + Zeros(Padding(|data|, sl))
    decreases |data|
  {
    var bs := RAW_HEADER + sl;
    if data == [] {
      StripNothing(sl);
    } else if |data| <= sl {
      StripLast(sl, data);
    } else {
      var rest := Interleave(RAW_HEADER, sl, data[sl..]);
      StripInterleaved(sl, data[sl..]);
      WholeSlice(RAW_HEADER, sl, data);
      StripFirst(sl, data[..sl], rest);
      PaddingSkips(|data|, sl);
      JoinBack(data, sl, Zeros(Padding(|data|, sl)));
    }
  }

  lemma JoinBack(data: seq<Byte>, sl: nat, zeros: seq<Byte>)
    requires sl <= |data|
    ensures data[..sl] + (data[sl..] + zeros) == data + zeros
  {
  }

  lemma StripNothing(sl: nat)
    requires sl > 0
    ensures Concat(Payloads(DataShards([], RAW_HEADER + sl))) == [] + Zeros(Padding(0, sl))
  {
    CeilDivZero(0, RAW_HEADER + sl);
    DivModUnique(0, sl, 0, 0);
    DivModUnique(sl, sl, 1, 0);
  }

  lemma StripLast(sl: nat, data: seq<Byte>)
    requires 0 < |data| <= sl
    ensures Concat(Payloads(DataShards(Zeros(RAW_HEADER) + data, RAW_HEADER + sl))) == data + Zeros(Padding(|data|, sl))
  {
    var bs := RAW_HEADER + sl;
    var image := Zeros(RAW_HEADER) + data;
    PaddingOfLast(|data|, sl);
    CeilDivSmall(|image|, bs);
    SingleShard(image, bs);
    var only := image + Zeros(bs - |image|);
    ConcatOne(Payloads([only]), data + Zeros(sl - |data|));
  }

  lemma SingleShard(image: seq<Byte>, bs: nat)
    requires 0 < |image| <= bs
    ensures DataShards(image, bs) == [image + Zeros(bs - |image|)]
  {
    CeilDivSmall(|image|, bs);
    assert ShardOf(image, bs, 0) == image + Zeros(bs - |image|);
    assert DataShards(image, bs)[0] == ShardOf(image, bs, 0);
  }

  lemma ConcatOne(parts: seq<seq<Byte>>, part: seq<Byte>)
    requires |parts| == 1 && parts[0] == part
    ensures Concat(parts) == part
  {
    assert parts[1..] == [];
  }

  lemma StripFirst(sl: nat, slice: seq<Byte>, rest: seq<Byte>)
    requires sl > 0 && |slice| == sl
    ensures Concat(Payloads(DataShards(Zeros(RAW_HEADER) + slice + rest, RAW_HEADER + sl)))
         == slice + Concat(Payloads(DataShards(rest, RAW_HEADER + sl)))
  {
    var bs := RAW_HEADER + sl;
    var head := Zeros(RAW_HEADER) + slice;
    DivModUnique(|head|, bs, 1, 0);
    DataShardsAppend(head, rest, bs);
    SingleShard(head, bs);
    assert head + Zeros(0) == head;
    PayloadsAppend([head], DataShards(rest, bs));
    ConcatAppend(Payloads([head]), Payloads(DataShards(rest, bs)));
    ConcatOne(Payloads([head]), slice);
  }

  lemma PaddingOfLast(size: nat, sl: nat)
    requires 0 < size <= sl
    ensures Padding(size, sl) == sl - size
  {
    if size == sl {
      DivModUnique(size, sl, 1, 0);
      DivModUnique(sl, sl, 1, 0);
    } else {
      DivModUnique(size, sl, 0, size);
      DivModUnique(sl - size, sl, 0, sl - size);
    }
  }

  lemma PaddingSkips(size: nat, sl: nat)
    requires 0 < sl <= size
    ensures Padding(size, sl) == Padding(size - sl, sl)
  {
    DivModUnique(size, sl, (size - sl) / sl + 1, (size - sl) % sl);
  }

  lemma PayloadsAppend(a: seq<seq<Byte>>, b: seq<seq<Byte>>)
    requires (forall p <- a :: |p| >= RAW_HEADER) && (forall p <- b :: |p| >= RAW_HEADER)
    ensures forall p <- a + b :: |p| >= RAW_HEADER
    ensures Payloads(a + b) == Payloads(a) + Payloads(b)
  {
  }

  // ---- the frame header

  /** video_short_frame_header_t with type 1; lastPayloadLen is a 16-bit little-endian field. */
  function FrameHeader(latency: nat, frameType: Byte, lastPayloadLen: nat): (h: seq<Byte>)
    ensures |h| == 8
  {
    [1] + LittleEndian(2, latency) + [frameType] + LittleEndian(2, lastPayloadLen) + [0, 0]
  }

  /** What a client reads from it: the type of the header, two numbers modulo their 16 bits, the type of the frame,
      and nothing in the reserved bytes. */
  lemma HeaderRead(latency: nat, frameType: Byte, lastPayloadLen: nat)
    ensures var h := FrameHeader(latency, frameType, lastPayloadLen);
            && h[0] == 1 && h[3] == frameType && h[6] == h[7] == 0
            && FromLittleEndian(h[1..3]) == latency % 65536 && FromLittleEndian(h[4..6]) == lastPayloadLen % 65536
  {
    var h := FrameHeader(latency, frameType, lastPayloadLen);
    LittleEndianRoundTrip(2, latency);
    LittleEndianRoundTrip(2, lastPayloadLen);
    assert Pow256(2) == 65536;
    assert h[1..3] == LittleEndian(2, latency) && h[4..6] == LittleEndian(2, lastPayloadLen);
  }

  /** How much of a frame of `size` bytes is in its last packet. */
  function LastPayloadLen(size: nat, payloadSize: nat): nat
    requires payloadSize > 0
  {
    var last := size % payloadSize;
    if last == 0 then payloadSize else last
  }

  /** What the header says of it: the remainder goes into a 16-bit field, and what is zero there is replaced. */
  function LastPayloadField(size: nat, payloadSize: nat): (r: nat)
    requires payloadSize > 0
    ensures r < 65536
    ensures LastPayloadLen(size, payloadSize) < 65536 ==> r == LastPayloadLen(size, payloadSize)
  {
    var field := size % payloadSize % 65536;
    if field == 0 then payloadSize % 65536 else field
  }

  /** In packets of 70000 bytes a frame of 70000 bytes has a last payload too long for the field. Such packets
      are longer than a UDP datagram can be. */
  lemma LastPayloadCanBeTooLong()
    ensures LastPayloadLen(70000, 70000) == 70000 && LastPayloadField(70000, 70000) == 4464
  {
  }

  /** The end-to-end statement on values: whatever the packet headers say, the data packets of a frame
      reassemble to its header and payload exactly when the length of the last payload fits its 16 bits. */
  lemma FrameReassembles(latency: nat, frameType: Byte, payload: seq<Byte>, sl: nat, packets: seq<seq<Byte>>,
                         shards: seq<seq<Byte>>, whole: seq<Byte>)
    requires 0 < sl && whole == FrameHeader(latency, frameType, LastPayloadField(8 + |payload|, sl)) + payload
    requires shards == DataShards(Interleave(RAW_HEADER, sl, whole), RAW_HEADER + sl)
    requires (forall p <- packets :: |p| >= RAW_HEADER) && (forall p <- shards :: |p| >= RAW_HEADER)
    requires Payloads(packets) == Payloads(shards)
    ensures Reassemble(packets, sl) == whole <==> LastPayloadLen(8 + |payload|, sl) < 65536
  {
    var last := LastPayloadLen(8 + |payload|, sl);
    StripInterleaved(sl, whole);
    LastFits(8 + |payload|, sl);
    PaddingIsRest(|whole|, sl);
    var field := LastPayloadField(8 + |payload|, sl);
    CutIs(FrameHeader(latency, frameType, field), payload, whole, Concat(Payloads(packets)), sl, last, field);
  }

  lemma CutIs(header: seq<Byte>, payload: seq<Byte>, data: seq<Byte>, all: seq<Byte>, sl: nat, last: nat, field: nat)
    requires |header| == 8 && header[4..6] == LittleEndian(2, field) && data == header + payload
    requires last <= sl && last <= |data| && all == data + Zeros(sl - last)
    requires field < 65536 && (last < 65536 ==> field == last)
    ensures Cut(all, sl) == data <==> last < 65536
  {
    CutPadding(header, payload, all, sl - last, field);
    FieldReadsBack(field);
    if last >= 65536 { assert |Cut(all, sl)| < |data|; }
  }

  /** The last payload is never longer than a packet's, so it fits for every payload size below 65536. */
  lemma LastFits(size: nat, sl: nat)
    requires sl > 0 && size > 0
    ensures LastPayloadLen(size, sl) <= sl && LastPayloadLen(size, sl) <= size
  {
    if size < sl { DivModUnique(size, sl, 0, size); }
  }

  lemma CutPadding(header: seq<Byte>, payload: seq<Byte>, all: seq<Byte>, pad: nat, field: nat)
    requires |header| == 8 && header[4..6] == LittleEndian(2, field)
    requires all == header + payload + Zeros(pad)
    ensures all[4..6] == LittleEndian(2, field)
    ensures all[..|all| - pad] == header + payload
  {
  }

  lemma FieldReadsBack(field: nat)
    requires field < 65536
    ensures FromLittleEndian(LittleEndian(2, field)) == field
  {
    LittleEndianRoundTrip(2, field);
    assert Pow256(2) == 65536;
    DivModUnique(field, 65536, 0, field);
  }

  lemma PaddingIsRest(size: nat, sl: nat)
    requires sl > 0 && size > 0
    ensures Padding(size, sl) == sl - LastPayloadLen(size, sl)
  {
    var r := size % sl;
    if r == 0 { DivModUnique(sl, sl, 1, 0); } else { DivModUnique(sl - r, sl, 0, sl - r); }
  }
}
