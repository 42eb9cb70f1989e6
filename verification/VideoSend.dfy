/** The per-frame part of videoBroadcastThread (src/stream.cpp): packet headers, FEC blocks, in-place
    encryption and the batched or per-packet send. */
module VideoSend {
  import opened Bytes
  import opened Reassembly
  import FecInfo
  import GcmIv

  // Constants of the protocol's packet structures
  const MAX_RTP_HEADER_SIZE: nat := 16
  const NV_VIDEO_PACKET_SIZE: nat := 16
  const FLAG_CONTAINS_PIC_DATA: nat := 1
  const FLAG_EOF: nat := 2
  const FLAG_SOF: nat := 4
  const FLAG_EXTENSION: nat := 16

  const SEQUENCE_AT: nat := 2
  const TIMESTAMP_AT: nat := 4
  const STREAM_INDEX_AT: nat := 16
  const FRAME_INDEX_AT: nat := 20
  const FLAGS_AT: nat := 24
  const MULTI_FEC_FLAGS_AT: nat := 26
  const MULTI_FEC_BLOCKS_AT: nat := 27
  const FEC_INFO_AT: nat := 28

  /** In-place AES-GCM. Only its shape and that decryption undoes encryption are used. */
  datatype Cipher = Plain | Gcm(enc: (seq<Byte>, seq<Byte>) -> seq<Byte>, tag: (seq<Byte>, seq<Byte>) -> seq<Byte>,
                                dec: (seq<Byte>, seq<Byte>) -> seq<Byte>)

  ghost predicate Lawful(c: Cipher) {
    c.Gcm? ==> forall iv: seq<Byte>, b: seq<Byte> :: |c.enc(iv, b)| == |b| && c.dec(iv, c.enc(iv, b)) == b
  }

  datatype Prefix = NoPrefix | EncPrefix(iv: seq<Byte>, frameNumber: nat, tag: seq<Byte>)
  datatype Packet = Packet(prefix: Prefix, bytes: seq<Byte>)

  /** What the client reads once it has decrypted a packet. */
  function Opened(c: Cipher, p: Packet): seq<Byte> {
    if c.Gcm? && p.prefix.EncPrefix? then c.dec(p.prefix.iv, p.bytes) else p.bytes
  }

  /** What is fixed for one FEC block: position in the frame, counters and header fields. */
  datatype BlockInfo = BlockInfo(lowseq: nat, frameIndex: nat, timestamp: nat, blockIndex: nat, blocks: nat)

  function MultiFecBlocks(i: BlockInfo): Byte {
    FecInfo.BitOr(i.blockIndex * 16, (if i.blocks == 0 then 0 else i.blocks - 1) * 64) % 256
  }

  /** Block index and block count are read back from their two bits each. */
  lemma MultiFecBlocksDecodes(i: BlockInfo)
    requires i.blockIndex < i.blocks <= 4
    ensures MultiFecBlocks(i) / 16 % 4 == i.blockIndex && MultiFecBlocks(i) / 64 + 1 == i.blocks
  {
    BlocksSum(i.blockIndex, i.blocks - 1);
    TwoBits(i.blockIndex, i.blocks - 1);
  }

  lemma BlocksSum(k: nat, n: nat)
    requires k < 4
    ensures FecInfo.BitOr(k * 16, n * 64) == n * 64 + k * 16
  {
    FecInfo.Pow2Values();
    FecInfo.OrCommutes(k * 16, n * 64);
    FecInfo.OrShifted(n, 6, 64, k * 16);
  }

  lemma TwoBits(k: nat, n: nat)
    requires k < 4 && n < 4
    ensures var v := (n * 64 + k * 16) % 256; v / 16 % 4 == k && v / 64 == n
  {
  }

  function StreamIndex(lowseq: nat, x: nat): nat {
    (lowseq + x) % FecInfo.TWO_32 * 256 % FecInfo.TWO_32
  }

  function NvFlags(x: nat, packets: nat): Byte {
    FLAG_CONTAINS_PIC_DATA + (if x == 0 then FLAG_SOF else 0) + (if x + 1 == packets then FLAG_EOF else 0)
  }

  /** The header of data packet `x` before the parity is computed. */
  function NvHeader(h: seq<Byte>, i: BlockInfo, x: nat, packets: nat): (r: seq<Byte>)
    requires |h| == RAW_HEADER
    ensures |r| == RAW_HEADER
  {
    h[..STREAM_INDEX_AT] + LittleEndian(4, StreamIndex(i.lowseq, x)) + LittleEndian(4, i.frameIndex)
    + [NvFlags(x, packets)] + [h[25]] + [0x10] + [MultiFecBlocks(i)] + h[FEC_INFO_AT..]
  }

  /** The header of shard `x`, data or parity, as it is sent. */
  function SendHeader(h: seq<Byte>, i: BlockInfo, x: nat, dataShards: nat, percentage: nat): (r: seq<Byte>)
    requires |h| == RAW_HEADER
    ensures |r| == RAW_HEADER
  {
    [128 + FLAG_EXTENSION] + [h[1]] + BigEndian16(i.lowseq + x) + BigEndian32(i.timestamp) + h[8..FRAME_INDEX_AT]
    + LittleEndian(4, i.frameIndex) + h[FLAGS_AT..MULTI_FEC_BLOCKS_AT] + [MultiFecBlocks(i)]
    + LittleEndian(4, FecInfo.FecInfo(x, dataShards, percentage))
  }

  function SendShard(s: seq<Byte>, i: BlockInfo, x: nat, dataShards: nat, percentage: nat): (r: seq<Byte>)
    requires |s| >= RAW_HEADER
    ensures |r| == |s| && r[RAW_HEADER..] == s[RAW_HEADER..]
  {
    SendHeader(s[..RAW_HEADER], i, x, dataShards, percentage) + s[RAW_HEADER..]
  }

  /** Shard `x` of a block as a packet on the wire; the video IV counter starts at `counter`. */
  function PacketOf(s: seq<Byte>, i: BlockInfo, x: nat, dataShards: nat, percentage: nat, c: Cipher,
                    counter: nat): Packet
    requires |s| >= RAW_HEADER
  {
    var plain := SendShard(s, i, x, dataShards, percentage);
    if c.Plain? then Packet(NoPrefix, plain)
    else
      var iv := GcmIv.VideoIv(GcmIv.After(counter, GcmIv.TWO_64, x));
      Packet(EncPrefix(iv, i.frameIndex, c.tag(iv, plain)), c.enc(iv, plain))
  }

  // ---- header writes

  /** Writing into a header in place is writing the changed header. */
  lemma PatchInside(was: seq<Byte>, at: nat, h: seq<Byte>, sub: nat, b: seq<Byte>)
    requires sub + |b| <= |h| && at + |h| <= |was|
    ensures Patch(Patch(was, at, h), at + sub, b) == Patch(was, at, Patch(h, sub, b))
  {
  }

  /** Writes one field of a packet header; `h` is the header so far, `was` the memory before it. */
  method StoreField(buf: array<Byte>, at: nat, sub: nat, b: seq<Byte>, ghost was: seq<Byte>, ghost h: seq<Byte>)
    requires |h| == RAW_HEADER && sub + |b| <= RAW_HEADER && at + RAW_HEADER <= buf.Length == |was|
    requires buf[..] == Patch(was, at, h)
    modifies buf
    ensures buf[..] == Patch(was, at, Patch(h, sub, b))
  {
    ghost var now := buf[..];
    Store(buf, at + sub, b);
    FieldPatched(was, at, h, sub, b, now, buf[..]);
  }

  lemma FieldPatched(was: seq<Byte>, at: nat, h: seq<Byte>, sub: nat, b: seq<Byte>, now: seq<Byte>, next: seq<Byte>)
    requires sub + |b| <= |h| && at + |h| <= |was| && now == Patch(was, at, h) && next == Patch(now, at + sub, b)
    ensures next == Patch(was, at, Patch(h, sub, b))
  {
    PatchInside(was, at, h, sub, b);
  }

  method StampNv(frame: array<Byte>, at: nat, i: BlockInfo, x: nat, packets: nat)
    requires at + RAW_HEADER <= frame.Length
    modifies frame
    ensures frame[..] == Patch(old(frame[..]), at, NvHeader(old(frame[at..at + RAW_HEADER]), i, x, packets))
  {
    ghost var was, h := frame[..], frame[at..at + RAW_HEADER];
    assert Patch(was, at, h) == was;
    var frameIndex := LittleEndian(4, i.frameIndex);
    var streamIndex := LittleEndian(4, StreamIndex(i.lowseq, x));
    var blocks, flags := [MultiFecBlocks(i)], [NvFlags(x, packets)];
    StoreField(frame, at, FRAME_INDEX_AT, frameIndex, was, h);
    h := Patch(h, FRAME_INDEX_AT, frameIndex);
    StoreField(frame, at, STREAM_INDEX_AT, streamIndex, was, h);
    h := Patch(h, STREAM_INDEX_AT, streamIndex);
    StoreField(frame, at, MULTI_FEC_FLAGS_AT, [0x10], was, h);
    h := Patch(h, MULTI_FEC_FLAGS_AT, [0x10]);
    StoreField(frame, at, MULTI_FEC_BLOCKS_AT, blocks, was, h);
    h := Patch(h, MULTI_FEC_BLOCKS_AT, blocks);
    StoreField(frame, at, FLAGS_AT, flags, was, h);
    NvStores(was[at..at + RAW_HEADER], i, x, packets);
  }

  lemma NvStores(h: seq<Byte>, i: BlockInfo, x: nat, packets: nat)
    requires |h| == RAW_HEADER
    ensures Patch(Patch(Patch(Patch(Patch(h, FRAME_INDEX_AT, LittleEndian(4, i.frameIndex)),
              STREAM_INDEX_AT, LittleEndian(4, StreamIndex(i.lowseq, x))), MULTI_FEC_FLAGS_AT, [0x10]),
              MULTI_FEC_BLOCKS_AT, [MultiFecBlocks(i)]), FLAGS_AT, [NvFlags(x, packets)])
         == NvHeader(h, i, x, packets)
  {
    StoresInOrder(h, LittleEndian(4, i.frameIndex), LittleEndian(4, StreamIndex(i.lowseq, x)), [0x10],
                  [MultiFecBlocks(i)], [NvFlags(x, packets)]);
  }

  lemma StoresInOrder(h: seq<Byte>, frameIndex: seq<Byte>, streamIndex: seq<Byte>, fecFlags: seq<Byte>,
                      blocks: seq<Byte>, flags: seq<Byte>)
    requires |h| == RAW_HEADER && |frameIndex| == |streamIndex| == 4 && |fecFlags| == |blocks| == |flags| == 1
    ensures Patch(Patch(Patch(Patch(Patch(h, FRAME_INDEX_AT, frameIndex), STREAM_INDEX_AT, streamIndex),
              MULTI_FEC_FLAGS_AT, fecFlags), MULTI_FEC_BLOCKS_AT, blocks), FLAGS_AT, flags)
         == h[..STREAM_INDEX_AT] + streamIndex + frameIndex + flags + [h[25]] + fecFlags + blocks + h[FEC_INFO_AT..]
  {
  }

  method StampSend(buf: array<Byte>, at: nat, i: BlockInfo, x: nat, dataShards: nat, percentage: nat)
    requires at + RAW_HEADER <= buf.Length
    modifies buf
    ensures buf[..] == Patch(old(buf[..]), at, SendHeader(old(buf[at..at + RAW_HEADER]), i, x, dataShards, percentage))
  {
    ghost var was, h := buf[..], buf[at..at + RAW_HEADER];
    assert Patch(was, at, h) == was;
    var info := LittleEndian(4, FecInfo.FecInfo(x, dataShards, percentage));
    var first, number, time := [128 + FLAG_EXTENSION], BigEndian16(i.lowseq + x), BigEndian32(i.timestamp);
    var blocks, frameIndex := [MultiFecBlocks(i)], LittleEndian(4, i.frameIndex);
    StoreField(buf, at, FEC_INFO_AT, info, was, h);
    h := Patch(h, FEC_INFO_AT, info);
    StoreField(buf, at, 0, first, was, h);
    h := Patch(h, 0, first);
    StoreField(buf, at, SEQUENCE_AT, number, was, h);
    h := Patch(h, SEQUENCE_AT, number);
    StoreField(buf, at, TIMESTAMP_AT, time, was, h);
    h := Patch(h, TIMESTAMP_AT, time);
    StoreField(buf, at, MULTI_FEC_BLOCKS_AT, blocks, was, h);
    h := Patch(h, MULTI_FEC_BLOCKS_AT, blocks);
    StoreField(buf, at, FRAME_INDEX_AT, frameIndex, was, h);
    SendStores(was[at..at + RAW_HEADER], info, first, number, time, blocks, frameIndex);
  }

  lemma SendStores(h: seq<Byte>, info: seq<Byte>, first: seq<Byte>, number: seq<Byte>, time: seq<Byte>,
                   blocks: seq<Byte>, frameIndex: seq<Byte>)
    requires |h| == RAW_HEADER && |info| == |time| == |frameIndex| == 4
    requires |first| == |blocks| == 1 && |number| == 2
    ensures Patch(Patch(Patch(Patch(Patch(Patch(h, FEC_INFO_AT, info), 0, first), SEQUENCE_AT, number),
              TIMESTAMP_AT, time), MULTI_FEC_BLOCKS_AT, blocks), FRAME_INDEX_AT, frameIndex)
         == first + [h[1]] + number + time + h[8..FRAME_INDEX_AT] + frameIndex + h[FLAGS_AT..MULTI_FEC_BLOCKS_AT]
            + blocks + info
  {
  }
}
