/** The video stream of one session: FEC blocks stamped, encoded and sent, frame by frame (src/stream.cpp). */
module VideoThread {
  import opened Bytes
  import opened Packetizer
  import opened FecEncode
  import opened ReedSolomon
  import opened Reassembly
  import opened VideoNumbers
  import opened VideoSend
  import Pacing
  import FecInfo
  import GcmIv

  function NvShard(s: seq<Byte>, i: BlockInfo, x: nat, packets: nat): (r: seq<Byte>)
    requires |s| >= RAW_HEADER
    ensures |r| == |s| && r[RAW_HEADER..] == s[RAW_HEADER..]
  {
    NvHeader(s[..RAW_HEADER], i, x, packets) + s[RAW_HEADER..]
  }

  /** A header written into packet `x` of a block replaces the header of data shard `x` and nothing else. */
  lemma HeaderInShard(block: seq<Byte>, bs: nat, x: nat, h: seq<Byte>, y: nat, block': seq<Byte>)
    requires bs >= RAW_HEADER == |h|
    requires x < CeilDiv(|block|, bs) && y < CeilDiv(|block|, bs) && x * bs + RAW_HEADER <= |block|
    requires block' == Patch(block, x * bs, h)
    ensures DataShards(block', bs)[y]
         == if y == x then h + DataShards(block, bs)[y][RAW_HEADER..] else DataShards(block, bs)[y]
    ensures DataShards(block, bs)[x][..RAW_HEADER] == block[x * bs..x * bs + RAW_HEADER]
  {
    DataShardIs(block, bs, x);
    DataShardIs(block, bs, y);
    DataShardIs(block', bs, y);
    ShardsApart(bs, x, y);
    HeaderInShardOf(block, bs, x, h, y);
    HeadOfShard(block, bs, x);
  }

  lemma DataShardIs(block: seq<Byte>, bs: nat, x: nat)
    requires bs > 0 && x < CeilDiv(|block|, bs)
    ensures x * bs <= |block| && DataShards(block, bs)[x] == ShardOf(block, bs, x)
  {
    ShardInBlock(|block|, bs, x);
  }

  lemma ShardsApart(bs: nat, x: nat, y: nat)
    ensures y < x ==> y * bs + bs <= x * bs
    ensures x < y ==> x * bs + bs <= y * bs
  {
    if y < x { StrideStep(bs, y, x); }
    if x < y { StrideStep(bs, x, y); }
  }

  lemma HeadOfShard(block: seq<Byte>, bs: nat, x: nat)
    requires bs >= RAW_HEADER && x * bs + RAW_HEADER <= |block|
    ensures ShardOf(block, bs, x)[..RAW_HEADER] == block[x * bs..x * bs + RAW_HEADER]
  {
    var at := x * bs;
    if at + bs <= |block| { SliceOfSlice(block, at, at + bs, 0, RAW_HEADER); }
  }

  lemma HeaderInShardOf(block: seq<Byte>, bs: nat, x: nat, h: seq<Byte>, y: nat)
    requires bs >= RAW_HEADER == |h| && x * bs + RAW_HEADER <= |block| && y * bs <= |block|
    requires y < x ==> y * bs + bs <= x * bs
    requires x < y ==> x * bs + bs <= y * bs
    ensures ShardOf(Patch(block, x * bs, h), bs, y)
         == if y == x then h + ShardOf(block, bs, y)[RAW_HEADER..] else ShardOf(block, bs, y)
  {
    var at, from := x * bs, y * bs;
    if y == x { PatchedShard(block, bs, at, h); } else { OtherShard(block, bs, at, from, h); }
  }

  lemma PatchedShard(block: seq<Byte>, bs: nat, at: nat, h: seq<Byte>)
    requires bs >= RAW_HEADER == |h| && at + RAW_HEADER <= |block|
    ensures ShardFrom(Patch(block, at, h), bs, at) == h + ShardFrom(block, bs, at)[RAW_HEADER..]
  {
  }

  lemma OtherShard(block: seq<Byte>, bs: nat, at: nat, from: nat, h: seq<Byte>)
    requires bs >= RAW_HEADER == |h| && at + RAW_HEADER <= |block| && from <= |block|
    requires from + bs <= at || at + bs <= from
    ensures ShardFrom(Patch(block, at, h), bs, from) == ShardFrom(block, bs, from)
  {
  }

  /** Every packet of the block has room for its header, also a short last one. */
  predicate RoomForHeaders(len: nat, bs: nat)
    requires bs > 0
  {
    bs >= RAW_HEADER && (len % bs == 0 || len % bs >= RAW_HEADER)
  }

  lemma HeaderFits(len: nat, bs: nat, x: nat)
    requires bs > 0 && RoomForHeaders(len, bs) && x < CeilDiv(len, bs)
    ensures 0 <= x * bs && x * bs + RAW_HEADER <= len
  {
    ShardInBlock(len, bs, x);
    DivParts(len, bs);
    if x >= len / bs {
      assert x == len / bs;
    }
  }

  ghost predicate StampedUpTo(now: seq<seq<Byte>>, was: seq<seq<Byte>>, i: BlockInfo, x: nat)
    requires |now| == |was| && forall s <- was :: |s| >= RAW_HEADER
  {
    forall y :: 0 <= y < |now| ==> now[y] == if y < x then NvShard(was[y], i, y, |was|) else was[y]
  }

  /** The first `x` packets of the block have their headers. */
  ghost predicate StampedBlock(block: seq<Byte>, len: nat, bs: nat, shards: seq<seq<Byte>>, i: BlockInfo, x: nat)
    requires bs > 0
  {
    && |block| == len && |shards| == CeilDiv(len, bs) == |DataShards(block, bs)|
    && (forall s <- shards :: |s| >= RAW_HEADER) && StampedUpTo(DataShards(block, bs), shards, i, x)
  }

  /** The header of every packet of the block is written in place, before the parity is computed. */
  method StampBlock(frame: array<Byte>, base: nat, len: nat, bs: nat, i: BlockInfo)
    requires bs > 0 && base + len <= frame.Length && RoomForHeaders(len, bs)
    modifies frame
    ensures var was, now := DataShards(old(frame[base..base + len]), bs), DataShards(frame[base..base + len], bs);
            StampedUpTo(now, was, i, |was|)
    ensures frame[base + len..] == old(frame[base + len..])
  {
    var n := CeilDiv(len, bs);
    ghost var shards := DataShards(frame[base..base + len], bs);
    ghost var rest := frame[base + len..];
    for x := 0 to n
      invariant frame[base + len..] == rest
      invariant StampedBlock(frame[base..base + len], len, bs, shards, i, x)
    {
      HeaderFits(len, bs, x);
      StampPacket(frame, base, len, bs, i, x, n, x * bs, shards);
    }
  }

  method StampPacket(frame: array<Byte>, base: nat, len: nat, bs: nat, i: BlockInfo, x: nat, n: nat, at: nat,
                     ghost shards: seq<seq<Byte>>)
    requires bs >= RAW_HEADER && base + len <= frame.Length && x < n == |shards| && at == x * bs
        && at + RAW_HEADER <= len
    requires StampedBlock(frame[base..base + len], len, bs, shards, i, x)
    modifies frame
    ensures StampedBlock(frame[base..base + len], len, bs, shards, i, x + 1)
    ensures frame[base + len..] == old(frame[base + len..])
  {
    ghost var block := frame[base..base + len];
    ghost var head, h := StoreHeader(frame, base, len, i, x, n, at, block);
    StampShards(block, frame[base..base + len], len, bs, i, x, at, shards, head, h);
  }

  method StoreHeader(frame: array<Byte>, base: nat, len: nat, i: BlockInfo, x: nat, n: nat, at: nat,
                     ghost block: seq<Byte>)
    returns (ghost head: seq<Byte>, ghost h: seq<Byte>)
    requires base + len <= frame.Length && at + RAW_HEADER <= len && block == frame[base..base + len]
    modifies frame
    ensures head == block[at..at + RAW_HEADER] && h == NvHeader(head, i, x, n)
    ensures frame[base..base + len] == Patch(block, at, h)
    ensures frame[base + len..] == old(frame[base + len..])
  {
    ghost var was, rest := frame[..], frame[base + len..];
    SlicesOfArray(frame, base, base + len, base + at);
    head := frame[base + at..base + at + RAW_HEADER];
    h := NvHeader(head, i, x, n);
    StampAt(frame, base + at, i, x, n, was, h);
    ghost var m', block', rest' := frame[..], frame[base..base + len], frame[base + len..];
    SlicesOfArray(frame, base, base + len, base + at);
    BlockStored(was, m', base, len, at, h, head, block, block', rest, rest');
  }

  method StampAt(frame: array<Byte>, at: nat, i: BlockInfo, x: nat, n: nat, ghost was: seq<Byte>, ghost h: seq<Byte>)
    requires at + RAW_HEADER <= frame.Length && was == frame[..]
    requires h == NvHeader(frame[at..at + RAW_HEADER], i, x, n)
    modifies frame
    ensures frame[..] == Patch(was, at, h)
  {
    StampNv(frame, at, i, x, n);
  }

  lemma SlicesOfArray(a: array<Byte>, base: nat, end: nat, at: nat)
    requires base <= at && at + RAW_HEADER <= end <= a.Length
    ensures a[base..end] == a[..][base..end] && a[end..] == a[..][end..]
    ensures a[at..at + RAW_HEADER] == a[..][at..at + RAW_HEADER]
  {
  }

  /** A header written in the frame is written in the block. */
  lemma BlockStored(m: seq<Byte>, m': seq<Byte>, base: nat, len: nat, at: nat, h: seq<Byte>, head: seq<Byte>,
                    block: seq<Byte>, block': seq<Byte>, rest: seq<Byte>, rest': seq<Byte>)
    requires base + len <= |m| && at + RAW_HEADER <= len && |h| == RAW_HEADER && m' == Patch(m, base + at, h)
    requires block == m[base..base + len] && block' == m'[base..base + len]
    requires rest == m[base + len..] && rest' == m'[base + len..]
    requires head == m[base + at..base + at + RAW_HEADER]
    ensures rest' == rest && block' == Patch(block, at, h) && head == block[at..at + RAW_HEADER]
  {
    SliceOfSlice(m, base, base + len, at, at + RAW_HEADER);
    PatchInside(m, base, len, at, h);
  }

  /** One header more, shard by shard. */
  lemma StampShards(block: seq<Byte>, block': seq<Byte>, len: nat, bs: nat, i: BlockInfo, x: nat, at: nat,
                    shards: seq<seq<Byte>>, head: seq<Byte>, h: seq<Byte>)
    requires bs >= RAW_HEADER && StampedBlock(block, len, bs, shards, i, x)
    requires x < |shards| && at == x * bs && at + RAW_HEADER <= len
    requires head == block[at..at + RAW_HEADER] && h == NvHeader(head, i, x, |shards|) && block' == Patch(block, at, h)
    ensures StampedBlock(block', len, bs, shards, i, x + 1)
  {
    var now, next := DataShards(block, bs), DataShards(block', bs);
    forall y | 0 <= y < |shards|
      ensures next[y] == if y < x + 1 then NvShard(shards[y], i, y, |shards|) else shards[y]
    {
      HeaderInShard(block, bs, x, h, y, block');
      StampOne(now[y], shards[y], next[y], i, x, y, |shards|, h);
    }
  }

  lemma StampOne(now: seq<Byte>, was: seq<Byte>, next: seq<Byte>, i: BlockInfo, x: nat, y: nat, n: nat, h: seq<Byte>)
    requires |was| >= RAW_HEADER && |now| >= RAW_HEADER && now == if y < x then NvShard(was, i, y, n) else was
    requires y == x ==> h == NvHeader(now[..RAW_HEADER], i, x, n)
    requires next == if y == x then h + now[RAW_HEADER..] else now
    ensures next == if y < x + 1 then NvShard(was, i, y, n) else was
  {
  }

  lemma PatchInside(m: seq<Byte>, base: nat, len: nat, off: nat, h: seq<Byte>)
    requires base + len <= |m| && off + |h| <= len
    ensures Patch(m, base + off, h)[base..base + len] == Patch(m[base..base + len], off, h)
    ensures Patch(m, base + off, h)[base + len..] == m[base + len..]
  {
  }

  // ---- sending one block

  /** The block `shards` on the wire, first `n` packets. */
  function PacketsOf(shards: seq<seq<Byte>>, n: nat, i: BlockInfo, dataShards: nat, percentage: nat, c: Cipher,
                     counter: nat): (r: seq<Packet>)
    requires n <= |shards| && forall s <- shards :: |s| >= RAW_HEADER
    ensures |r| == n
  {
    seq(n, x requires 0 <= x < n => PacketOf(shards[x], i, x, dataShards, percentage, c, counter))
  }

  /** Names an index. `Describes` states its packets only for named ones, which keeps proofs about the
      order of packets from unfolding what is in them. */
  predicate Index(x: int) { true }

  ghost predicate Describes(packets: seq<Packet>, shards: seq<seq<Byte>>, i: BlockInfo, dataShards: nat,
                            percentage: nat, c: Cipher, counter: nat)
  {
    && |packets| == |shards|
    && forall x {:trigger Index(x)} :: Index(x) && 0 <= x < |shards| ==>
         |shards[x]| >= RAW_HEADER && packets[x] == PacketOf(shards[x], i, x, dataShards, percentage, c, counter)
  }

  /** Shards of one size, again for named indices only. */
  predicate AllSized(shards: seq<seq<Byte>>, bs: nat) {
    forall x {:trigger Index(x)} :: Index(x) && 0 <= x < |shards| ==> |shards[x]| == bs
  }

  function BatchLimit(bs: nat): nat
    requires bs > 0
  {
    if 64 * 1024 / bs < 64 then 64 * 1024 / bs else 64
  }

  /** At most 64 packets and at most 64 KiB, and as many as these allow. */
  lemma BatchLimitIs(bs: nat)
    requires bs > 0
    ensures BatchLimit(bs) <= 64 && BatchLimit(bs) * bs <= 65536
    ensures BatchLimit(bs) == 64 || (BatchLimit(bs) + 1) * bs > 65536
  {
    var q := 65536 / bs;
    DivParts(65536, bs);
    NextMultiple(q, bs);
    if q >= 64 { ProductAtMost(64, q, bs, bs); }
  }

  /** A packet larger than the limit still leaves, alone. */
  function Largest(limit: nat): nat { if limit == 0 then 1 else limit }

  /** All `total` packets, in batches of which only the last can be smaller than the limit. */
  ghost predicate GoodBatches(batches: seq<nat>, limit: nat, total: nat) {
    && Pacing.Sum(batches) == total
    && (forall b <- batches :: 1 <= b <= Largest(limit))
    && Full(batches, |batches| - 1, limit)
  }

  /** The batches so far; while more are to come, all are as large as can be. */
  ghost predicate Batching(batches: seq<nat>, limit: nat, total: nat, more: bool) {
    GoodBatches(batches, limit, total) && (more ==> Full(batches, |batches|, limit))
  }

  /** The first `n` batches are as large as can be. */
  predicate Full(batches: seq<nat>, n: int, limit: nat) {
    forall k :: 0 <= k < n && k < |batches| ==> batches[k] == Largest(limit)
  }

  /** Memory after `x` shards have been finished in place. */
  ghost predicate FinishedUpTo(frame: seq<Byte>, shardMem: seq<Byte>, l: Layout, shards: seq<seq<Byte>>,
                               packets: seq<Packet>, x: nat)
    requires x <= |packets| == |shards|
  {
    && l.Fits(|frame|, |shardMem|) && |shards| == l.Count()
    && (forall y {:trigger Index(y)} :: Index(y) && 0 <= y < |shards| ==>
          && InBounds(|frame|, |shardMem|, l.Place(y), l.bs)
          && Load(frame, shardMem, l.Place(y), l.bs) == if y < x then packets[y].bytes else shards[y])
  }

  /** The shards as they were encoded. */
  ghost predicate InPlace(frame: seq<Byte>, shardMem: seq<Byte>, l: Layout, shards: seq<seq<Byte>>) {
    && l.Fits(|frame|, |shardMem|) && |shards| == l.Count()
    && (forall y {:trigger Index(y)} :: Index(y) && 0 <= y < |shards| ==>
          InBounds(|frame|, |shardMem|, l.Place(y), l.bs) && Load(frame, shardMem, l.Place(y), l.bs) == shards[y])
  }

  lemma NothingFinished(frame: seq<Byte>, shardMem: seq<Byte>, l: Layout, shards: seq<seq<Byte>>, packets: seq<Packet>)
    requires InPlace(frame, shardMem, l, shards) && |packets| == |shards|
    ensures FinishedUpTo(frame, shardMem, l, shards, packets, 0)
  {
  }

  lemma StoreAtPlace(frame: seq<Byte>, shardMem: seq<Byte>, l: Layout, x: nat, b: seq<Byte>, y: nat)
    requires l.Fits(|frame|, |shardMem|) && x < l.Count() && y < l.Count() && |b| == l.bs
    requires InBounds(|frame|, |shardMem|, l.Place(x), l.bs) && InBounds(|frame|, |shardMem|, l.Place(y), l.bs)
    ensures var a := l.Place(x);
            var frame' := if a.InFrame? then Patch(frame, a.off, b) else frame;
            var shardMem' := if a.InFrame? then shardMem else Patch(shardMem, a.off, b);
            Load(frame', shardMem', l.Place(y), l.bs) == if y == x then b else Load(frame, shardMem, l.Place(y), l.bs)
  {
    if y != x { PlacesApart(l, x, y); }
  }

  function StoreAt(m: seq<Byte>, here: bool, off: nat, b: seq<Byte>): (r: seq<Byte>)
    ensures |r| == |m|
  {
    if here && off + |b| <= |m| then Patch(m, off, b) else m
  }

  lemma FinishStep(frame: seq<Byte>, shardMem: seq<Byte>, l: Layout, shards: seq<seq<Byte>>, packets: seq<Packet>,
                   x: nat)
    requires x < |packets| == |shards| && FinishedUpTo(frame, shardMem, l, shards, packets, x)
        && |packets[x].bytes| == l.bs
    ensures var a := l.Place(x);
            && InBounds(|frame|, |shardMem|, a, l.bs)
            && var frame' := StoreAt(frame, a.InFrame?, a.off, packets[x].bytes);
            && FinishedUpTo(frame', StoreAt(shardMem, !a.InFrame?, a.off, packets[x].bytes), l, shards, packets, x + 1)
            && Tail(frame', l) == Tail(frame, l)
  {
    var a := l.Place(x);
    var frame' := StoreAt(frame, a.InFrame?, a.off, packets[x].bytes);
    var shardMem' := StoreAt(shardMem, !a.InFrame?, a.off, packets[x].bytes);
    assert Index(x);
    forall y {:trigger Index(y)} | Index(y) && 0 <= y < |shards|
      ensures InBounds(|frame'|, |shardMem'|, l.Place(y), l.bs)
      ensures Load(frame', shardMem', l.Place(y), l.bs) == if y < x + 1 then packets[y].bytes else shards[y]
    {
      StoreAtPlace(frame, shardMem, l, x, packets[x].bytes, y);
    }
    TailUntouched(frame, l, x, packets[x].bytes);
  }

  lemma TailUntouched(frame: seq<Byte>, l: Layout, x: nat, b: seq<Byte>)
    requires |b| == l.bs && (x < l.aligned ==> l.base + x * l.bs + l.bs <= |frame|)
    ensures Tail(StoreAt(frame, x < l.aligned, l.base + x * l.bs, b), l) == Tail(frame, l)
  {
    if x < l.aligned { StrideStep(l.bs, x, l.aligned); }
  }

  /** Stamps shard `x` for sending and encrypts it, in place. */
  method FinishShard(buf: array<Byte>, at: nat, bs: nat, i: BlockInfo, x: nat, dataShards: nat, percentage: nat,
                     c: Cipher, ivCounter: nat, ghost counter: nat, ghost shard: seq<Byte>, ghost packet: Packet)
    returns (prefix: Prefix)
    requires bs >= RAW_HEADER && at + bs <= buf.Length && Lawful(c)
    requires ivCounter == CounterAfter(c, counter, x)
    requires buf[at..at + bs] == shard && packet == PacketOf(shard, i, x, dataShards, percentage, c, counter)
    modifies buf
    ensures prefix == packet.prefix && |packet.bytes| == bs
    ensures buf[..] == Patch(old(buf[..]), at, packet.bytes)
  {
    ghost var was := buf[..];
    StampSend(buf, at, i, x, dataShards, percentage);
    ghost var plain := SendShard(shard, i, x, dataShards, percentage);
    StampedWhole(was, at, shard, SendHeader(shard[..RAW_HEADER], i, x, dataShards, percentage));
    prefix := NoPrefix;
    if c.Gcm? {
      var iv := GcmIv.VideoIv(ivCounter);
      var source := buf[at..at + bs];
      prefix := EncPrefix(iv, i.frameIndex, c.tag(iv, source));
      Store(buf, at, c.enc(iv, source));
    }
  }

  lemma StampedWhole(m: seq<Byte>, at: nat, shard: seq<Byte>, h: seq<Byte>)
    requires at + |shard| <= |m| && m[at..at + |shard|] == shard && |shard| >= RAW_HEADER == |h|
    ensures m[at..at + RAW_HEADER] == shard[..RAW_HEADER]
    ensures Patch(m, at, h) == Patch(m, at, h + shard[RAW_HEADER..])
  {
    SliceOfSlice(m, at, at + |shard|, 0, RAW_HEADER);
    SliceOfSlice(m, at, at + |shard|, RAW_HEADER, |shard|);
  }

  /** Where the whole packets that `l` lays out in the frame end. */
  function AlignedEnd(l: Layout): nat { l.base + l.aligned * l.bs }

  /** The frame behind them. */
  function Tail(m: seq<Byte>, l: Layout): seq<Byte> {
    if AlignedEnd(l) <= |m| then m[AlignedEnd(l)..] else []
  }

  lemma SliceJoin<T>(s: seq<T>, a: nat, b: nat)
    requires a <= b <= |s|
    ensures s[..a] + s[a..b] == s[..b]
    ensures b == |s| ==> s[..b] == s
  {
  }

  lemma WireJoin<T>(w0: seq<T>, w1: seq<T>, w2: seq<T>, packets: seq<T>, a: nat, b: nat)
    requires a <= b <= |packets| && w1 == w0 + packets[..a] && w2 == w1 + packets[a..b]
    ensures w2 == w0 + packets[..b]
  {
    SliceJoin(packets, a, b);
  }

  lemma OneMorePacket(packets: seq<Packet>, next: nat, y: nat, p: Packet)
    requires next + y < |packets| && packets[next + y] == p
    ensures packets[next..next + y] + [p] == packets[next..next + y + 1]
  {
  }

  ghost predicate PrefixesMatch(prefixes: seq<Prefix>, packets: seq<Packet>) {
    |prefixes| <= |packets| && forall y :: 0 <= y < |prefixes| ==> prefixes[y] == packets[y].prefix
  }

  lemma PrefixAppend(prefixes: seq<Prefix>, packets: seq<Packet>, prefix: Prefix)
    requires PrefixesMatch(prefixes, packets) && |prefixes| < |packets| && prefix == packets[|prefixes|].prefix
    ensures PrefixesMatch(prefixes + [prefix], packets)
  {
  }

  lemma BatchAppend(batches: seq<nat>, limit: nat, total: nat, count: nat, more: bool)
    requires Batching(batches, limit, total, true) && 1 <= count <= Largest(limit)
    requires more ==> count == Largest(limit)
    ensures Batching(batches + [count], limit, total + count, more)
  {
    assert (batches + [count])[..|batches|] == batches;
  }

  class VideoStream {
    var lowseq: nat
    var ivCounter: nat
    const cipher: Cipher
    const packetsize: nat
    const minParity: nat
    // the packets handed to the socket so far
    var wire: seq<Packet>
    // which of them are data packets
    ghost var data: seq<bool>

    /** Over all frames so far, packet `k` of the session carries number `k` and the IV of counter `k`. */
    ghost predicate Valid()
      reads this
    {
      && lowseq == |wire| && ivCounter == CounterAfter(cipher, 0, |wire|)
      && NumberedFrom(wire, cipher, 0, 0, data)
    }

    constructor (cipher: Cipher, packetsize: nat, minParity: nat)
      ensures this.cipher == cipher && this.packetsize == packetsize && this.minParity == minParity
      ensures Valid() && wire == []
    {
      this.cipher, this.packetsize, this.minParity := cipher, packetsize, minParity;
      lowseq, ivCounter, wire, data := 0, 0, [], [];
    }

    /** One send: the packets [next, next + count), batched through the buffers or one at a time. */
    method Send(frame: array<Byte>, f: Encoded, prefixes: seq<Prefix>, next: nat, count: nat, bs: nat, batched: bool,
                ghost l: Layout, ghost shards: seq<seq<Byte>>, ghost packets: seq<Packet>)
      requires bs == l.bs > 0 && next + count <= |prefixes| <= |packets| == |shards|
      requires Pointers(f, l)
      requires FinishedUpTo(frame[..], f.shards[..], l, shards, packets, |prefixes|)
      requires PrefixesMatch(prefixes, packets)
      modifies this`wire
      ensures wire == old(wire) + packets[next..next + count]
    {
      for y := 0 to count
        invariant wire == old(wire) + packets[next..next + y]
      {
        var bytes := BytesOf(frame, f, next + y, bs, batched, l, shards, packets, |prefixes|);
        wire := wire + [Packet(prefixes[next + y], bytes)];
        OneMorePacket(packets, next, y, Packet(prefixes[next + y], bytes));
      }
    }

    /** The bytes of a finished packet, from the memory they are in. */
    static method BytesOf(frame: array<Byte>, f: Encoded, k: nat, bs: nat, batched: bool, ghost l: Layout,
                          ghost shards: seq<seq<Byte>>, ghost packets: seq<Packet>, ghost n: nat)
      returns (bytes: seq<Byte>)
      requires bs == l.bs > 0 && k < n <= |packets| == |shards| && Pointers(f, l)
      requires FinishedUpTo(frame[..], f.shards[..], l, shards, packets, n)
      ensures bytes == packets[k].bytes
    {
      assert Index(k);
      var a := PointerTo(f, k, bs, batched, l);
      bytes := if a.InFrame? then frame[a.off..a.off + bs] else f.shards[a.off..a.off + bs];
      assert bytes == Load(frame[..], f.shards[..], l.Place(k), bs);
    }

    /** Where packet `k` is read from: through the buffer descriptors, or through its shard pointer. */
    static method PointerTo(f: Encoded, k: nat, bs: nat, batched: bool, ghost l: Layout) returns (a: Addr)
      requires Pointers(f, l) && bs == l.bs > 0 && k < l.Count()
      ensures a == l.Place(k)
    {
      a := f.shardsP[k];
      if batched {
        var b := BufferForPayloadOffset(f.buffers, k * bs);
        BatchedViewIsPerPacketView(l, k);
        a := b.start;
      }
    }

    /** Stamps, encrypts and sends the shards of one encoded block, in batches. `batched` is whether the
        platform takes a batch; when it does not, its packets are sent one by one. */
    method SendBlock(frame: array<Byte>, f: Encoded, bs: nat, i: BlockInfo, limit: nat, batched: nat -> bool,
                     ghost l: Layout, ghost shards: seq<seq<Byte>>, ghost packets: seq<Packet>)
      returns (batches: seq<nat>)
      requires Lawful(cipher) && bs == l.bs >= RAW_HEADER && f.shards != frame
      requires Pointers(f, l) && f.nrShards == |shards| == l.Count() && forall s <- shards :: |s| == bs
      requires Describes(packets, shards, i, f.dataShards, f.percentage, cipher, ivCounter)
      requires FinishedUpTo(frame[..], f.shards[..], l, shards, packets, 0)
      modifies this`wire, this`ivCounter, frame, f.shards
      ensures wire == old(wire) + packets
      ensures ivCounter == CounterAfter(cipher, old(ivCounter), |shards|)
      ensures GoodBatches(batches, limit, |shards|)
      ensures Tail(frame[..], l) == Tail(old(frame[..]), l)
    {
      ghost var counter, wire0, tail := ivCounter, wire, Tail(frame[..], l);
      assert wire == wire0 + packets[..0];
      batches := SendAll(frame, f, bs, i, limit, batched, counter, l, shards, packets, wire0, tail);
      SliceJoin(packets, 0, |shards|);
    }

    /** Shard after shard. */
    method SendAll(frame: array<Byte>, f: Encoded, bs: nat, i: BlockInfo, limit: nat, batched: nat -> bool,
                   ghost counter: nat, ghost l: Layout, ghost shards: seq<seq<Byte>>, ghost packets: seq<Packet>,
                   ghost wire0: seq<Packet>, ghost tail: seq<Byte>)
      returns (batches: seq<nat>)
      requires Lawful(cipher) && f.shards != frame && Prepared(f, bs, i, counter, l, shards, packets)
      requires f.nrShards == |shards| == |packets| == l.Count()
      requires SentSoFar(frame, f, 0, 0, counter, l, shards, packets, wire0, tail)
      modifies this`wire, this`ivCounter, frame, f.shards
      ensures GoodBatches(batches, limit, |shards|)
      ensures SentSoFar(frame, f, |shards|, |shards|, counter, l, shards, packets, wire0, tail)
    {
      var prefixes: seq<Prefix>, next: nat := [], 0;
      batches := [];
      for x := 0 to f.nrShards
        invariant SendingAt(f, x, prefixes, next, limit, l, shards, packets)
        invariant SentSoFar(frame, f, x, next, counter, l, shards, packets, wire0, tail)
        invariant Batching(batches, limit, next, x < f.nrShards)
      {
        prefixes, next, batches := SendStep(frame, f, x, prefixes, next, bs, i, limit, batches, batched, counter, l,
                                            shards, packets, wire0, tail);
      }
    }

    /** What stays fixed while a block is sent. */
    ghost predicate Prepared(f: Encoded, bs: nat, i: BlockInfo, counter: nat, l: Layout, shards: seq<seq<Byte>>,
                             packets: seq<Packet>)
    {
      && bs == l.bs >= RAW_HEADER && Pointers(f, l) && AllSized(shards, bs)
      && Describes(packets, shards, i, f.dataShards, f.percentage, cipher, counter)
    }

    /** The counters of the send loop after `x` shards: the first `next` packets have been sent. */
    static ghost predicate SendingAt(f: Encoded, x: nat, prefixes: seq<Prefix>, next: nat, limit: nat,
                                     l: Layout, shards: seq<seq<Byte>>, packets: seq<Packet>)
    {
      && next <= x == |prefixes| <= f.nrShards == |shards| == |packets| == l.Count()
      && (x == f.nrShards ==> next == x)
      && x - next < Largest(limit)
      && PrefixesMatch(prefixes, packets)
    }

    /** Memory, socket and IV counter then. */
    ghost predicate SentSoFar(frame: array<Byte>, f: Encoded, x: nat, next: nat, counter: nat, l: Layout,
                              shards: seq<seq<Byte>>, packets: seq<Packet>, wire0: seq<Packet>, tail: seq<Byte>)
      requires next <= |packets| && x <= |packets| == |shards|
      reads this, frame, f.shards
    {
      && FinishedUpTo(frame[..], f.shards[..], l, shards, packets, x)
      && wire == wire0 + packets[..next]
      && ivCounter == CounterAfter(cipher, counter, x)
      && Tail(frame[..], l) == tail
    }

    /** Finishes shard `x` in place and sends the pending batch when it is due. */
    method SendStep(frame: array<Byte>, f: Encoded, x: nat, prefixes: seq<Prefix>, next: nat, bs: nat, i: BlockInfo,
                    limit: nat, batches: seq<nat>, batched: nat -> bool, ghost counter: nat, ghost l: Layout,
                    ghost shards: seq<seq<Byte>>, ghost packets: seq<Packet>, ghost wire0: seq<Packet>,
                    ghost tail: seq<Byte>)
      returns (prefixes': seq<Prefix>, next': nat, batches': seq<nat>)
      requires Lawful(cipher) && f.shards != frame && x < f.nrShards && Prepared(f, bs, i, counter, l, shards, packets)
      requires SendingAt(f, x, prefixes, next, limit, l, shards, packets)
      requires SentSoFar(frame, f, x, next, counter, l, shards, packets, wire0, tail)
      requires Batching(batches, limit, next, x < f.nrShards)
      modifies this`wire, this`ivCounter, frame, f.shards
      ensures SendingAt(f, x + 1, prefixes', next', limit, l, shards, packets)
      ensures SentSoFar(frame, f, x + 1, next', counter, l, shards, packets, wire0, tail)
      ensures Batching(batches', limit, next', x + 1 < f.nrShards)
    {
      var prefix := FinishAt(frame, f.shards, f.shardsP[x], bs, i, x, f.dataShards, f.percentage, counter, l, shards,
                             packets);
      PrefixAppend(prefixes, packets, prefix);
      prefixes', next', batches' := prefixes + [prefix], next, batches;
      if x - next + 1 >= limit || x + 1 == f.nrShards {
        batches' := SendDue(frame, f, prefixes', next, bs, limit, batches, batched, l, shards, packets, wire0,
                            x + 1 < f.nrShards);
        next' := x + 1;
      }
    }

    /** The packets finished but not sent yet, as one batch. */
    method SendDue(frame: array<Byte>, f: Encoded, prefixes: seq<Prefix>, next: nat, bs: nat, limit: nat,
                   batches: seq<nat>, batched: nat -> bool, ghost l: Layout, ghost shards: seq<seq<Byte>>,
                   ghost packets: seq<Packet>, ghost before: seq<Packet>, ghost more: bool)
      returns (batches': seq<nat>)
      requires bs == l.bs > 0 && next < |prefixes| <= |packets| == |shards|
      requires |prefixes| - next <= Largest(limit) && (more ==> |prefixes| - next == Largest(limit))
      requires Pointers(f, l) && PrefixesMatch(prefixes, packets)
      requires FinishedUpTo(frame[..], f.shards[..], l, shards, packets, |prefixes|)
      requires wire == before + packets[..next] && Batching(batches, limit, next, true)
      modifies this`wire
      ensures wire == before + packets[..|prefixes|] && Batching(batches', limit, |prefixes|, more)
    {
      var count := |prefixes| - next;
      ghost var sent := wire;
      Send(frame, f, prefixes, next, count, bs, batched(|batches|), l, shards, packets);
      WireJoin(before, sent, wire, packets, next, |prefixes|);
      BatchAppend(batches, limit, next, count, more);
      batches' := batches + [count];
    }

    method FinishAt(frame: array<Byte>, shardMem: array<Byte>, a: Addr, bs: nat, i: BlockInfo, x: nat, dataShards: nat,
                    percentage: nat, ghost counter: nat, ghost l: Layout, ghost shards: seq<seq<Byte>>,
                    ghost packets: seq<Packet>)
      returns (prefix: Prefix)
      requires Lawful(cipher) && bs == l.bs >= RAW_HEADER && frame != shardMem && AllSized(shards, bs)
      requires Describes(packets, shards, i, dataShards, percentage, cipher, counter)
      requires x < |shards| == l.Count() && a == l.Place(x)
      requires FinishedUpTo(frame[..], shardMem[..], l, shards, packets, x)
      requires ivCounter == CounterAfter(cipher, counter, x)
      modifies this`ivCounter, frame, shardMem
      ensures prefix == packets[x].prefix
      ensures ivCounter == CounterAfter(cipher, counter, x + 1)
      ensures FinishedUpTo(frame[..], shardMem[..], l, shards, packets, x + 1)
      ensures Tail(frame[..], l) == Tail(old(frame[..]), l)
    {
      ghost var frame0, shards0 := frame[..], shardMem[..];
      assert Index(x);
      prefix := FinishIn(frame, shardMem, a, bs, i, x, dataShards, percentage, counter, shards[x], packets[x]);
      FinishStep(frame0, shards0, l, shards, packets, x);
      if cipher.Gcm? {
        ivCounter := GcmIv.Next(ivCounter, GcmIv.TWO_64);
      }
    }

    /** Finishes one shard in the memory it is in. */
    method FinishIn(frame: array<Byte>, shardMem: array<Byte>, a: Addr, bs: nat, i: BlockInfo, x: nat, dataShards: nat,
                    percentage: nat, ghost counter: nat, ghost shard: seq<Byte>, ghost packet: Packet)
      returns (prefix: Prefix)
      requires Lawful(cipher) && bs >= RAW_HEADER && frame != shardMem && |shard| == bs
      requires packet == PacketOf(shard, i, x, dataShards, percentage, cipher, counter)
      requires InBounds(frame.Length, shardMem.Length, a, bs) && Load(frame[..], shardMem[..], a, bs) == shard
      requires ivCounter == CounterAfter(cipher, counter, x)
      modifies frame, shardMem
      ensures prefix == packet.prefix && |packet.bytes| == bs
      ensures frame[..] == StoreAt(old(frame[..]), a.InFrame?, a.off, packet.bytes)
      ensures shardMem[..] == StoreAt(old(shardMem[..]), !a.InFrame?, a.off, packet.bytes)
    {
      if a.InFrame? {
        assert frame[a.off..a.off + bs] == frame[..][a.off..a.off + bs];
        prefix := FinishShard(frame, a.off, bs, i, x, dataShards, percentage, cipher, ivCounter, counter, shard,
                              packet);
      } else {
        assert shardMem[a.off..a.off + bs] == shardMem[..][a.off..a.off + bs];
        prefix := FinishShard(shardMem, a.off, bs, i, x, dataShards, percentage, cipher, ivCounter, counter, shard,
                              packet);
      }
    }

    /** One FEC block: packet headers, encoding, send. */
    method SendFecBlock(frame: array<Byte>, base: nat, len: nat, bs: nat, i: BlockInfo, fec: nat, rs: Rs,
                        batched: nat -> bool)
      returns (sent: SentBlock, batches: seq<nat>)
      requires Lawful(cipher) && RsLawful(rs) && bs > 0
      requires len > 0 && base + len <= frame.Length && RoomForHeaders(len, bs)
      modifies this`wire, this`ivCounter, frame
      ensures wire == old(wire) + sent.packets
      ensures ivCounter == CounterAfter(cipher, old(ivCounter), |sent.packets|)
      ensures sent.dataShards == CeilDiv(len, bs) && OnWire(sent, bs, i, fec, minParity, cipher, old(ivCounter))
      ensures SamePayloads(OpenedData(cipher, sent), DataShards(old(frame[base..base + len]), bs))
      ensures LossesRecover(cipher, sent, rs)
      ensures frame[base + len..] == old(frame[base + len..])
      ensures GoodBatches(batches, BatchLimit(bs), |sent.packets|)
    {
      ghost var rest := frame[base + len..];
      ghost var was := DataShards(frame[base..base + len], bs);
      var f;
      ghost var l, now, shards, adjusted, gap;
      f, l, now, shards, adjusted, gap := PrepareBlock(frame, base, len, bs, i, fec, rs, minParity);
      assert frame[base + len..] == rest;
      sent, batches := SendPrepared(frame, f, bs, i, batched, fec, l, was, now, shards, adjusted, base + len, gap,
                                    rest, rs);
    }

    method SendPrepared(frame: array<Byte>, f: Encoded, bs: nat, i: BlockInfo, batched: nat -> bool, ghost fec: nat,
                        ghost l: Layout, ghost was: seq<seq<Byte>>, ghost now: seq<seq<Byte>>,
                        ghost shards: seq<seq<Byte>>, ghost adjusted: (nat, nat), ghost end: nat, ghost gap: nat,
                        ghost rest: seq<Byte>, ghost rs: Rs)
      returns (sent: SentBlock, batches: seq<nat>)
      requires Lawful(cipher) && bs == l.bs >= RAW_HEADER && f.shards != frame
      requires Pointers(f, l) && f.nrShards == |shards| == l.Count() && InPlace(frame[..], f.shards[..], l, shards)
      requires |was| == |now| == f.dataShards > 0 && PayloadsComeBack(rs, now, shards)
      requires (forall s <- was :: |s| == bs) && (forall s <- shards :: |s| == bs) && StampedUpTo(now, was, i, |was|)
      requires adjusted == FecInfo.AdjustParity(f.dataShards, fec, minParity)
      requires |shards| == f.dataShards + adjusted.0 && f.percentage == adjusted.1
      requires AlignedEnd(l) + gap == end <= frame.Length && frame[end..] == rest
      modifies this`wire, this`ivCounter, frame, f.shards
      ensures sent.dataShards == f.dataShards && wire == old(wire) + sent.packets
      ensures ivCounter == CounterAfter(cipher, old(ivCounter), |sent.packets|)
      ensures GoodBatches(batches, BatchLimit(bs), |sent.packets|)
      ensures OnWire(sent, bs, i, fec, minParity, cipher, old(ivCounter))
      ensures SamePayloads(OpenedData(cipher, sent), was) && LossesRecover(cipher, sent, rs)
      ensures frame[end..] == rest
    {
      ghost var counter, frame1 := ivCounter, frame[..];
      sent, batches := SendEncoded(frame, f, bs, i, batched, l, shards);
      TailOfBlock(frame1, frame[..], l, end, gap);
      BlockIsOnWire(sent, was, now, shards, bs, i, fec, minParity, cipher, counter, adjusted);
      BlockRecovers(cipher, sent, rs, now, shards);
    }

    method SendEncoded(frame: array<Byte>, f: Encoded, bs: nat, i: BlockInfo, batched: nat -> bool, ghost l: Layout,
                       ghost shards: seq<seq<Byte>>)
      returns (sent: SentBlock, batches: seq<nat>)
      requires Lawful(cipher) && bs == l.bs >= RAW_HEADER && f.shards != frame
      requires Pointers(f, l) && f.nrShards == |shards| == l.Count() && forall s <- shards :: |s| == bs
      requires InPlace(frame[..], f.shards[..], l, shards)
      modifies this`wire, this`ivCounter, frame, f.shards
      ensures sent == SentBlock(f.dataShards, f.percentage,
                                PacketsOf(shards, |shards|, i, f.dataShards, f.percentage, cipher, old(ivCounter)))
      ensures wire == old(wire) + sent.packets
      ensures ivCounter == CounterAfter(cipher, old(ivCounter), |sent.packets|)
      ensures GoodBatches(batches, BatchLimit(bs), |sent.packets|)
      ensures Tail(frame[..], l) == Tail(old(frame[..]), l)
    {
      ghost var packets := PacketsOf(shards, |shards|, i, f.dataShards, f.percentage, cipher, ivCounter);
      NothingFinished(frame[..], f.shards[..], l, shards, packets);
      var from := |wire|;
      batches := SendBlock(frame, f, bs, i, BatchLimit(bs), batched, l, shards, packets);
      sent := SentBlock(f.dataShards, f.percentage, wire[from..]);
    }
  }

  /** Packet headers and FEC encoding of one block. */
  method PrepareBlock(frame: array<Byte>, base: nat, len: nat, bs: nat, i: BlockInfo, fec: nat, rs: Rs, minParity: nat)
    returns (f: Encoded, ghost l: Layout, ghost now: seq<seq<Byte>>, ghost shards: seq<seq<Byte>>,
             ghost adjusted: (nat, nat), ghost gap: nat)
    requires RsLawful(rs) && bs > 0 && len > 0 && base + len <= frame.Length && RoomForHeaders(len, bs)
    modifies frame
    ensures fresh(f.shards) && frame[base + len..] == old(frame[base + len..])
    ensures l.bs == bs && AlignedEnd(l) + gap == base + len
    ensures f.dataShards == |now| == CeilDiv(len, bs) > 0
    ensures adjusted == FecInfo.AdjustParity(f.dataShards, fec, minParity) && f.percentage == adjusted.1
    ensures |now| == |DataShards(old(frame[base..base + len]), bs)|
    ensures StampedUpTo(now, DataShards(old(frame[base..base + len]), bs), i, |now|)
    ensures |shards| == f.dataShards + adjusted.0 && forall s <- shards :: |s| == bs
    ensures shards == now + rs.enc(now, adjusted.0) && PayloadsComeBack(rs, now, shards)
    ensures Pointers(f, l) && f.nrShards == |shards| == l.Count() && InPlace(frame[..], f.shards[..], l, shards)
  {
    l := LayoutOf(base, len, bs, fec, minParity);
    StampBlock(frame, base, len, bs, i);
    now := DataShards(frame[base..base + len], bs);
    f := Encode(frame, base, len, bs, fec, minParity, rs);
    shards := AllShards(frame[base..base + len], bs, l.parity, rs);
    CeilDivZero(len, bs);
    DataSize(frame[base..base + len], bs);
    ShardSizes(frame[base..base + len], bs, l.parity, rs);
    adjusted := FecInfo.AdjustParity(CeilDiv(len, bs), fec, minParity);
    ShardsComeBack(rs, now, shards, adjusted.0, bs);
    DivParts(len, bs);
    gap := len % bs;
  }

  datatype SentBlock = SentBlock(dataShards: nat, percentage: nat, packets: seq<Packet>)

  /** What a client that decrypts reads from the data packets of a block. */
  function OpenedData(c: Cipher, b: SentBlock): seq<seq<Byte>>
    requires b.dataShards <= |b.packets|
  {
    seq(b.dataShards, x requires 0 <= x < b.dataShards => Opened(c, b.packets[x]))
  }

  function OpenedPackets(c: Cipher, b: SentBlock): seq<seq<Byte>> {
    seq(|b.packets|, x requires 0 <= x < |b.packets| => Opened(c, b.packets[x]))
  }

  /** Whichever packets of a block are lost, as long as as many arrive as there are data packets: what is behind
      the headers of those, decoded, is what is behind the headers of the data packets. */
  ghost predicate LossesRecover(c: Cipher, b: SentBlock, rs: Rs) {
    b.dataShards <= |b.packets|
    && forall at :: Recoverable(b.dataShards, |b.packets| - b.dataShards, at) ==>
         rs.dec(at, Picked(CutOff(OpenedPackets(c, b), RAW_HEADER), at), |b.packets| - b.dataShards)
         == CutOff(OpenedData(c, b), RAW_HEADER)
  }

  lemma BlockRecovers(c: Cipher, b: SentBlock, rs: Rs, now: seq<seq<Byte>>, shards: seq<seq<Byte>>)
    requires PayloadsComeBack(rs, now, shards) && |now| == b.dataShards && |shards| == |b.packets|
    requires CutOff(OpenedPackets(c, b), RAW_HEADER) == CutOff(shards, RAW_HEADER)
    ensures LossesRecover(c, b, rs)
  {
    var parity := |b.packets| - b.dataShards;
    DataCut(c, b, now, shards);
    assert forall at :: Recoverable(b.dataShards, parity, at) ==>
      rs.dec(at, Picked(CutOff(OpenedPackets(c, b), RAW_HEADER), at), parity) == CutOff(OpenedData(c, b), RAW_HEADER);
  }

  /** The same of the shards: data shards `now`, with their parity. */
  ghost predicate PayloadsComeBack(rs: Rs, now: seq<seq<Byte>>, shards: seq<seq<Byte>>) {
    now <= shards
    && forall at :: Recoverable(|now|, |shards| - |now|, at) ==>
         rs.dec(at, Picked(CutOff(shards, RAW_HEADER), at), |shards| - |now|) == CutOff(now, RAW_HEADER)
  }

  lemma ShardsComeBack(rs: Rs, now: seq<seq<Byte>>, shards: seq<seq<Byte>>, parity: nat, bs: nat)
    requires RsLawful(rs) && SameSize(now, bs) && bs >= RAW_HEADER && shards == now + rs.enc(now, parity)
    ensures PayloadsComeBack(rs, now, shards) && |shards| == |now| + parity
  {
    ParitySize(rs, now, parity, bs);
    forall at | Recoverable(|now|, parity, at)
      ensures rs.dec(at, Picked(CutOff(shards, RAW_HEADER), at), parity) == CutOff(now, RAW_HEADER)
    {
      PayloadsRecover(rs, now, parity, bs, RAW_HEADER, at, shards);
    }
  }

  lemma DataCut(c: Cipher, b: SentBlock, now: seq<seq<Byte>>, shards: seq<seq<Byte>>)
    requires |now| == b.dataShards <= |b.packets| == |shards| && now <= shards
    requires CutOff(OpenedPackets(c, b), RAW_HEADER) == CutOff(shards, RAW_HEADER)
    ensures CutOff(OpenedData(c, b), RAW_HEADER) == CutOff(now, RAW_HEADER)
  {
    forall x | 0 <= x < b.dataShards
      ensures CutOff(OpenedData(c, b), RAW_HEADER)[x] == CutOff(now, RAW_HEADER)[x]
    {
      assert CutOff(OpenedPackets(c, b), RAW_HEADER)[x] == CutOff(shards, RAW_HEADER)[x];
    }
  }

  /** The same packets up to their headers. */
  ghost predicate SamePayloads(a: seq<seq<Byte>>, b: seq<seq<Byte>>) {
    |a| == |b| && forall x :: 0 <= x < |a| ==>
      |a[x]| == |b[x]| >= RAW_HEADER && a[x][RAW_HEADER..] == b[x][RAW_HEADER..]
  }

  /** The fields a client reads from packet `x` of a block: an RTP header of version 2 with an extension, number
      and time, the frame and the place in it, and for a data packet its place in the stream and its flags. */
  ghost predicate FieldsOnWire(b: seq<Byte>, x: nat, dataShards: nat, percentage: nat, i: BlockInfo)
    requires |b| >= RAW_HEADER
  {
    && b[0] / 64 == 2 && b[0] % 64 == 16
    && FromBigEndian16(b[SEQUENCE_AT..TIMESTAMP_AT]) == (i.lowseq + x) % 65536
    && FrameFields(b, i.frameIndex, i.timestamp)
    && b[MULTI_FEC_BLOCKS_AT] == MultiFecBlocks(i)
    && FromLittleEndian(b[FEC_INFO_AT..RAW_HEADER]) == FecInfo.FecInfo(x, dataShards, percentage)
    && (x < dataShards ==> DataFieldsOnWire(b, x, dataShards, i.lowseq))
  }

  /** Which frame, and when. */
  ghost predicate FrameFields(b: seq<Byte>, frameIndex: nat, timestamp: nat)
    requires |b| >= RAW_HEADER
  {
    && FromBigEndian32(b[TIMESTAMP_AT..8]) == timestamp % FecInfo.TWO_32
    && FromLittleEndian(b[FRAME_INDEX_AT..FLAGS_AT]) == frameIndex % FecInfo.TWO_32
  }

  ghost predicate DataFieldsOnWire(b: seq<Byte>, x: nat, dataShards: nat, lowseq: nat)
    requires |b| >= RAW_HEADER
  {
    && FromLittleEndian(b[STREAM_INDEX_AT..FRAME_INDEX_AT]) == (lowseq + x) % 0x100_0000 * 256
    && FlagsOnWire(b[FLAGS_AT], x, dataShards) && b[MULTI_FEC_FLAGS_AT] == 0x10
  }

  /** Picture data in every packet, the start of the block in the first and the end in the last, and nothing else. */
  predicate FlagsOnWire(flags: Byte, x: nat, dataShards: nat) {
    && flags % 2 == FLAG_CONTAINS_PIC_DATA && flags < 8
    && (flags / FLAG_EOF % 2 == 1 <==> x + 1 == dataShards)
    && (flags / FLAG_SOF % 2 == 1 <==> x == 0)
  }

  /** The packets of a block: its shape, its header fields and, when encrypted, its IVs. */
  ghost predicate OnWire(b: SentBlock, bs: nat, i: BlockInfo, fec: nat, minParity: nat, c: Cipher, counter: nat) {
    && b.dataShards > 0
    && |b.packets| == b.dataShards + FecInfo.AdjustParity(b.dataShards, fec, minParity).0
    && b.percentage == FecInfo.AdjustParity(b.dataShards, fec, minParity).1
    && (forall x :: 0 <= x < |b.packets| ==> PacketAsSent(b, x, bs, i, c, counter))
  }

  lemma ShardSizes(block: seq<Byte>, bs: nat, parity: nat, rs: Rs)
    requires bs > 0 && RsLawful(rs)
    ensures forall s <- AllShards(block, bs, parity, rs) :: |s| == bs
  {
    DataSize(block, bs);
    ParitySize(rs, DataShards(block, bs), parity, bs);
  }

  lemma TailOfBlock(frame1: seq<Byte>, frame2: seq<Byte>, l: Layout, end: nat, gap: nat)
    requires |frame1| == |frame2| && AlignedEnd(l) + gap == end <= |frame1| && Tail(frame1, l) == Tail(frame2, l)
    ensures frame1[end..] == frame2[end..]
  {
    var at := AlignedEnd(l);
    assert frame1[end..] == frame1[at..][gap..] && frame2[end..] == frame2[at..][gap..];
  }

  ghost predicate Pointers(f: Encoded, l: Layout)
  {
    && f.buffers == l.Buffers()
    && |f.shardsP| == l.Count()
    && forall y :: 0 <= y < l.Count() ==> f.shardsP[y] == l.Place(y)
  }

  lemma HeaderFields(h: seq<Byte>, i: BlockInfo, x: nat, dataShards: nat, percentage: nat)
    requires |h| == RAW_HEADER && (x < dataShards ==> DataFieldsOnWire(h, x, dataShards, i.lowseq))
    ensures FieldsOnWire(SendHeader(h, i, x, dataShards, percentage), x, dataShards, percentage, i)
  {
    var r := SendHeader(h, i, x, dataShards, percentage);
    SendHeaderSlices(h, i, x, dataShards, percentage, r);
    NumbersAgree(i.lowseq, x);
    BigEndian32RoundTrip(i.timestamp);
    FourBytesRead(i.frameIndex);
    FourBytesRead(FecInfo.FecInfo(x, dataShards, percentage));
  }

  lemma SendHeaderSlices(h: seq<Byte>, i: BlockInfo, x: nat, dataShards: nat, percentage: nat, r: seq<Byte>)
    requires |h| == RAW_HEADER && r == SendHeader(h, i, x, dataShards, percentage)
    ensures r[0] == 144 && r[SEQUENCE_AT..TIMESTAMP_AT] == BigEndian16(i.lowseq + x)
    ensures r[TIMESTAMP_AT..8] == BigEndian32(i.timestamp)
    ensures r[FRAME_INDEX_AT..FLAGS_AT] == LittleEndian(4, i.frameIndex)
    ensures r[MULTI_FEC_BLOCKS_AT] == MultiFecBlocks(i)
    ensures r[FEC_INFO_AT..RAW_HEADER] == LittleEndian(4, FecInfo.FecInfo(x, dataShards, percentage))
    ensures r[STREAM_INDEX_AT..FRAME_INDEX_AT] == h[STREAM_INDEX_AT..FRAME_INDEX_AT]
    ensures r[FLAGS_AT] == h[FLAGS_AT] && r[MULTI_FEC_FLAGS_AT] == h[MULTI_FEC_FLAGS_AT]
  {
  }

  lemma NvFields(h: seq<Byte>, i: BlockInfo, x: nat, n: nat)
    requires |h| == RAW_HEADER && x < n
    ensures DataFieldsOnWire(NvHeader(h, i, x, n), x, n, i.lowseq)
  {
    NvHeaderSlices(h, i, x, n, NvHeader(h, i, x, n));
    NumbersAgree(i.lowseq, x);
    FlagsRead(x, n);
  }

  lemma NvHeaderSlices(h: seq<Byte>, i: BlockInfo, x: nat, n: nat, r: seq<Byte>)
    requires |h| == RAW_HEADER && r == NvHeader(h, i, x, n)
    ensures r[STREAM_INDEX_AT..FRAME_INDEX_AT] == LittleEndian(4, StreamIndex(i.lowseq, x))
    ensures r[FLAGS_AT] == NvFlags(x, n) && r[MULTI_FEC_FLAGS_AT] == 0x10
  {
  }

  lemma FlagsRead(x: nat, n: nat)
    requires x < n
    ensures FlagsOnWire(NvFlags(x, n), x, n)
  {
  }

  /** The fields are in the header alone. */
  lemma FieldsInHead(h: seq<Byte>, rest: seq<Byte>, x: nat, dataShards: nat, percentage: nat, i: BlockInfo)
    requires |h| == RAW_HEADER && FieldsOnWire(h, x, dataShards, percentage, i)
    ensures FieldsOnWire(h + rest, x, dataShards, percentage, i)
  {
    HeadSlice(h, rest, SEQUENCE_AT, TIMESTAMP_AT);
    HeadSlice(h, rest, TIMESTAMP_AT, 8);
    HeadSlice(h, rest, FRAME_INDEX_AT, FLAGS_AT);
    HeadSlice(h, rest, FEC_INFO_AT, RAW_HEADER);
    HeadSlice(h, rest, STREAM_INDEX_AT, FRAME_INDEX_AT);
  }

  lemma HeadSlice(h: seq<Byte>, rest: seq<Byte>, a: nat, b: nat)
    requires a <= b <= |h|
    ensures (h + rest)[a..b] == h[a..b] && (h + rest)[..|h|] == h && (h + rest)[|h|..] == rest
  {
  }

  /** A packet of the block, once opened, is its shard with the send header. */
  lemma PacketFields(s: seq<Byte>, x: nat, dataShards: nat, percentage: nat, i: BlockInfo, c: Cipher, counter: nat,
                     was: seq<Byte>)
    requires Lawful(c) && |s| >= RAW_HEADER && |was| >= RAW_HEADER
    requires x < dataShards ==> s == NvShard(was, i, x, dataShards)
    ensures var b := Opened(c, PacketOf(s, i, x, dataShards, percentage, c, counter));
            |b| == |s| && b[RAW_HEADER..] == s[RAW_HEADER..] && FieldsOnWire(b, x, dataShards, percentage, i)
  {
    var h := s[..RAW_HEADER];
    if x < dataShards { NvHead(s, was, i, x, dataShards); }
    HeaderFields(h, i, x, dataShards, percentage);
    FieldsInHead(SendHeader(h, i, x, dataShards, percentage), s[RAW_HEADER..], x, dataShards, percentage, i);
    OpenedIsPlain(s, i, x, dataShards, percentage, c, counter);
  }

  lemma NvHead(s: seq<Byte>, was: seq<Byte>, i: BlockInfo, x: nat, n: nat)
    requires |was| >= RAW_HEADER && s == NvShard(was, i, x, n) && x < n
    ensures DataFieldsOnWire(s[..RAW_HEADER], x, n, i.lowseq)
  {
    var h := NvHeader(was[..RAW_HEADER], i, x, n);
    NvFields(was[..RAW_HEADER], i, x, n);
    HeadSlice(h, was[RAW_HEADER..], 0, RAW_HEADER);
  }

  lemma OpenedIsPlain(s: seq<Byte>, i: BlockInfo, x: nat, dataShards: nat, percentage: nat, c: Cipher, counter: nat)
    requires Lawful(c) && |s| >= RAW_HEADER
    ensures Opened(c, PacketOf(s, i, x, dataShards, percentage, c, counter)) ==
        SendShard(s, i, x, dataShards, percentage)
  {
  }

  lemma BlockIsOnWire(b: SentBlock, was: seq<seq<Byte>>, now: seq<seq<Byte>>, shards: seq<seq<Byte>>, bs: nat,
                      i: BlockInfo, fec: nat, minParity: nat, c: Cipher, counter: nat, adjusted: (nat, nat))
    requires Lawful(c) && bs >= RAW_HEADER && |was| == |now| == b.dataShards > 0 && now <= shards
    requires (forall s <- was :: |s| == bs) && (forall s <- shards :: |s| == bs)
    requires StampedUpTo(now, was, i, |was|)
    requires adjusted == FecInfo.AdjustParity(b.dataShards, fec, minParity)
    requires |shards| == b.dataShards + adjusted.0 && b.percentage == adjusted.1
    requires b.packets == PacketsOf(shards, |shards|, i, b.dataShards, b.percentage, c, counter)
    ensures OnWire(b, bs, i, fec, minParity, c, counter)
    ensures SamePayloads(OpenedData(c, b), was)
    ensures CutOff(OpenedPackets(c, b), RAW_HEADER) == CutOff(shards, RAW_HEADER)
  {
    forall x | 0 <= x < |shards|
      ensures PacketAsSent(b, x, bs, i, c, counter) && Opened(c, b.packets[x])[RAW_HEADER..] == shards[x][RAW_HEADER..]
      ensures x < b.dataShards ==> shards[x][RAW_HEADER..] == was[x][RAW_HEADER..]
    {
      if x < b.dataShards {
        assert shards[x] == now[x];
        PacketIsOnWire(b, x, shards[x], was[x], bs, i, c, counter);
      } else {
        PacketIsOnWire(b, x, shards[x], shards[x], bs, i, c, counter);
      }
    }
    SameBehindHeaders(c, b, shards);
  }

  lemma SameBehindHeaders(c: Cipher, b: SentBlock, shards: seq<seq<Byte>>)
    requires |b.packets| == |shards|
    requires forall x :: 0 <= x < |shards| ==>
      |Opened(c, b.packets[x])| == |shards[x]| && |shards[x]| >= RAW_HEADER
      && Opened(c, b.packets[x])[RAW_HEADER..] == shards[x][RAW_HEADER..]
    ensures CutOff(OpenedPackets(c, b), RAW_HEADER) == CutOff(shards, RAW_HEADER)
  {
  }

  lemma PacketIsOnWire(b: SentBlock, x: nat, s: seq<Byte>, was: seq<Byte>, bs: nat, i: BlockInfo, c: Cipher,
                      counter: nat)
    requires Lawful(c) && x < |b.packets| && |s| == bs >= RAW_HEADER && |was| == bs
    requires x < b.dataShards ==> s == NvShard(was, i, x, b.dataShards)
    requires b.packets[x] == PacketOf(s, i, x, b.dataShards, b.percentage, c, counter)
    ensures PacketAsSent(b, x, bs, i, c, counter) && |Opened(c, b.packets[x])| == bs
    ensures Opened(c, b.packets[x])[RAW_HEADER..] == s[RAW_HEADER..]
    ensures x < b.dataShards ==> s[RAW_HEADER..] == was[RAW_HEADER..]
  {
    PacketFields(s, x, b.dataShards, b.percentage, i, c, counter, was);
    OpenedIsPlain(s, i, x, b.dataShards, b.percentage, c, counter);
  }

  ghost predicate PacketAsSent(b: SentBlock, x: nat, bs: nat, i: BlockInfo, c: Cipher, counter: nat)
    requires x < |b.packets|
  {
    var p := b.packets[x];
    && |Opened(c, p)| == bs >= RAW_HEADER
    && FieldsOnWire(Opened(c, p), x, b.dataShards, b.percentage, i)
    && (c.Gcm? ==>
          && p.prefix.EncPrefix? && p.prefix.iv == GcmIv.VideoIv(GcmIv.After(counter, GcmIv.TWO_64, x))
          && p.prefix.frameNumber == i.frameIndex && p.prefix.tag == c.tag(p.prefix.iv, Opened(c, p)))
  }
}
