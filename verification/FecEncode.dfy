/** fec::encode and the payload buffers of a batched send (src/stream.cpp, src/platform/common.h). */
module FecEncode {
  import opened Bytes
  import opened Packetizer
  import opened ReedSolomon
  import FecSplit
  import FecInfo

  /** A pointer into one of the two allocations a shard can live in. */
  datatype Addr = InFrame(off: nat) | InShards(off: nat)

  datatype Buffer = Buffer(start: Addr, size: nat)

  // ---- what the shards of a block are

  /** Data shard `i`: the next `bs` bytes of the block, zero-padded at its end. */
  function ShardOf(block: seq<Byte>, bs: nat, i: nat): (r: seq<Byte>)
    requires i * bs <= |block|
    ensures |r| == bs
  {
    ShardFrom(block, bs, i * bs)
  }

  function ShardFrom(block: seq<Byte>, bs: nat, from: nat): (r: seq<Byte>)
    requires from <= |block|
    ensures |r| == bs
  {
    if from + bs <= |block| then block[from..from + bs] else block[from..] + Zeros(bs - (|block| - from))
  }

  lemma ShardInBlock(len: nat, bs: nat, i: nat)
    requires bs > 0 && i < CeilDiv(len, bs)
    ensures i * bs < len
    ensures i < len / bs <==> i * bs + bs <= len
  {
    CeilDivZero(len, bs);
    var n, r := CeilDivParts(len, bs);
    ProductAtMost(i, n, bs, bs);
    if i < n { StrideStep(bs, i, n); }
    if i < len / bs { ProductAtMost(i + 1, len / bs, bs, bs); NextMultiple(i, bs); }
    if i >= len / bs { ProductAtMost(len / bs, i, bs, bs); }
  }

  function DataShards(block: seq<Byte>, bs: nat): (r: seq<seq<Byte>>)
    requires bs > 0
    ensures |r| == CeilDiv(|block|, bs)
  {
    seq(CeilDiv(|block|, bs), i requires 0 <= i < CeilDiv(|block|, bs) =>
      (ShardInBlock(|block|, bs, i); ShardOf(block, bs, i)))
  }

  function AllShards(block: seq<Byte>, bs: nat, parity: nat, rs: Rs): seq<seq<Byte>>
    requires bs > 0
  {
    DataShards(block, bs) + rs.enc(DataShards(block, bs), parity)
  }

  // ---- where they are

  /** `aligned` shards stay in the frame from `base`; a padded one and the parity ones are allocated. */
  datatype Layout = Layout(base: nat, aligned: nat, pad: bool, parity: nat, bs: nat) {
    function First(): nat { if pad then 1 else 0 }
    function Data(): nat { aligned + First() }
    function Count(): nat { Data() + parity }
    function Place(i: nat): Addr {
      if i < aligned then InFrame(base + i * bs) else InShards((i - aligned) * bs)
    }
    function Buffers(): seq<Buffer> {
      [Buffer(InFrame(base), aligned * bs), Buffer(InShards(0), (First() + parity) * bs)]
    }
    predicate Fits(frameSize: nat, shardsSize: nat) {
      base + aligned * bs <= frameSize && shardsSize == (First() + parity) * bs
    }
  }

  predicate InBounds(frameSize: nat, shardsSize: nat, a: Addr, n: nat) {
    a.off + n <= if a.InFrame? then frameSize else shardsSize
  }

  function Load(frame: seq<Byte>, shards: seq<Byte>, a: Addr, n: nat): (r: seq<Byte>)
    requires InBounds(|frame|, |shards|, a, n)
    ensures |r| == n
  {
    if a.InFrame? then frame[a.off..a.off + n] else shards[a.off..a.off + n]
  }

  lemma PlaceInBounds(l: Layout, frameSize: nat, shardsSize: nat, i: nat)
    requires l.Fits(frameSize, shardsSize) && i < l.Count()
    ensures InBounds(frameSize, shardsSize, l.Place(i), l.bs)
  {
    if i < l.aligned {
      StrideStep(l.bs, i, l.aligned);
    } else {
      StrideStep(l.bs, i - l.aligned, l.First() + l.parity);
    }
  }

  predicate Apart(a: Addr, b: Addr, n: nat) {
    a.InFrame? != b.InFrame? || a.off + n <= b.off || b.off + n <= a.off
  }

  /** No two shards overlap, so headers and ciphertext written to one leave the others alone. */
  lemma PlacesApart(l: Layout, i: nat, j: nat)
    requires i < l.Count() && j < l.Count() && i != j
    ensures Apart(l.Place(i), l.Place(j), l.bs)
  {
    if i < l.aligned && j < l.aligned {
      if i < j { StrideStep(l.bs, i, j); } else { StrideStep(l.bs, j, i); }
    } else if i >= l.aligned && j >= l.aligned {
      if i < j {
        StrideStep(l.bs, i - l.aligned, j - l.aligned);
      } else {
        StrideStep(l.bs, j - l.aligned, i - l.aligned);
      }
    }
  }

  // ---- the batched view of the same memory

  function Advance(a: Addr, n: nat): Addr {
    if a.InFrame? then InFrame(a.off + n) else InShards(a.off + n)
  }

  function BufferFor(buffers: seq<Buffer>, offset: nat): Buffer {
    if buffers == [] then Buffer(InFrame(0), 0)
    else if offset < buffers[0].size then Buffer(Advance(buffers[0].start, offset), buffers[0].size - offset)
    else BufferFor(buffers[1..], offset - buffers[0].size)
  }

  /** buffer_for_payload_offset of batched_send_info_t. */
  method BufferForPayloadOffset(buffers: seq<Buffer>, offset: nat) returns (b: Buffer)
    ensures b == BufferFor(buffers, offset)
  {
    var rest: nat := offset;
    for k := 0 to |buffers|
      invariant BufferFor(buffers[k..], rest) == BufferFor(buffers, offset)
    {
      var desc := buffers[k];
      assert buffers[k..][1..] == buffers[k + 1..];
      if rest < desc.size {
        return Buffer(Advance(desc.start, rest), desc.size - rest);
      } else {
        rest := rest - desc.size;
      }
    }
    return Buffer(InFrame(0), 0);
  }

  /** Block `i` of the concatenated payload buffers is the memory shards_p[i] points to. */
  lemma BatchedViewIsPerPacketView(l: Layout, i: nat)
    requires l.bs > 0 && i < l.Count()
    ensures var b := BufferFor(l.Buffers(), i * l.bs); b.start == l.Place(i) && b.size >= l.bs
  {
    var buffers := l.Buffers();
    assert buffers[1..] == [buffers[1]];
    if i < l.aligned {
      StrideStep(l.bs, i, l.aligned);
    } else {
      ProductAtMost(l.aligned, i, l.bs, l.bs);
      Distribute2(i, l.aligned, l.bs);
      StrideStep(l.bs, i - l.aligned, l.First() + l.parity);
    }
  }

  // ---- fec::encode

  datatype Encoded = Encoded(dataShards: nat, nrShards: nat, percentage: nat, shards: array<Byte>,
                             shardsP: seq<Addr>, buffers: seq<Buffer>)

  function LayoutOf(base: nat, len: nat, bs: nat, fec: nat, minParity: nat): Layout
    requires bs > 0 && len > 0
  {
    CeilDivZero(len, bs);
    Layout(base, len / bs, len % bs != 0, FecInfo.AdjustParity(CeilDiv(len, bs), fec, minParity).0, bs)
  }

  ghost predicate EncodesBlock(f: Encoded, frame: seq<Byte>, l: Layout, shards: seq<seq<Byte>>)
    reads f.shards
  {
    && l.Fits(|frame|, f.shards.Length)
    && |shards| == l.Count() == f.nrShards == |f.shardsP|
    && f.buffers == l.Buffers()
    && (forall i :: 0 <= i < l.Count() ==> f.shardsP[i] == l.Place(i))
    && (forall i :: 0 <= i < l.Count() ==> InBounds(|frame|, f.shards.Length, l.Place(i), l.bs))
    && (forall i :: 0 <= i < l.Count() ==> Load(frame, f.shards[..], l.Place(i), l.bs) == shards[i])
  }

  /** The shards at some of the pointers. */
  function Loaded(f: Encoded, frame: seq<Byte>, bs: nat, at: seq<nat>): (r: seq<seq<Byte>>)
    reads f.shards
    ensures |r| == |at|
  {
    seq(|at|, k requires 0 <= k < |at| reads f.shards =>
      if at[k] < |f.shardsP| && InBounds(|frame|, f.shards.Length, f.shardsP[at[k]], bs)
      then Load(frame, f.shards[..], f.shardsP[at[k]], bs) else [])
  }

  /** Any of the shards in memory, as many as there are data shards, give the data shards. */
  ghost predicate AnyShardsDo(f: Encoded, frame: seq<Byte>, bs: nat, rs: Rs, data: seq<seq<Byte>>)
    reads f.shards
  {
    f.dataShards == |data| <= f.nrShards
    && forall at :: Recoverable(f.dataShards, f.nrShards - f.dataShards, at) ==>
         rs.dec(at, Loaded(f, frame, bs, at), f.nrShards - f.dataShards) == data
  }

  lemma EncodedRecovers(f: Encoded, frame: seq<Byte>, l: Layout, data: seq<seq<Byte>>, rs: Rs)
    requires RsLawful(rs) && SameSize(data, l.bs) && f.dataShards == |data| && f.nrShards == |data| + l.parity
    requires EncodesBlock(f, frame, l, data + rs.enc(data, l.parity))
    ensures AnyShardsDo(f, frame, l.bs, rs, data)
  {
    forall at | Recoverable(f.dataShards, l.parity, at)
      ensures rs.dec(at, Loaded(f, frame, l.bs, at), l.parity) == data
    {
      ParitySize(rs, data, l.parity, l.bs);
      LoadedIsPicked(f, frame, l, data + rs.enc(data, l.parity), at);
      DataRecovers(rs, data, l.parity, l.bs, at);
    }
  }

  lemma LoadedIsPicked(f: Encoded, frame: seq<Byte>, l: Layout, all: seq<seq<Byte>>, at: seq<nat>)
    requires EncodesBlock(f, frame, l, all) && forall k :: 0 <= k < |at| ==> at[k] < |all|
    ensures Loaded(f, frame, l.bs, at) == Picked(all, at)
  {
  }

  lemma DataSize(block: seq<Byte>, bs: nat)
    requires bs > 0
    ensures SameSize(DataShards(block, bs), bs)
  {
  }

  lemma SliceOfSlice<T>(s: seq<T>, a: nat, b: nat, i: nat, j: nat)
    requires a <= b <= |s| && i <= j <= b - a
    ensures s[a..b][i..j] == s[a + i..a + j]
  {
    var t := s[a..b];
    assert forall k :: 0 <= k < b - a ==> t[k] == s[a + k];
    assert forall k :: 0 <= k < j - i ==> t[i..j][k] == t[i + k] == s[a + (i + k)];
  }

  /** Whole shards stay where they are in the frame. */
  method PointIntoFrame(shardsP: array<Addr>, base: nat, aligned: nat, bs: nat)
    requires aligned <= shardsP.Length
    modifies shardsP
    ensures forall i :: 0 <= i < aligned ==> shardsP[i] == InFrame(base + i * bs)
  {
    var next := base;
    for x := 0 to aligned
      invariant next == base + x * bs
      invariant forall i :: 0 <= i < x ==> shardsP[i] == InFrame(base + i * bs)
    {
      shardsP[x] := InFrame(next);
      next := next + bs;
      NextMultiple(x, bs);
    }
  }

  /** Room for the padded data shard, when there is one, and the parity shards. The tail of the block is
      copied in, and the space after it is zero. */
  method AllocateShards(frame: array<Byte>, base: nat, len: nat, bs: nat, parity: nat) returns (shards: array<Byte>)
    requires bs > 0 && len > 0 && base + len <= frame.Length
    ensures fresh(shards)
    ensures shards.Length == ((if len % bs != 0 then 1 else 0) + parity) * bs
    ensures len % bs != 0 ==>
      len / bs * bs <= len && bs <= shards.Length && shards[..bs] == ShardOf(frame[base..base + len], bs, len / bs)
  {
    var pad := len % bs != 0;
    var aligned := len / bs;
    shards := new Byte[((if pad then 1 else 0) + parity) * bs](_ => 0);
    assert len == aligned * bs + len % bs;
    if pad {
      ProductAtMost(1, 1 + parity, bs, bs);
      var tail := frame[base + aligned * bs..base + len];
      SliceOfSlice(frame[..], base, base + len, aligned * bs, len);
      Store(shards, 0, tail + Zeros(bs - |tail|));
    }
  }

  method Encode(frame: array<Byte>, base: nat, len: nat, bs: nat, fec: nat, minParity: nat, rs: Rs)
    returns (f: Encoded)
    requires bs > 0 && len > 0 && base + len <= frame.Length && RsLawful(rs)
    ensures fresh(f.shards)
    ensures f.dataShards == CeilDiv(len, bs)
    ensures f.percentage == FecInfo.AdjustParity(CeilDiv(len, bs), fec, minParity).1
    ensures var l := LayoutOf(base, len, bs, fec, minParity);
            l.Data() == f.dataShards
            && EncodesBlock(f, frame[..], l, AllShards(frame[base..base + len], bs, l.parity, rs))
    ensures AnyShardsDo(f, frame[..], bs, rs, DataShards(frame[base..base + len], bs))
  {
    var pad := len % bs != 0;
    var dataShards := len / bs + if pad then 1 else 0;
    CeilDivZero(len, bs);
    var parity, percentage := Adjust(dataShards, fec, minParity);
    var data, parityShards := ParityOf(frame, base, len, bs, rs, parity);
    ghost var l := LayoutOf(base, len, bs, fec, minParity);
    f := PlaceShards(frame, base, len, bs, parity, percentage, parityShards, l);
    EncodedRecovers(f, frame[..], l, data, rs);
  }

  method Adjust(dataShards: nat, fec: nat, minParity: nat) returns (parity: nat, percentage: nat)
    requires dataShards > 0
    ensures (parity, percentage) == FecInfo.AdjustParity(dataShards, fec, minParity)
  {
    parity := FecSplit.ParityShards(dataShards, fec);
    percentage := fec;
    if parity < minParity && fec != 0 {
      parity := minParity;
      QuotientNonNegative(100 * parity, dataShards);
      percentage := 100 * parity / dataShards;
    }
  }

  method ParityOf(frame: array<Byte>, base: nat, len: nat, bs: nat, rs: Rs, parity: nat)
    returns (data: seq<seq<Byte>>, shards: seq<seq<Byte>>)
    requires bs > 0 && base + len <= frame.Length && RsLawful(rs)
    ensures data == DataShards(frame[base..base + len], bs) && SameSize(data, bs)
    ensures shards == rs.enc(data, parity) && |shards| == parity && SameSize(shards, bs)
  {
    data := DataShards(frame[base..base + len], bs);
    DataSize(frame[base..base + len], bs);
    shards := rs.enc(data, parity);
    ParitySize(rs, data, parity, bs);
  }

  /** Pointers, descriptors and memory of a block whose parity shards are known. */
  method PlaceShards(frame: array<Byte>, base: nat, len: nat, bs: nat, parity: nat, percentage: nat,
                     parityShards: seq<seq<Byte>>, ghost l: Layout)
    returns (f: Encoded)
    requires bs > 0 && len > 0 && base + len <= frame.Length && |parityShards| == parity && SameSize(parityShards, bs)
    requires l == Layout(base, len / bs, len % bs != 0, parity, bs)
    ensures fresh(f.shards) && f.dataShards == l.Data() == CeilDiv(len, bs) && f.percentage == percentage
    ensures EncodesBlock(f, frame[..], l, DataShards(frame[base..base + len], bs) + parityShards)
  {
    var offset := if len % bs != 0 then 1 else 0;
    var dataShards := len / bs + offset;
    var nr := dataShards + parity;
    ghost var data := DataShards(frame[base..base + len], bs);
    var shards, shardsP := PlaceData(frame, base, len, bs, parity, l);
    PlaceParity(frame, shards, shardsP, dataShards, offset, bs, parityShards, l, data);
    var buffers := BuffersOf(base, len / bs, bs, shards.Length, l);
    f := Encoded(dataShards, nr, percentage, shards, shardsP[..], buffers);
  }

  method BuffersOf(base: nat, aligned: nat, bs: nat, size: nat, ghost l: Layout) returns (buffers: seq<Buffer>)
    requires l.base == base && l.aligned == aligned && l.bs == bs && size == (l.First() + l.parity) * bs
    ensures buffers == l.Buffers()
  {
    NonNegative(aligned, bs);
    buffers := [Buffer(InFrame(base), aligned * bs), Buffer(InShards(0), size)];
  }

  /** The data shards: pointers into the frame, and the padded last one. */
  method PlaceData(frame: array<Byte>, base: nat, len: nat, bs: nat, parity: nat, ghost l: Layout)
    returns (shards: array<Byte>, shardsP: array<Addr>)
    requires bs > 0 && len > 0 && base + len <= frame.Length
    requires l == Layout(base, len / bs, len % bs != 0, parity, bs)
    ensures fresh(shards) && fresh(shardsP) && shardsP.Length == l.Count() && l.Data() == CeilDiv(len, bs)
    ensures Placed(frame[..], shards[..], shardsP[..], l, DataShards(frame[base..base + len], bs), l.Data())
  {
    var pad := len % bs != 0;
    var aligned := len / bs;
    DivParts(len, bs);
    shards := AllocateShards(frame, base, len, bs, parity);
    shardsP := new Addr[aligned + (if pad then 1 else 0) + parity](_ => InFrame(0));
    PointIntoFrame(shardsP, base, aligned, bs);
    if pad {
      shardsP[aligned] := InShards(0);
      assert l.Place(aligned) == InShards(0 * bs);
    }
    DataShardsPlaced(frame[..], shards[..], l, len, base);
  }

  ghost predicate Placed(frame: seq<Byte>, shards: seq<Byte>, shardsP: seq<Addr>, l: Layout, all: seq<seq<Byte>>,
                         n: nat)
    requires n <= |all| && n <= l.Count() == |shardsP|
  {
    && l.Fits(|frame|, |shards|)
    && (forall i :: 0 <= i < n ==> shardsP[i] == l.Place(i))
    && (forall i :: 0 <= i < n ==> InBounds(|frame|, |shards|, l.Place(i), l.bs))
    && (forall i :: 0 <= i < n ==> Load(frame, shards, l.Place(i), l.bs) == all[i])
  }

  method PlaceParity(frame: array<Byte>, shards: array<Byte>, shardsP: array<Addr>, dataShards: nat, offset: nat,
                     bs: nat, parityShards: seq<seq<Byte>>, ghost l: Layout, ghost data: seq<seq<Byte>>)
    requires dataShards == l.Data() == |data| && offset == l.First() && bs == l.bs
    requires frame != shards && l.Count() == shardsP.Length && |parityShards| == l.parity
    requires Placed(frame[..], shards[..], shardsP[..], l, data, dataShards)
    requires forall i :: 0 <= i < l.parity ==> |parityShards[i]| == l.bs
    modifies shards, shardsP
    ensures Placed(frame[..], shards[..], shardsP[..], l, data + parityShards, l.Count())
  {
    ghost var all := data + parityShards;
    for x := 0 to |parityShards|
      invariant Placed(frame[..], shards[..], shardsP[..], l, all, dataShards + x)
    {
      ghost var before, pointers := shards[..], shardsP[..];
      PlaceInBounds(l, frame.Length, shards.Length, dataShards + x);
      var off := (offset + x) * bs;
      assert l.Place(dataShards + x) == InShards(off);
      shardsP[dataShards + x] := InShards(off);
      Store(shards, off, parityShards[x]);
      PlacedStep(frame[..], before, shards[..], pointers, shardsP[..], l, all, dataShards + x, off);
    }
  }

  /** One more shard in allocated memory. */
  lemma PlacedStep(frame: seq<Byte>, shards: seq<Byte>, shards': seq<Byte>, p: seq<Addr>, p': seq<Addr>, l: Layout,
                   all: seq<seq<Byte>>, n: nat, off: nat)
    requires n < |all| && n < l.Count() == |p| && Placed(frame, shards, p, l, all, n)
    requires l.Place(n) == InShards(off) && p' == p[n := InShards(off)]
    requires |all[n]| == l.bs && InBounds(|frame|, |shards|, l.Place(n), l.bs)
    requires shards' == Patch(shards, off, all[n])
    ensures Placed(frame, shards', p', l, all, n + 1)
  {
    forall i | 0 <= i < n ensures Load(frame, shards', l.Place(i), l.bs) == all[i] {
      PlacesApart(l, i, n);
      LoadUnderPatch(frame, shards, l.Place(i), l.bs, off, all[n]);
    }
  }

  lemma LoadUnderPatch(frame: seq<Byte>, shards: seq<Byte>, a: Addr, n: nat, off: nat, b: seq<Byte>)
    requires InBounds(|frame|, |shards|, a, n) && off + n <= |shards| && |b| == n && Apart(a, InShards(off), n)
    ensures Load(frame, Patch(shards, off, b), a, n) == Load(frame, shards, a, n)
  {
  }

  lemma DataShardsPlaced(frame: seq<Byte>, shards: seq<Byte>, l: Layout, len: nat, base: nat)
    requires l.bs > 0 && len > 0 && base + len <= |frame| && l.base == base
    requires l.aligned == len / l.bs && l.pad == (len % l.bs != 0) && l.Fits(|frame|, |shards|)
    requires |shards| >= (if l.pad then l.bs else 0)
    requires l.pad ==> (assert l.aligned * l.bs <= len;
                        shards[..l.bs] == ShardOf(frame[base..base + len], l.bs, l.aligned))
    ensures forall i :: 0 <= i < l.Data() ==> InBounds(|frame|, |shards|, l.Place(i), l.bs)
    ensures forall i :: 0 <= i < l.Data() ==>
      Load(frame, shards, l.Place(i), l.bs) == DataShards(frame[base..base + len], l.bs)[i]
  {
    forall i | 0 <= i < l.Data()
      ensures InBounds(|frame|, |shards|, l.Place(i), l.bs)
      ensures Load(frame, shards, l.Place(i), l.bs) == DataShards(frame[base..base + len], l.bs)[i]
    {
      PlaceInBounds(l, |frame|, |shards|, i);
      ShardInBlock(len, l.bs, i);
      var block := frame[base..base + len];
      if i < l.aligned {
        SliceOfSlice(frame, base, base + len, i * l.bs, i * l.bs + l.bs);
      } else {
        assert l.Place(i) == InShards(0 * l.bs);
      }
    }
  }
}
