/** The division of one frame into FEC blocks in videoBroadcastThread of src/stream.cpp. */
module FecSplit {
  import opened Bytes
  import opened Packetizer

  const DATA_SHARDS_MAX: nat := 255
  const MAX_FEC_BLOCKS: nat := 4

  datatype Block = Block(offset: nat, length: nat)

  function MaxDataShardsPerBlock(fec: nat): nat {
    DATA_SHARDS_MAX * 100 / (100 + fec)
  }

  function ParityShards(dataShards: nat, fec: nat): nat {
    (dataShards * fec + 99) / 100
  }

  /** The parity count is the percentage of the data count, rounded up. */
  lemma ParityIsCeiling(dataShards: nat, fec: nat)
    ensures 100 * ParityShards(dataShards, fec) >= dataShards * fec > 100 * (ParityShards(dataShards, fec) - 1)
  {
  }

  function BlocksNeeded(size: nat, blocksize: nat, fec: nat): nat
    requires blocksize > 0 && 1 <= fec <= 255
  {
    ShardLimits(fec);
    var maxData := MaxDataShardsPerBlock(fec) * blocksize;
    assert maxData >= 71 * blocksize;
    (size + (maxData - 1)) / maxData
  }

  lemma ShardLimits(fec: nat)
    requires 1 <= fec <= 255
    ensures 71 <= MaxDataShardsPerBlock(fec) <= 252
    ensures MaxDataShardsPerBlock(fec) * (100 + fec) <= 25500
  {
    var d := 100 + fec;
    var m := 25500 / d;
    assert m * d + 25500 % d == 25500;
    if m <= 70 { ProductAtMost(m, 70, d, 355); }
    if m >= 253 { ProductAtMost(253, m, 101, d); }
  }

  /** A block within the data limit leaves room for its parity: the total is at most 255 exactly when
      the data count is within the limit the split is computed from. */
  lemma ParityFits(d: nat, fec: nat)
    requires 1 <= fec <= 255
    ensures d + ParityShards(d, fec) <= DATA_SHARDS_MAX <==> d <= MaxDataShardsPerBlock(fec)
  {
    var t := d * fec;
    var total := d * (100 + fec);
    assert total == 100 * d + t;
    assert d + (t + 99) / 100 == (total + 99) / 100;
    var m := 25500 / (100 + fec);
    assert m * (100 + fec) + 25500 % (100 + fec) == 25500;
    if d <= m {
      if d < m { StrideStep(100 + fec, d, m); }
    } else {
      StrideStep(100 + fec, m, d);
    }
  }

  ghost predicate Contiguous(blocks: seq<Block>, size: nat) {
    && |blocks| > 0
    && blocks[0].offset == 0
    && (forall i :: 0 <= i < |blocks| - 1 ==> blocks[i + 1].offset == blocks[i].offset + blocks[i].length)
    && blocks[|blocks| - 1].offset + blocks[|blocks| - 1].length == size
  }

  /** What the split promises: at most four non-empty aligned pieces of the frame, in order, each with
      room for its parity when FEC stays on. */
  ghost predicate GoodSplit(blocks: seq<Block>, size: nat, blocksize: nat, fec: nat, fecUsed: nat)
    requires blocksize > 0 && 1 <= fec <= 255
  {
    && Contiguous(blocks, size)
    && |blocks| <= MAX_FEC_BLOCKS
    && (forall b <- blocks :: b.length > 0 && b.offset % blocksize == 0)
    && (forall i :: 0 <= i < |blocks| - 1 ==> blocks[i].length % blocksize == 0)
    && fecUsed == FecUsed(size, blocksize, fec)
    && fecUsed == (if size > 4 * (MaxDataShardsPerBlock(fec) * blocksize) then 0 else fec)
    && |blocks| == (if fecUsed == 0 then MAX_FEC_BLOCKS else BlocksNeeded(size, blocksize, fec))
    && (fecUsed != 0 ==> Fewest(|blocks|, size, MaxDataShardsPerBlock(fec) * blocksize))
    && Even(blocks, size, blocksize)
    && (fecUsed != 0 ==> forall b <- blocks :: FitsWithParity(CeilDiv(b.length, blocksize), fec))
  }

  /** As few blocks as hold the frame. */
  predicate Fewest(n: nat, size: nat, top: nat) {
    (n - 1) * top < size <= n * top
  }

  /** All blocks but the last take an equal part, rounded up to whole packets. */
  predicate Even(blocks: seq<Block>, size: nat, blocksize: nat)
    requires |blocks| > 0
  {
    forall i :: 0 <= i < |blocks| - 1 ==>
      size / |blocks| <= blocks[i].length < size / |blocks| + blocksize
  }

  predicate FitsWithParity(d: nat, fec: nat) {
    d <= MaxDataShardsPerBlock(fec) && d + ParityShards(d, fec) <= DATA_SHARDS_MAX
  }

  function CutAt(size: nat, n: nat, aligned: nat, i: nat): Block
    requires i < n && (n - 1) * aligned <= size
  {
    ProductAtMost(i, n - 1, aligned, aligned);
    Block(i * aligned, if i == n - 1 then size - i * aligned else aligned)
  }

  function FecUsed(size: nat, blocksize: nat, fec: nat): nat
    requires blocksize > 0 && 1 <= fec <= 255
  {
    if BlocksNeeded(size, blocksize, fec) > MAX_FEC_BLOCKS then 0 else fec
  }

  function BlockCount(size: nat, blocksize: nat, fec: nat): (n: nat)
    requires size > 0 && blocksize > 0 && 1 <= fec <= 255
    ensures 1 <= n <= MAX_FEC_BLOCKS
  {
    NeededFacts(size, blocksize, fec);
    var needed := BlocksNeeded(size, blocksize, fec);
    if needed > MAX_FEC_BLOCKS then MAX_FEC_BLOCKS else needed
  }

  /** The shards of every block but the last. */
  function AlignedShards(size: nat, blocksize: nat, fec: nat): nat
    requires size > 0 && blocksize > 0 && 1 <= fec <= 255
  {
    var n := BlockCount(size, blocksize, fec);
    QuotientNonNegative(size, n);
    QuotientNonNegative(size / n + (blocksize - 1), blocksize);
    (size / n + (blocksize - 1)) / blocksize
  }

  /** The blocks a frame of `size` bytes is cut into. */
  function Split(size: nat, blocksize: nat, fec: nat): (blocks: seq<Block>)
    requires size > 0 && blocksize >= 3 && 1 <= fec <= 255
    ensures |blocks| == BlockCount(size, blocksize, fec)
  {
    var n, u := BlockCount(size, blocksize, fec), AlignedShards(size, blocksize, fec);
    SplitFacts(size, blocksize, fec, n, size / n, u);
    seq(n, i requires 0 <= i < n => CutAt(size, n, u * blocksize, i))
  }

  lemma SplitIsGood(size: nat, blocksize: nat, fec: nat)
    requires size > 0 && blocksize >= 3 && 1 <= fec <= 255
    ensures GoodSplit(Split(size, blocksize, fec), size, blocksize, fec, FecUsed(size, blocksize, fec))
  {
    var blocks, n, u := Split(size, blocksize, fec), BlockCount(size, blocksize, fec),
      AlignedShards(size, blocksize, fec);
    SplitFacts(size, blocksize, fec, n, size / n, u);
    DivModUnique(u * blocksize, blocksize, u, 0);
    CutFacts(blocks, size, blocksize, n, u * blocksize);
    RoundUpFacts(size / n, blocksize, u);
    SwitchedOff(size, blocksize, fec);
    if FecUsed(size, blocksize, fec) != 0 {
      CutFits(blocks, size, blocksize, fec, n, u * blocksize);
    }
  }

  /** FEC goes off exactly when four blocks do not hold the frame; otherwise there are as few as do. */
  lemma SwitchedOff(size: nat, blocksize: nat, fec: nat)
    requires size > 0 && blocksize > 0 && 1 <= fec <= 255
    ensures var top := MaxDataShardsPerBlock(fec) * blocksize;
            && FecUsed(size, blocksize, fec) == (if size > 4 * top then 0 else fec)
            && Fewest(BlocksNeeded(size, blocksize, fec), size, top)
  {
    NeededFacts(size, blocksize, fec);
    var top, n := MaxDataShardsPerBlock(fec) * blocksize, BlocksNeeded(size, blocksize, fec);
    NextMultiple(n - 1, top);
    if n <= 4 { ProductAtMost(n, 4, top, top); } else { ProductAtMost(4, n - 1, top, top); }
  }

  /** The split of the source, block by block: `Split`, and what is good about it. */
  method SplitBlocks(size: nat, blocksize: nat, fec: nat) returns (blocks: seq<Block>, fecUsed: nat)
    requires size > 0 && blocksize >= 3 && 1 <= fec <= 255
    ensures blocks == Split(size, blocksize, fec) && fecUsed == FecUsed(size, blocksize, fec)
    ensures GoodSplit(blocks, size, blocksize, fec, fecUsed)
  {
    fecUsed := fec;
    var needed := BlocksNeeded(size, blocksize, fec);
    if needed > MAX_FEC_BLOCKS {
      fecUsed := 0;
      needed := MAX_FEC_BLOCKS;
    }
    NeededFacts(size, blocksize, fec);
    var unaligned := size / needed;
    var alignedShards := (unaligned + (blocksize - 1)) / blocksize;
    var aligned := alignedShards * blocksize;
    SplitFacts(size, blocksize, fec, needed, unaligned, alignedShards);

    blocks := CutBlocks(size, needed, aligned);
    SplitIsGood(size, blocksize, fec);
  }

  /** Block after block; the last one takes the rest. */
  method CutBlocks(size: nat, needed: nat, aligned: nat) returns (blocks: seq<Block>)
    requires needed > 0 && (needed - 1) * aligned <= size
    ensures |blocks| == needed && forall i :: 0 <= i < needed ==> blocks[i] == CutAt(size, needed, aligned, i)
  {
    blocks := [];
    for x := 0 to needed
      invariant |blocks| == x
      invariant forall i :: 0 <= i < x ==> blocks[i] == CutAt(size, needed, aligned, i)
    {
      ProductAtMost(x, needed - 1, aligned, aligned);
      NonNegative(x, aligned);
      if x == needed - 1 {
        blocks := blocks + [Block(x * aligned, size - x * aligned)];
      } else {
        blocks := blocks + [Block(x * aligned, aligned)];
      }
    }
  }

  lemma CutFacts(blocks: seq<Block>, size: nat, bs: nat, n: nat, aligned: nat)
    requires bs > 0 && |blocks| == n > 0 && (n - 1) * aligned < size && aligned > 0 && aligned % bs == 0
    requires forall i :: 0 <= i < n ==> blocks[i] == CutAt(size, n, aligned, i)
    ensures Contiguous(blocks, size)
    ensures forall b <- blocks :: b.length > 0 && b.offset % bs == 0
    ensures forall i :: 0 <= i < n - 1 ==> blocks[i].length % bs == 0
  {
    forall i | 0 <= i < n
      ensures blocks[i].offset % bs == 0
    {
      AlignedMultiple(i, aligned, bs);
    }
    forall i | 0 <= i < n - 1
      ensures blocks[i + 1].offset == blocks[i].offset + blocks[i].length
    {
      NextMultiple(i, aligned);
    }
    assert blocks[n - 1] == CutAt(size, n, aligned, n - 1);
  }

  lemma AlignedMultiple(i: nat, aligned: nat, bs: nat)
    requires bs > 0 && aligned % bs == 0
    ensures i * aligned % bs == 0
  {
    var u := aligned / bs;
    assert i * aligned == (i * u) * bs by {
      assert aligned == u * bs;
      assert i * (u * bs) == (i * u) * bs;
    }
    DivModUnique(i * aligned, bs, i * u, 0);
  }

  lemma CutFits(blocks: seq<Block>, size: nat, bs: nat, fec: nat, n: nat, aligned: nat)
    requires bs > 0 && 1 <= fec <= 255 && |blocks| == n > 0 && (n - 1) * aligned <= size
    requires forall i :: 0 <= i < n ==> blocks[i] == CutAt(size, n, aligned, i)
    requires aligned <= MaxDataShardsPerBlock(fec) * bs && size - (n - 1) * aligned <= MaxDataShardsPerBlock(fec) * bs
    ensures forall b <- blocks :: FitsWithParity(CeilDiv(b.length, bs), fec)
  {
    forall b <- blocks ensures FitsWithParity(CeilDiv(b.length, bs), fec) {
      CeilDivAtMost(b.length, bs, MaxDataShardsPerBlock(fec));
      ParityFits(CeilDiv(b.length, bs), fec);
    }
  }

  lemma CeilDivAtMost(a: nat, b: nat, m: nat)
    requires b > 0 && a <= m * b
    ensures CeilDiv(a, b) <= m
  {
    CeilDivZero(a, b);
    if a > 0 {
      var n, r := CeilDivParts(a, b);
      if n >= m {
        if n > m { StrideStep(b, m, n); }
        assert false;
      }
    }
  }

  /** How the number of blocks bounds the frame, in units of the largest block. */
  lemma NeededFacts(size: nat, bs: nat, fec: nat)
    requires size > 0 && bs > 0 && 1 <= fec <= 255
    ensures var top := MaxDataShardsPerBlock(fec) * bs;
            var n := BlocksNeeded(size, bs, fec);
            top >= 71 * bs && n >= 1 && n * top >= size && size > n * top - top
  {
    ShardLimits(fec);
    var top := MaxDataShardsPerBlock(fec) * bs;
    assert top >= 71 * bs;
    QuotientUp(size, top, (size + (top - 1)) / top);
  }

  lemma QuotientUp(size: nat, top: nat, n: int)
    requires size > 0 && top > 0 && n == (size + (top - 1)) / top
    ensures n >= 1 && n * top >= size && size > n * top - top
  {
    assert n * top + (size + (top - 1)) % top == size + (top - 1);
    PositiveFactor(n, top);
  }

  lemma PositiveFactor(n: int, top: nat)
    requires n * top > 0
    ensures n >= 1
  {
  }

  lemma SplitFacts(size: nat, bs: nat, fec: nat, n: nat, q: nat, u: nat)
    requires size > 0 && bs >= 3 && 1 <= fec <= 255
    requires n == if BlocksNeeded(size, bs, fec) > 4 then 4 else BlocksNeeded(size, bs, fec)
    requires n >= 1 && q == size / n && u == (q + (bs - 1)) / bs
    ensures (n - 1) * (u * bs) < size && u * bs > 0
    ensures BlocksNeeded(size, bs, fec) <= 4 ==>
      var top := MaxDataShardsPerBlock(fec) * bs; u * bs <= top && size - (n - 1) * (u * bs) <= top
  {
    NeededFacts(size, bs, fec);
    var m := MaxDataShardsPerBlock(fec);
    var top := m * bs;
    var len := u * bs;
    EuclidFacts(size, n, q);
    RoundUpFacts(q, bs, u);
    SmallProducts(n, q, top, len);
    var needed := BlocksNeeded(size, bs, fec);
    if needed <= 4 {
      if u > m { StrideStep(bs, m, u); }
      if u < m { StrideStep(bs, u, m); }
      OnLinear(size, n, q, len, top, bs);
    } else {
      ProductAtMost(5, needed, top, top);
    }
  }

  lemma EuclidFacts(size: nat, n: nat, q: nat)
    requires n > 0 && q == size / n
    ensures n * q <= size < n * q + n
  {
  }

  lemma RoundUpFacts(q: nat, bs: nat, u: nat)
    requires bs > 0 && u == (q + (bs - 1)) / bs
    ensures q <= u * bs < q + bs
  {
  }

  lemma OnLinear(size: nat, n: nat, q: nat, len: nat, top: nat, bs: nat)
    requires 1 <= n <= 4 && bs >= 3
    requires n * q <= size < n * q + n && size <= n * top && size > n * top - top
    requires q <= len < q + bs
    requires len > top ==> len >= top + bs
    requires len < top ==> len + bs <= top
    ensures len <= top && (n - 1) * len < size && size - (n - 1) * len <= top
  {
    SmallProducts(n, q, top, len);
  }

  /** Multiplication by the number of blocks, spelt out. */
  lemma SmallProducts(n: nat, q: int, top: int, len: int)
    requires 1 <= n <= 4
    ensures n == 1 ==> n * q == q && n * top == top && (n - 1) * len == 0
    ensures n == 2 ==> n * q == 2 * q && n * top == 2 * top && (n - 1) * len == len
    ensures n == 3 ==> n * q == 3 * q && n * top == 3 * top && (n - 1) * len == 2 * len
    ensures n == 4 ==> n * q == 4 * q && n * top == 4 * top && (n - 1) * len == 3 * len
  {
  }
}
