/** When a frame can be sent so that a client reads it back, told from its size, the packet size, the FEC
    percentage and the minimum of parity shards alone (src/stream.cpp). */
module VideoLimits {
  import opened Bytes
  import opened Packetizer
  import opened FecSplit
  import opened Reassembly
  import opened VideoSend
  import FecInfo

  function Blocksize(packetsize: nat): nat { packetsize + MAX_RTP_HEADER_SIZE }

  function PayloadSize(packetsize: nat): nat
    requires packetsize > NV_VIDEO_PACKET_SIZE
  {
    packetsize - NV_VIDEO_PACKET_SIZE
  }

  /** The size of a frame with its packet headers in it. */
  function PacketisedSize(size: nat, packetsize: nat): (total: nat)
    requires size > 0 && packetsize > NV_VIDEO_PACKET_SIZE
    ensures total >= size
  {
    NonNegative(CeilDiv(size, PayloadSize(packetsize)), RAW_HEADER);
    CeilDiv(size, PayloadSize(packetsize)) * RAW_HEADER + size
  }

  /** What a block of `d` data shards puts in the fields of its packets fits them. */
  predicate ShardsFit(d: nat, fec: nat, minParity: nat)
    requires d > 0
  {
    var (parity, percentage) := FecInfo.AdjustParity(d, fec, minParity);
    d + parity <= 1024 && d < 1024 && percentage < 256
  }

  /** The minimum does not apply, or stands for less than 256 percent. */
  predicate MinimumFits(d: nat, fec: nat, minParity: nat) {
    ParityShards(d, fec) >= minParity || 100 * minParity < 256 * d
  }

  /** Without FEC the block size the source itself tests decides, with FEC the minimum does. */
  predicate FrameFits(size: nat, packetsize: nat, fec: nat, minParity: nat)
    requires size > 0 && packetsize > NV_VIDEO_PACKET_SIZE && 1 <= fec <= 255
  {
    var total, bs := PacketisedSize(size, packetsize), Blocksize(packetsize);
    if FecUsed(total, bs, fec) == 0 then AlignedShards(total, bs, fec) < 1024
    else forall b <- Split(total, bs, fec) :: MinimumFits(CeilDiv(b.length, bs), fec, minParity)
  }

  lemma FitsWithFec(d: nat, fec: nat, minParity: nat)
    requires d > 0 && 1 <= fec <= 255 && d + ParityShards(d, fec) <= DATA_SHARDS_MAX
    ensures ShardsFit(d, fec, minParity) <==> MinimumFits(d, fec, minParity)
  {
    if ParityShards(d, fec) < minParity {
      QuotientBelow(100 * minParity, d, 256);
    }
  }

  lemma QuotientBelow(n: nat, d: nat, m: nat)
    requires d > 0
    ensures n / d < m <==> n < m * d
  {
    DivParts(n, d);
    NextMultiple(n / d, d);
    if n / d < m { ProductAtMost(n / d + 1, m, d, d); } else { ProductAtMost(m, n / d, d, d); }
  }

  lemma FitsWithoutFec(d: nat, minParity: nat)
    requires d > 0
    ensures ShardsFit(d, 0, minParity) <==> d < 1024
  {
  }

  /** The last packet of a packetised frame holds its header and at least one byte. */
  lemma LastPacketHasRoom(size: nat, packetsize: nat)
    requires size > 0 && packetsize > NV_VIDEO_PACKET_SIZE
    ensures var rest := PacketisedSize(size, packetsize) % Blocksize(packetsize); rest == 0 || rest > RAW_HEADER
  {
    var sl, bs := PayloadSize(packetsize), Blocksize(packetsize);
    var n, r := CeilDivParts(size, sl);
    NextMultiple(n, RAW_HEADER);
    Distribute(n, RAW_HEADER, sl);
    NextMultiple(n, bs);
    if r == sl {
      DivModUnique(PacketisedSize(size, packetsize), bs, n + 1, 0);
    } else {
      DivModUnique(PacketisedSize(size, packetsize), bs, n, RAW_HEADER + r);
    }
  }

  /** A quarter, rounded up to whole packets, leaves no more than that for the last block. */
  lemma LastQuarter(size: nat, bs: nat, q: nat, u: nat)
    requires bs > RAW_HEADER && (size % bs == 0 || size % bs > RAW_HEADER)
    requires q == size / 4 && u == (q + (bs - 1)) / bs
    ensures size <= 4 * (u * bs)
  {
    RoundUpFacts(q, bs, u);
    if u * bs == q {
      DivModUnique(4 * q, bs, 4 * u, 0);
      DivModUnique(size, bs, 4 * u, size - 4 * q);
    }
  }

  /** Without FEC all four blocks fit exactly when the first does. */
  lemma SplitFitsWithoutFec(size: nat, bs: nat, fec: nat, minParity: nat)
    requires size > 0 && bs > RAW_HEADER && (size % bs == 0 || size % bs > RAW_HEADER) && 1 <= fec <= 255
    requires FecUsed(size, bs, fec) == 0
    requires forall b <- Split(size, bs, fec) :: CeilDiv(b.length, bs) > 0
    ensures (forall b <- Split(size, bs, fec) :: ShardsFit(CeilDiv(b.length, bs), 0, minParity))
       <==> AlignedShards(size, bs, fec) < 1024
  {
    var blocks, u := Split(size, bs, fec), AlignedShards(size, bs, fec);
    LastQuarter(size, bs, size / 4, u);
    CeilDivWhole(u, bs);
    FitsWithoutFec(u, minParity);
    assert blocks[0] in blocks;
    forall b <- blocks ensures CeilDiv(b.length, bs) <= u {
      CeilDivAtMost(b.length, bs, u);
    }
    forall b <- blocks ensures ShardsFit(CeilDiv(b.length, bs), 0, minParity) <==> CeilDiv(b.length, bs) < 1024 {
      FitsWithoutFec(CeilDiv(b.length, bs), minParity);
    }
  }

  /** Every block that is sent fits exactly when the frame does. */
  lemma SplitFitsIff(size: nat, packetsize: nat, fec: nat, minParity: nat, total: nat, bs: nat, blocks: seq<Block>)
    requires size > 0 && packetsize > NV_VIDEO_PACKET_SIZE && 1 <= fec <= 255
    requires total == PacketisedSize(size, packetsize) && bs == Blocksize(packetsize)
    requires blocks == Split(total, bs, fec) && GoodSplit(blocks, total, bs, fec, FecUsed(total, bs, fec))
    requires forall b <- blocks :: CeilDiv(b.length, bs) > 0
    ensures (forall b <- blocks :: ShardsFit(CeilDiv(b.length, bs), FecUsed(total, bs, fec), minParity))
       <==> FrameFits(size, packetsize, fec, minParity)
  {
    if FecUsed(total, bs, fec) == 0 {
      LastPacketHasRoom(size, packetsize);
      SplitFitsWithoutFec(total, bs, fec, minParity);
    } else {
      forall b <- blocks
        ensures ShardsFit(CeilDiv(b.length, bs), fec, minParity) <==> MinimumFits(CeilDiv(b.length, bs), fec, minParity)
      {
        FitsWithFec(CeilDiv(b.length, bs), fec, minParity);
      }
    }
  }

  // ---- frames that fit and frames that do not

  /** With FEC, a minimum of at most two parity shards is never in the way. */
  lemma SmallMinimumFits(size: nat, packetsize: nat, fec: nat, minParity: nat)
    requires size > 0 && packetsize > NV_VIDEO_PACKET_SIZE && 1 <= fec <= 255 && minParity <= 2
    requires FecUsed(PacketisedSize(size, packetsize), Blocksize(packetsize), fec) != 0
    ensures FrameFits(size, packetsize, fec, minParity)
  {
    var total, bs := PacketisedSize(size, packetsize), Blocksize(packetsize);
    SplitIsGood(total, bs, fec);
    forall b <- Split(total, bs, fec) ensures MinimumFits(CeilDiv(b.length, bs), fec, minParity) {
      CeilDivZero(b.length, bs);
    }
  }

  /** A frame of one packet fits exactly when the minimum does not apply or is at most two. */
  lemma LonePacketFits(size: nat, packetsize: nat, fec: nat, minParity: nat)
    requires packetsize > NV_VIDEO_PACKET_SIZE && 0 < size <= PayloadSize(packetsize) && 1 <= fec <= 255
    ensures FrameFits(size, packetsize, fec, minParity) <==> ParityShards(1, fec) >= minParity || minParity <= 2
  {
    var total, bs := PacketisedSize(size, packetsize), Blocksize(packetsize);
    CeilDivSmall(size, PayloadSize(packetsize));
    CeilDivSmall(total, bs);
    OneBlock(total, bs, fec);
    assert Split(total, bs, fec)[0] in Split(total, bs, fec);
  }

  lemma OneBlock(total: nat, bs: nat, fec: nat)
    requires 0 < total <= bs && bs >= 3 && 1 <= fec <= 255
    ensures BlocksNeeded(total, bs, fec) == 1 && Split(total, bs, fec) == [Block(0, total)]
  {
    ShardLimits(fec);
    var most := MaxDataShardsPerBlock(fec) * bs;
    ProductAtMost(1, MaxDataShardsPerBlock(fec), bs, bs);
    DivModUnique(total + (most - 1), most, 1, total - 1);
  }

  /** 4092 bytes behind the frame header, in packets with one byte of payload each, go without FEC into blocks
      of 1025 packets: no client reads them, whatever the minimum. */
  lemma FrameTooLong(minParity: nat)
    ensures BlocksNeeded(PacketisedSize(4100, 17), Blocksize(17), 20) > MAX_FEC_BLOCKS
    ensures AlignedShards(PacketisedSize(4100, 17), Blocksize(17), 20) == 1025
    ensures !FrameFits(4100, 17, 20, minParity)
  {
    CeilDivWhole(4100, 1);
    TwentyBlocks(PacketisedSize(4100, 17), Blocksize(17), 20);
  }

  lemma TwentyBlocks(total: nat, bs: nat, fec: nat)
    requires total == 135300 && bs == 33 && fec == 20
    ensures BlocksNeeded(total, bs, fec) == 20 && AlignedShards(total, bs, fec) == 1025
  {
    DivModUnique(25500, 100 + fec, 212, 60);
    DivModUnique(total + 6995, 6996, 20, 2375);
    DivModUnique(total, 4, 33825, 0);
    DivModUnique(33825 + 32, bs, 1025, 32);
  }
}
