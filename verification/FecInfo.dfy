/** The bit fields of the video header and the parity count (src/stream.cpp). */
module FecInfo {
  import opened Bytes
  import FecSplit

  const TWO_32: nat := 0x1_0000_0000

  /** Bitwise or on unbounded naturals. */
  function BitOr(a: nat, b: nat): nat {
    if a == 0 then b
    else if b == 0 then a
    else 2 * BitOr(a / 2, b / 2) + if a % 2 == 1 || b % 2 == 1 then 1 else 0
  }

  function Pow2(k: nat): (p: nat)
    ensures p > 0
  {
    if k == 0 then 1 else 2 * Pow2(k - 1)
  }

  /** Or is addition when the low operand ends below the lowest bit of the high one. */
  lemma {:induction false} OrDisjoint(a: nat, k: nat, b: nat)
    requires b < Pow2(k)
    ensures BitOr(a * Pow2(k), b) == a * Pow2(k) + b
  {
    if k > 0 && a > 0 {
      var half := Pow2(k - 1);
      Doubles(a, half);
      if b > 0 { OrDisjoint(a, k - 1, b / 2); }
    }
  }

  lemma Doubles(a: nat, half: nat)
    requires a > 0 && half > 0
    ensures a * (2 * half) == 2 * (a * half) && a * half > 0
  {
  }

  /** fecInfo = x << 12 | data_shards << 22 | percentage << 4, truncated to 32 bits. */
  function FecInfo(x: nat, dataShards: nat, percentage: nat): (r: nat)
    ensures r < TWO_32
  {
    BitOr(BitOr(x * 4096, dataShards * 4194304), percentage * 16) % TWO_32
  }

  /** The three fields as the client reads them. */
  function Decode(info: nat): (nat, nat, nat) {
    (info / 4096 % 1024, info / 4194304 % 1024, info / 16 % 256)
  }

  lemma {:induction false} OrCommutes(a: nat, b: nat)
    ensures BitOr(a, b) == BitOr(b, a)
    decreases a
  {
    if a > 0 && b > 0 { OrCommutes(a / 2, b / 2); }
  }

  lemma {:induction false} OrAtLeast(a: nat, b: nat)
    ensures BitOr(a, b) >= b
    decreases a
  {
    if a > 0 && b > 0 { OrAtLeast(a / 2, b / 2); }
  }

  lemma OrHalf(a: nat, b: nat)
    ensures BitOr(a, b) / 2 == BitOr(a / 2, b / 2)
    ensures BitOr(a, b) % 2 == if a % 2 == 1 || b % 2 == 1 then 1 else 0
  {
  }

  lemma Halve(a: nat, p: nat)
    requires p > 0
    ensures a / (2 * p) == a / 2 / p && a % (2 * p) == 2 * (a / 2 % p) + a % 2
  {
    var h := a / 2;
    var q, r := h / p, h % p;
    SplitBy(h, p);
    Twice(q, p);
    DivModUnique(a, 2 * p, q, 2 * r + a % 2);
  }

  lemma HalvePow(a: nat, k: nat)
    requires k > 0
    ensures a / Pow2(k) == a / 2 / Pow2(k - 1) && a % Pow2(k) == 2 * (a / 2 % Pow2(k - 1)) + a % 2
  {
    Halve(a, Pow2(k - 1));
  }

  lemma SplitBy(a: nat, p: nat)
    requires p > 0
    ensures a == a / p * p + a % p && 0 <= a % p < p
  {
  }

  lemma Twice(q: int, p: int)
    ensures q * (2 * p) == 2 * (q * p)
  {
  }

  /** The bits from position `k` on of an or are the or of those bits. */
  lemma {:induction false} OrDiv(a: nat, b: nat, k: nat, highA: nat, highB: nat)
    requires highA == a / Pow2(k) && highB == b / Pow2(k)
    ensures BitOr(a, b) / Pow2(k) == BitOr(highA, highB)
    decreases k
  {
    if k > 0 {
      HalvePow(a, k);
      HalvePow(b, k);
      OrDiv(a / 2, b / 2, k - 1, highA, highB);
      OrHalf(a, b);
      HalvePow(BitOr(a, b), k);
    }
  }

  /** And the bits below it. */
  lemma {:induction false} OrMod(a: nat, b: nat, k: nat)
    ensures BitOr(a, b) % Pow2(k) == BitOr(a % Pow2(k), b % Pow2(k))
    decreases k
  {
    if k > 0 {
      var p := Pow2(k - 1);
      HalvePow(BitOr(a, b), k);
      HalvePow(a, k);
      HalvePow(b, k);
      OrHalf(a, b);
      OrMod(a / 2, b / 2, k - 1);
      OrOfPairs(a / 2 % p, b / 2 % p, a % 2, b % 2);
    }
  }

  lemma OrOfPairs(a: nat, b: nat, x: nat, y: nat)
    requires x < 2 && y < 2
    ensures BitOr(2 * a + x, 2 * b + y) == 2 * BitOr(a, b) + if x == 1 || y == 1 then 1 else 0
  {
    OrHalf(2 * a + x, 2 * b + y);
  }

  lemma Pow2Values()
    ensures Pow2(4) == 16 && Pow2(6) == 64 && Pow2(8) == 256 && Pow2(10) == 1024
    ensures Pow2(12) == 4096 && Pow2(22) == 4194304
  {
    assert Pow2(4) == 16;
    assert Pow2(6) == 64;
    assert Pow2(8) == 256;
    assert Pow2(10) == 1024;
    assert Pow2(12) == 4096;
    assert Pow2(16) == 65536;
    assert Pow2(20) == 1048576;
  }

  lemma OrShifted(high: nat, k: nat, p: nat, low: nat)
    requires p == Pow2(k) && low < p
    ensures BitOr(high * p, low) == high * p + low
  {
    OrDisjoint(high, k, low);
  }

  lemma FieldsOr(x: nat, d: nat, p: nat)
    requires x < 1024 && p < 256
    ensures BitOr(BitOr(x * 4096, d * 4194304), p * 16) == (d * 1024 + x) * 4096 + p * 16
  {
    Pow2Values();
    OrCommutes(x * 4096, d * 4194304);
    OrShifted(d, 22, 4194304, x * 4096);
    OrShifted(d * 1024 + x, 12, 4096, p * 16);
  }

  lemma FecInfoIsSum(x: nat, d: nat, p: nat)
    requires x < 1024 && d < 1024 && p < 256
    ensures FecInfo(x, d, p) == ((d * 1024 + x) * 4096 + p * 16) % TWO_32
  {
    FieldsOr(x, d, p);
  }

  /** The client reads back index, data count and percentage exactly when they fit 10, 10 and 8 bits. */
  lemma FecInfoDecodes(x: nat, dataShards: nat, percentage: nat)
    ensures Decode(FecInfo(x, dataShards, percentage)) == (x, dataShards, percentage)
       <==> (x < 1024 && dataShards < 1024 && percentage < 256)
  {
    DecodeBounds(FecInfo(x, dataShards, percentage));
    if x < 1024 && dataShards < 1024 && percentage < 256 {
      FecInfoIsSum(x, dataShards, percentage);
      FieldsOf(x, dataShards, percentage);
    }
  }

  lemma DecodeBounds(info: nat)
    ensures Decode(info).0 < 1024 && Decode(info).1 < 1024 && Decode(info).2 < 256
  {
  }

  lemma FieldsOf(x: nat, d: nat, p: nat)
    requires x < 1024 && d < 1024 && p < 256
    ensures var v := (d * 1024 + x) * 4096 + p * 16;
            v % TWO_32 == v && Decode(v) == (x, d, p)
  {
    var v := (d * 1024 + x) * 4096 + p * 16;
    DivModUnique(v, 4096, d * 1024 + x, p * 16);
    DivModUnique(d * 1024 + x, 1024, d, x);
    DivModUnique(v, 4194304, d, x * 4096 + p * 16);
    DivModUnique(d, 1024, 0, d);
    DivModUnique(v, 16, (d * 1024 + x) * 256 + p, 0);
    DivModUnique((d * 1024 + x) * 256 + p, 256, d * 1024 + x, p);
  }

  // ---- what is read when the fields do not fit

  /** Cutting a word to 32 bits does not change a field inside them. */
  lemma FieldSurvives(v: nat, low: nat, width: nat, rest: nat)
    requires low > 0 && width > 0 && rest > 0 && low * (width * rest) == TWO_32
    ensures v % TWO_32 / low % width == v / low % width
  {
    var q, r := v / TWO_32, v % TWO_32;
    SplitBy(r, low);
    SplitBy(r / low, width);
    var a := r / low / width;
    Regroup(q, low, width * rest);
    DivModUnique(v, low, q * (width * rest) + r / low, r % low);
    Regroup(q, width, rest);
    Join(q * rest, a, width);
    DivModUnique(v / low, width, q * rest + a, r / low % width);
  }

  lemma Regroup(q: nat, a: nat, b: nat)
    ensures q * (a * b) == q * b * a
  {
  }

  lemma Join(a: nat, b: nat, m: nat)
    ensures (a + b) * m == a * m + b * m
  {
  }

  /** The index field, for every index, count and percentage: the index without its high bits, with the
      percentage above its eight bits spilling in. */
  lemma IndexRead(x: nat, d: nat, p: nat)
    ensures Decode(FecInfo(x, d, p)).0 == BitOr(x % 1024, p / 256 % 1024)
  {
    var v := BitOr(BitOr(x * 4096, d * 4194304), p * 16);
    FieldSurvives(v, 4096, 1024, 1024);
    Pow2Values();
    DivModUnique(x * 4096, 4096, x, 0);
    DivModUnique(d * 4194304, 4096, d * 1024, 0);
    Shifted(p, 16, 256);
    OrDiv(x * 4096, d * 4194304, 12, x, d * 1024);
    OrDiv(BitOr(x * 4096, d * 4194304), p * 16, 12, BitOr(x, d * 1024), p / 256);
    OrMod(BitOr(x, d * 1024), p / 256, 10);
    OrMod(x, d * 1024, 10);
    DivModUnique(d * 1024, 1024, d, 0);
    OrNothing(x % 1024);
  }

  lemma OrNothing(a: nat)
    ensures BitOr(a, 0) == a
  {
  }

  lemma Shifted(p: nat, low: nat, m: nat)
    requires low > 0 && m > 0
    ensures m * low > 0 && p * low / (m * low) == p / m
  {
    var q, r := p / m, p % m;
    SplitBy(p, m);
    Join(q * m, r, low);
    Regroup(q, low, m);
    ProductLess(r, m, low);
    DivModUnique(p * low, m * low, q, r * low);
  }

  lemma ProductLess(r: nat, m: nat, low: nat)
    requires r < m && low > 0
    ensures 0 <= r * low < m * low
  {
    StrideStep(low, r, m);
  }

  /** The count field: its low ten bits, with the high bits of index and percentage spilling in. */
  lemma CountRead(x: nat, d: nat, p: nat)
    ensures Decode(FecInfo(x, d, p)).1 == BitOr(BitOr(x / 1024 % 1024, d % 1024), p / 262144 % 1024)
  {
    var v := BitOr(BitOr(x * 4096, d * 4194304), p * 16);
    FieldSurvives(v, 4194304, 1024, 1);
    Pow2Values();
    Shifted(x, 4096, 1024);
    DivModUnique(d * 4194304, 4194304, d, 0);
    Shifted(p, 16, 262144);
    OrDiv(x * 4096, d * 4194304, 22, x / 1024, d);
    OrDiv(BitOr(x * 4096, d * 4194304), p * 16, 22, BitOr(x / 1024, d), p / 262144);
    OrMod(BitOr(x / 1024, d), p / 262144, 10);
    OrMod(x / 1024, d, 10);
  }

  /** A count that is a multiple of 1024 is read as zero. */
  lemma CountVanishes(x: nat, d: nat, p: nat)
    requires x < 1024 && d % 1024 == 0 && p < 262144
    ensures Decode(FecInfo(x, d, p)).1 == 0
  {
    CountRead(x, d, p);
    DivModUnique(x, 1024, 0, x);
    DivModUnique(p, 262144, 0, p);
  }

  /** The percentage field: its low eight bits, whatever index and count are. */
  lemma PercentageRead(x: nat, d: nat, p: nat)
    ensures Decode(FecInfo(x, d, p)).2 == p % 256
  {
    var v := BitOr(BitOr(x * 4096, d * 4194304), p * 16);
    FieldSurvives(v, 16, 256, 1048576);
    Pow2Values();
    DivModUnique(x * 4096, 16, x * 256, 0);
    DivModUnique(d * 4194304, 16, d * 262144, 0);
    DivModUnique(p * 16, 16, p, 0);
    OrDiv(x * 4096, d * 4194304, 4, x * 256, d * 262144);
    OrDiv(BitOr(x * 4096, d * 4194304), p * 16, 4, BitOr(x * 256, d * 262144), p);
    OrMod(BitOr(x * 256, d * 262144), p, 8);
    OrMod(x * 256, d * 262144, 8);
    DivModUnique(x * 256, 256, x, 0);
    DivModUnique(d * 262144, 256, d * 1024, 0);
  }

  // ---- the parity count

  /** The parity count fec::encode uses, and the percentage it reports. */
  function AdjustParity(dataShards: nat, fec: nat, minParity: nat): (r: (nat, nat))
    requires dataShards > 0
  {
    var parity := FecSplit.ParityShards(dataShards, fec);
    if parity < minParity && fec != 0 then (minParity, 100 * minParity / dataShards) else (parity, fec)
  }

  /** The parity count is the larger of the minimum and the percentage of the data count, rounded up; the percentage
      reported is the one configured, or that of the minimum, rounded down. Without FEC both are zero. */
  lemma AdjustedIs(d: nat, fec: nat, minParity: nat)
    requires d > 0
    ensures var (parity, percentage) := AdjustParity(d, fec, minParity);
            if fec == 0 then parity == percentage == 0
            else
              && parity >= minParity && 100 * parity >= d * fec
              && (100 * (parity - 1) < d * fec || parity == minParity)
              && (percentage == fec || (100 * (minParity - 1) >= d * fec && parity == minParity
                                        && percentage * d <= 100 * minParity < (percentage + 1) * d))
  {
    if fec != 0 && FecSplit.ParityShards(d, fec) < minParity {
      DivParts(100 * minParity, d);
      NextMultiple(100 * minParity / d, d);
    }
  }

  /** A client computes the parity count from the percentage it reads, which has eight bits. It obtains the
      count used exactly when the minimum did not apply, or the new percentage fits and its rounding lost
      less than one parity shard. */
  lemma ParityRecomputes(x: nat, d: nat, fec: nat, minParity: nat)
    requires d > 0 && fec < 256
    ensures var (parity, percentage) := AdjustParity(d, fec, minParity);
            FecSplit.ParityShards(d, Decode(FecInfo(x, d, percentage)).2) == parity
            <==> (FecSplit.ParityShards(d, fec) >= minParity || fec == 0
                  || (100 * minParity / d < 256 && 100 * minParity % d < 100))
  {
    var (parity, percentage) := AdjustParity(d, fec, minParity);
    PercentageRead(x, d, percentage);
    if FecSplit.ParityShards(d, fec) < minParity && fec != 0 {
      MinimumRecomputes(d, minParity);
    } else {
      DivModUnique(fec, 256, 0, fec);
    }
  }

  lemma MinimumRecomputes(d: nat, minParity: nat)
    requires d > 0
    ensures FecSplit.ParityShards(d, 100 * minParity / d % 256) == minParity
       <==> 100 * minParity / d < 256 && 100 * minParity % d < 100
  {
    var p, r := 100 * minParity / d, 100 * minParity % d;
    SplitBy(100 * minParity, d);
    if p < 256 {
      DivModUnique(p, 256, 0, p);
      RoundedUp(d * p, minParity, r);
    } else {
      CutPercentage(d, minParity, p);
    }
  }

  lemma CutPercentage(d: nat, minParity: nat, p: nat)
    requires d > 0 && p >= 256 && p * d <= 100 * minParity
    ensures FecSplit.ParityShards(d, p % 256) < minParity
  {
    var read := p % 256;
    SplitBy(p, 256);
    ProductAtMost(read, p - 256, d, d);
    Spread(p, 256, d);
    TooFew(d * read, minParity);
  }

  lemma Spread(p: int, w: int, d: int)
    ensures (p - w) * d == p * d - w * d
  {
  }

  lemma RoundedUp(n: nat, count: nat, r: nat)
    requires n + r == 100 * count
    ensures (n + 99) / 100 == count <==> r < 100
  {
  }

  lemma TooFew(n: nat, count: nat)
    requires n + 256 <= 100 * count
    ensures (n + 99) / 100 < count
  {
  }

  /** With at most 100 data shards only the eight bits can be in the way. */
  lemma ParityRecomputesForSmallBlocks(x: nat, d: nat, fec: nat, minParity: nat)
    requires 0 < d <= 100 && fec < 256
    ensures var (parity, percentage) := AdjustParity(d, fec, minParity);
            FecSplit.ParityShards(d, Decode(FecInfo(x, d, percentage)).2) == parity
            <==> (FecSplit.ParityShards(d, fec) >= minParity || fec == 0 || 100 * minParity / d < 256)
  {
    ParityRecomputes(x, d, fec, minParity);
  }

  /** Above 100 the rounding can be: 152 data shards at 1% with a minimum of 3 announce a percentage for 2. */
  lemma ParityRecomputationCanFail()
    ensures AdjustParity(152, 1, 3) == (3, 1) && FecSplit.ParityShards(152, 1) == 2
  {
  }

  /** The eight bits can be in the way, too: a block of a single data shard announces its parity count exactly
      when the minimum is at most 2; a minimum of 3 is 300%, of which 44% is left. */
  lemma SingleShardParity(x: nat, fec: nat, minParity: nat)
    requires 1 <= fec <= 100 && minParity > 1
    ensures var (parity, percentage) := AdjustParity(1, fec, minParity);
      && parity == minParity && percentage == 100 * minParity
      && (FecSplit.ParityShards(1, Decode(FecInfo(x, 1, percentage)).2) == parity <==> minParity <= 2)
  {
    ParityRecomputesForSmallBlocks(x, 1, fec, minParity);
  }

  /** The only data packet of a one-packet block is then announced as a parity packet. */
  lemma LonePacketMisplaced(x: nat, d: nat, fec: nat, minParity: nat)
    requires x == 0 && d == 1 && 1 <= fec <= 100 && 3 <= minParity <= 1023
    ensures var (index, count, _) := Decode(FecInfo(x, d, AdjustParity(d, fec, minParity).1)); index >= count == 1
  {
    SingleShardParity(x, fec, minParity);
    LoneIndex(x, d, AdjustParity(d, fec, minParity).1);
    LoneCount(x, d, AdjustParity(d, fec, minParity).1);
  }

  lemma LoneIndex(x: nat, d: nat, p: nat)
    requires 256 <= p < 262144
    ensures Decode(FecInfo(x, d, p)).0 >= 1
  {
    IndexRead(x, d, p);
    OrAtLeast(x % 1024, p / 256 % 1024);
  }

  lemma LoneCount(x: nat, d: nat, p: nat)
    requires x < 1024 && d < 1024 && p < 262144
    ensures Decode(FecInfo(x, d, p)).1 == d
  {
    CountRead(x, d, p);
    SmallCount(x, d, p, x / 1024 % 1024, d % 1024, p / 262144 % 1024);
  }

  lemma SmallCount(x: nat, d: nat, p: nat, a: nat, b: nat, c: nat)
    requires x < 1024 && d < 1024 && p < 262144
    requires a == x / 1024 % 1024 && b == d % 1024 && c == p / 262144 % 1024
    ensures BitOr(BitOr(a, b), c) == d
  {
    OrOnly(a, b, c);
  }

  lemma OrOnly(a: nat, d: nat, c: nat)
    requires a == 0 && c == 0
    ensures BitOr(BitOr(a, d), c) == d
  {
    OrCommutes(a, d);
    OrNothing(d);
  }

  /** Packets 0 and 1024 of a block claim the same index, whatever is announced with them. */
  lemma PacketsCollide(d: nat, p: nat)
    ensures Decode(FecInfo(0, d, p)).0 == Decode(FecInfo(1024, d, p)).0
  {
    IndexRead(0, d, p);
    IndexRead(1024, d, p);
  }

  /** The split alone does not see to it: 252 data shards at 1% with a minimum of 5 make 257. */
  lemma MinimumCanExceedLimit()
    ensures 252 + FecSplit.ParityShards(252, 1) == 255 && 252 + AdjustParity(252, 1, 5).0 == 257
  {
  }
}
