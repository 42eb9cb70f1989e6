/** The numbers and IVs of the video packets of a session, over all its frames (src/stream.cpp). */
module VideoNumbers {
  import opened Bytes
  import opened Reassembly
  import opened VideoSend
  import GcmIv

  function CounterAfter(c: Cipher, counter: nat, n: nat): nat {
    if c.Gcm? then GcmIv.After(counter, GcmIv.TWO_64, n) else counter
  }

  lemma {:induction false} CounterAdds(c: Cipher, counter: nat, a: nat, b: nat)
    ensures CounterAfter(c, CounterAfter(c, counter, a), b) == CounterAfter(c, counter, a + b)
  {
    if b > 0 { CounterAdds(c, counter, a, b - 1); }
  }

  lemma CounterRuns(c: Cipher, counter: nat, a: nat, middle: nat, b: nat, last: nat, n: nat)
    requires middle == CounterAfter(c, counter, a) && last == CounterAfter(c, middle, b) && n == a + b
    ensures last == CounterAfter(c, counter, n)
  {
    CounterAdds(c, counter, a, b);
  }

  /** What a receiver reads from a packet: the RTP number, for a data packet the same number, of 24 bits, in the
      stream index from bit 8 on, and the IV of the counter. */
  ghost predicate Numbered(p: Packet, c: Cipher, number: nat, counter: nat, data: bool) {
    && |Opened(c, p)| >= RAW_HEADER
    && FromBigEndian16(Opened(c, p)[SEQUENCE_AT..TIMESTAMP_AT]) == number % 65536
    && (data ==> FromLittleEndian(Opened(c, p)[STREAM_INDEX_AT..FRAME_INDEX_AT]) == number % 0x100_0000 * 256)
    && (c.Gcm? ==> p.prefix.EncPrefix? && p.prefix.iv == GcmIv.VideoIv(counter))
  }

  /** Packets that follow one another from `number` and `counter` on; `data` tells the data packets. */
  ghost predicate NumberedFrom(packets: seq<Packet>, c: Cipher, number: nat, counter: nat, data: seq<bool>) {
    && |data| == |packets|
    && forall k :: 0 <= k < |packets| ==> Numbered(packets[k], c, number + k, CounterAfter(c, counter, k), data[k])
  }

  lemma NumberedJoin(a: seq<Packet>, b: seq<Packet>, c: Cipher, number: nat, counter: nat, dataA: seq<bool>,
                     dataB: seq<bool>, packets: seq<Packet>, data: seq<bool>)
    requires packets == a + b && data == dataA + dataB && NumberedFrom(a, c, number, counter, dataA)
    requires NumberedFrom(b, c, number + |a|, CounterAfter(c, counter, |a|), dataB)
    ensures NumberedFrom(packets, c, number, counter, data)
  {
    forall k | 0 <= k < |packets| ensures Numbered(packets[k], c, number + k, CounterAfter(c, counter, k), data[k]) {
      if k >= |a| {
        CounterAdds(c, counter, |a|, k - |a|);
        assert packets[k] == b[k - |a|];
      }
    }
  }

  /** RTP numbers run consecutively modulo 65536; the stream index has 24 bits of the same number, from bit 8 on. */
  lemma NumbersAgree(lowseq: nat, x: nat)
    ensures FromBigEndian16(BigEndian16(lowseq + x)) == (lowseq + x) % 65536
    ensures FromLittleEndian(LittleEndian(4, StreamIndex(lowseq, x))) == (lowseq + x) % 0x100_0000 * 256
  {
    FourBytesRead(StreamIndex(lowseq, x));
    SplitNumber(lowseq + x);
  }

  lemma FourBytesRead(i: nat)
    ensures FromLittleEndian(LittleEndian(4, i)) == i % 0x1_0000_0000
    ensures i < 0x1_0000_0000 ==> i % 0x1_0000_0000 == i
  {
    LittleEndianRoundTrip(4, i);
    assert Pow256(4) == 0x1_0000_0000;
    if i < 0x1_0000_0000 { DivModUnique(i, 0x1_0000_0000, 0, i); }
  }

  lemma SplitNumber(n: nat)
    ensures n / 256 % 256 * 256 + n % 256 == n % 65536
    ensures n % 0x1_0000_0000 * 256 % 0x1_0000_0000 == n % 0x100_0000 * 256 < 0x1_0000_0000
  {
    var q, r := n / 0x1_0000_0000, n % 0x1_0000_0000;
    var h, low := r / 0x100_0000, r % 0x100_0000;
    DivModUnique(r * 256, 0x1_0000_0000, h, low * 256);
    DivModUnique(n, 0x100_0000, q * 256 + h, low);
    ModSplit(n, 256);
  }

  /** Two packets of one run are encrypted under one IV exactly when a multiple of the range of the counter
      lies between them. */
  lemma IvsRepeatOnlyOnWrap(packets: seq<Packet>, c: Cipher, data: seq<bool>, i: nat, j: nat)
    requires c.Gcm? && NumberedFrom(packets, c, 0, 0, data) && i < j < |packets|
    ensures packets[i].prefix.EncPrefix? && packets[j].prefix.EncPrefix?
    ensures packets[i].prefix.iv == packets[j].prefix.iv <==> (j - i) % GcmIv.TWO_64 == 0
  {
    assert Numbered(packets[i], c, i, CounterAfter(c, 0, i), data[i]);
    assert Numbered(packets[j], c, j, CounterAfter(c, 0, j), data[j]);
    GcmIv.IvInjective(GcmIv.HostVideo, GcmIv.After(0, GcmIv.TWO_64, i), GcmIv.HostVideo,
                      GcmIv.After(0, GcmIv.TWO_64, j));
    GcmIv.NumbersBetween(GcmIv.TWO_64, i, j - i);
  }
}
