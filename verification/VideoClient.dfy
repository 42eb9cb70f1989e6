/** A client that puts a frame together from its opened packets alone, in whatever order they arrive, and when
    it can: the receiving side of the header fields that videoBroadcastThread (src/stream.cpp) writes. */
module VideoClient {
  import opened Bytes
  import opened Wrappers
  import opened Reassembly
  import FecInfo
  import VideoSend

  // ---- what the client reads from a packet

  function BlockOf(p: seq<Byte>): nat
    requires |p| >= RAW_HEADER
  {
    p[VideoSend.MULTI_FEC_BLOCKS_AT] / 16 % 4
  }

  function BlocksOf(p: seq<Byte>): nat
    requires |p| >= RAW_HEADER
  {
    p[VideoSend.MULTI_FEC_BLOCKS_AT] / 64 + 1
  }

  /** Index in the block, number of data packets of the block, percentage. */
  function FecOf(p: seq<Byte>): (nat, nat, nat)
    requires |p| >= RAW_HEADER
  {
    FecInfo.Decode(FromLittleEndian(p[VideoSend.FEC_INFO_AT..RAW_HEADER]))
  }

  predicate InBlock(p: seq<Byte>, b: nat) {
    |p| >= RAW_HEADER && BlockOf(p) == b
  }

  predicate Claims(p: seq<Byte>, b: nat, x: nat) {
    InBlock(p, b) && FecOf(p).0 == x
  }

  // ---- the client

  /** How many packets claim place `x` of block `b`. */
  function Copies(arrived: seq<seq<Byte>>, b: nat, x: nat): nat {
    if arrived == [] then 0 else (if Claims(arrived[0], b, x) then 1 else 0) + Copies(arrived[1..], b, x)
  }

  function Pick(arrived: seq<seq<Byte>>, b: nat, x: nat): seq<Byte> {
    if arrived == [] then [] else if Claims(arrived[0], b, x) then arrived[0] else Pick(arrived[1..], b, x)
  }

  /** The number of data packets the first packet of block `b` announces. */
  function CountOf(arrived: seq<seq<Byte>>, b: nat): nat {
    if arrived == [] then 0 else if InBlock(arrived[0], b) then FecOf(arrived[0]).1 else CountOf(arrived[1..], b)
  }

  ghost predicate Complete(arrived: seq<seq<Byte>>, b: nat) {
    CountOf(arrived, b) > 0 && forall x: nat :: x < CountOf(arrived, b) ==> Copies(arrived, b, x) == 1
  }

  ghost predicate Consistent(arrived: seq<seq<Byte>>, p: seq<Byte>, blocks: nat) {
    |p| >= RAW_HEADER && BlocksOf(p) == blocks && FecOf(p).1 == CountOf(arrived, BlockOf(p))
  }

  /** The packets agree on the number of blocks and of data packets in each, no two claim the same place, and
      every block has all its data packets. */
  ghost predicate Readable(arrived: seq<seq<Byte>>, blocks: nat) {
    && (forall p <- arrived :: Consistent(arrived, p, blocks))
    && (forall b: nat, x: nat :: Copies(arrived, b, x) <= 1)
    && (forall b: nat :: b < blocks ==> Complete(arrived, b))
  }

  function BlockData(arrived: seq<seq<Byte>>, b: nat, n: nat): seq<seq<Byte>> {
    seq(n, x requires 0 <= x < n => Pick(arrived, b, x))
  }

  /** The packets below the count of their block, by block and index. */
  function FrameData(arrived: seq<seq<Byte>>, blocks: nat): seq<seq<Byte>> {
    if blocks == 0 then []
    else FrameData(arrived, blocks - 1) + BlockData(arrived, blocks - 1, CountOf(arrived, blocks - 1))
  }

  /** The frame, or nothing when the packets do not make one. */
  ghost function ClientRead(arrived: seq<seq<Byte>>, payloadSize: nat): Option<seq<Byte>> {
    if arrived == [] || |arrived[0]| < RAW_HEADER then None
    else
      var blocks := BlocksOf(arrived[0]);
      if Readable(arrived, blocks) then Some(ReassembleAny(FrameData(arrived, blocks), payloadSize)) else None
  }

  // ---- what the host sends

  /** An FEC block: its opened packets, how many of them are data, and the percentage it reports. */
  datatype Block = Block(data: nat, percentage: nat, packets: seq<seq<Byte>>)

  /** Packet `x` of block `b` says so, through fields of limited width. */
  ghost predicate Carries(p: seq<Byte>, b: nat, blocks: nat, x: nat, data: nat, percentage: nat) {
    && |p| >= RAW_HEADER && BlockOf(p) == b && BlocksOf(p) == blocks
    && FecOf(p) == FecInfo.Decode(FecInfo.FecInfo(x, data, percentage))
  }

  ghost predicate BlockCarries(k: Block, b: nat, blocks: nat) {
    && 0 < k.data <= |k.packets| && (|k.packets| <= 1024 ==> k.percentage < 262144)
    && forall x :: 0 <= x < |k.packets| ==> Carries(k.packets[x], b, blocks, x, k.data, k.percentage)
  }

  ghost predicate FrameCarries(frame: seq<Block>, blocks: nat) {
    forall b :: 0 <= b < |frame| ==> BlockCarries(frame[b], b, blocks)
  }

  function Flat(frame: seq<Block>): seq<seq<Byte>> {
    if frame == [] then [] else Flat(frame[..|frame| - 1]) + frame[|frame| - 1].packets
  }

  function SentData(frame: seq<Block>): seq<seq<Byte>>
    requires forall k <- frame :: k.data <= |k.packets|
  {
    if frame == [] then [] else SentData(frame[..|frame| - 1]) + frame[|frame| - 1].packets[..frame[|frame| - 1].data]
  }

  /** Everything fits its field; the host knows all three before it sends. */
  predicate Fits(k: Block) {
    |k.packets| <= 1024 && k.data < 1024 && k.percentage < 256
  }

  // ---- counting places

  lemma {:induction false} CopiesConcat(s: seq<seq<Byte>>, t: seq<seq<Byte>>, b: nat, x: nat)
    ensures Copies(s + t, b, x) == Copies(s, b, x) + Copies(t, b, x)
  {
    if s == [] {
      assert s + t == t;
    } else {
      CopiesConcat(s[1..], t, b, x);
      assert (s + t)[1..] == s[1..] + t;
    }
  }

  lemma SameRest(p: seq<Byte>, s: multiset<seq<Byte>>, s': multiset<seq<Byte>>, t: multiset<seq<Byte>>,
                 t': multiset<seq<Byte>>)
    requires s == multiset{p} + s' && t == multiset{p} + t' && s == t
    ensures s' == t'
  {
    assert s' == s - multiset{p} && t' == t - multiset{p};
  }

  /** The order of arrival does not matter. */
  lemma {:induction false} CopiesInAnyOrder(s: seq<seq<Byte>>, t: seq<seq<Byte>>, b: nat, x: nat)
    requires multiset(s) == multiset(t)
    ensures Copies(s, b, x) == Copies(t, b, x)
    decreases |s|
  {
    if s == [] {
      assert |t| == |multiset(t)| == 0;
    } else {
      var k := Occurrence(s, t);
      CopiesInAnyOrder(s[1..], t[..k] + t[k + 1..], b, x);
      CopiesWithout(t, k, b, x);
    }
  }

  /** Where the first packet of one order is in the other. */
  lemma Occurrence(s: seq<seq<Byte>>, t: seq<seq<Byte>>) returns (k: nat)
    requires s != [] && multiset(s) == multiset(t)
    ensures k < |t| && t[k] == s[0] && multiset(s[1..]) == multiset(t[..k] + t[k + 1..])
  {
    assert s[0] in multiset(t);
    k :| 0 <= k < |t| && t[k] == s[0];
    assert s == [s[0]] + s[1..] && t == t[..k] + ([t[k]] + t[k + 1..]);
    SameRest(s[0], multiset(s), multiset(s[1..]), multiset(t), multiset(t[..k] + t[k + 1..]));
  }

  lemma CopiesWithout(t: seq<seq<Byte>>, k: nat, b: nat, x: nat)
    requires k < |t|
    ensures Copies(t, b, x) == Copies(t[..k] + t[k + 1..], b, x) + if Claims(t[k], b, x) then 1 else 0
  {
    var tail := [t[k]] + t[k + 1..];
    assert t == t[..k] + tail && tail[1..] == t[k + 1..];
    CopiesConcat(t[..k], t[k + 1..], b, x);
    CopiesConcat(t[..k], tail, b, x);
  }

  lemma {:induction false} NoCopy(s: seq<seq<Byte>>, b: nat, x: nat)
    requires forall p <- s :: !Claims(p, b, x)
    ensures Copies(s, b, x) == 0
  {
    if s != [] { NoCopy(s[1..], b, x); }
  }

  lemma {:induction false} SomeCopy(s: seq<seq<Byte>>, b: nat, x: nat, i: nat)
    requires i < |s| && Claims(s[i], b, x)
    ensures Copies(s, b, x) >= 1
    decreases i
  {
    if i > 0 { SomeCopy(s[1..], b, x, i - 1); }
  }

  lemma {:induction false} TwoCopies(s: seq<seq<Byte>>, b: nat, x: nat, i: nat, j: nat)
    requires i < j < |s| && Claims(s[i], b, x) && Claims(s[j], b, x)
    ensures Copies(s, b, x) >= 2
    decreases i
  {
    if i == 0 { SomeCopy(s[1..], b, x, j - 1); } else { TwoCopies(s[1..], b, x, i - 1, j - 1); }
  }

  /** With every index in its place, each place is claimed once. */
  lemma {:induction false} OneCopy(s: seq<seq<Byte>>, from: nat, b: nat, x: nat)
    requires from <= |s| && forall i :: 0 <= i < |s| ==> InBlock(s[i], b) && FecOf(s[i]).0 == i
    ensures Copies(s[from..], b, x) == if from <= x < |s| then 1 else 0
    decreases |s| - from
  {
    if from < |s| {
      OneCopy(s, from + 1, b, x);
      assert s[from..][0] == s[from] && s[from..][1..] == s[from + 1..];
    }
  }

  lemma {:induction false} CountIs(arrived: seq<seq<Byte>>, b: nat, n: nat, p: seq<Byte>)
    requires p in arrived && InBlock(p, b) && forall q <- arrived :: InBlock(q, b) ==> FecOf(q).1 == n
    ensures CountOf(arrived, b) == n
  {
    if !InBlock(arrived[0], b) {
      CountIs(arrived[1..], b, n, p);
    }
  }

  lemma {:induction false} PickIs(arrived: seq<seq<Byte>>, b: nat, x: nat, p: seq<Byte>)
    requires p in arrived && Claims(p, b, x) && forall q <- arrived :: Claims(q, b, x) ==> q == p
    ensures Pick(arrived, b, x) == p
  {
    if !Claims(arrived[0], b, x) {
      PickIs(arrived[1..], b, x, p);
    }
  }

  // ---- the packets of a frame

  lemma {:induction false} InFlat(frame: seq<Block>, b: nat, x: nat)
    requires b < |frame| && x < |frame[b].packets|
    ensures frame[b].packets[x] in Flat(frame)
  {
    var last := |frame| - 1;
    if b < last { InFlat(frame[..last], b, x); }
  }

  lemma {:induction false} FromFlat(frame: seq<Block>, p: seq<Byte>) returns (b: nat, x: nat)
    requires p in Flat(frame)
    ensures b < |frame| && x < |frame[b].packets| && frame[b].packets[x] == p
  {
    var last := |frame| - 1;
    if p in Flat(frame[..last]) {
      b, x := FromFlat(frame[..last], p);
    } else {
      b := last;
      x :| 0 <= x < |frame[last].packets| && frame[last].packets[x] == p;
    }
  }

  /** Only the packets of block `b` claim places in it. */
  lemma {:induction false} CopiesFlat(frame: seq<Block>, blocks: nat, b: nat, x: nat)
    requires FrameCarries(frame, blocks)
    ensures Copies(Flat(frame), b, x) == if b < |frame| then Copies(frame[b].packets, b, x) else 0
    decreases |frame|
  {
    if frame != [] {
      var last := |frame| - 1;
      var k := frame[last];
      assert BlockCarries(k, last, blocks);
      assert forall i :: 0 <= i < last ==> BlockCarries(frame[i], i, blocks);
      CopiesFlat(frame[..last], blocks, b, x);
      CopiesConcat(Flat(frame[..last]), k.packets, b, x);
      if b != last { NotThere(k, last, blocks, b, x); }
    }
  }

  lemma NotThere(k: Block, at: nat, blocks: nat, b: nat, x: nat)
    requires BlockCarries(k, at, blocks) && b != at
    ensures Copies(k.packets, b, x) == 0
  {
    forall p <- k.packets ensures !Claims(p, b, x) {
      var i :| 0 <= i < |k.packets| && k.packets[i] == p;
      assert Carries(k.packets[i], at, blocks, i, k.data, k.percentage);
    }
    NoCopy(k.packets, b, x);
  }

  // ---- what the fields say when something does not fit

  /** More than 1024 packets: the first and packet 1024 claim the same place. */
  lemma TooManyPackets(k: Block, b: nat, blocks: nat) returns (x: nat)
    requires BlockCarries(k, b, blocks) && |k.packets| > 1024
    ensures Copies(k.packets, b, x) >= 2
  {
    assert Carries(k.packets[0], b, blocks, 0, k.data, k.percentage);
    assert Carries(k.packets[1024], b, blocks, 1024, k.data, k.percentage);
    FecInfo.PacketsCollide(k.data, k.percentage);
    x := FecOf(k.packets[0]).0;
    TwoCopies(k.packets, b, x, 0, 1024);
  }

  /** A percentage above eight bits: nobody claims the first place. */
  lemma PercentageTooLarge(k: Block, b: nat, blocks: nat)
    requires BlockCarries(k, b, blocks) && 256 <= k.percentage < 262144
    ensures Copies(k.packets, b, 0) == 0
  {
    forall p <- k.packets ensures !Claims(p, b, 0) {
      var x :| 0 <= x < |k.packets| && k.packets[x] == p;
      assert Carries(k.packets[x], b, blocks, x, k.data, k.percentage);
      FecInfo.IndexRead(x, k.data, k.percentage);
      FecInfo.OrAtLeast(x % 1024, k.percentage / 256 % 1024);
    }
    NoCopy(k.packets, b, 0);
  }

  /** 1024 data packets are announced as none. */
  lemma CountTooLarge(k: Block, b: nat, blocks: nat)
    requires BlockCarries(k, b, blocks) && |k.packets| <= 1024 <= k.data && k.percentage < 256
    ensures FecOf(k.packets[0]).1 == 0
  {
    assert Carries(k.packets[0], b, blocks, 0, k.data, k.percentage);
    DivModUnique(k.data, 1024, 1, 0);
    FecInfo.CountVanishes(0, k.data, k.percentage);
  }

  /** When everything fits, a packet says exactly what and where it is. */
  lemma FittingPacket(k: Block, b: nat, blocks: nat, x: nat)
    requires BlockCarries(k, b, blocks) && Fits(k) && x < |k.packets|
    ensures InBlock(k.packets[x], b) && FecOf(k.packets[x]) == (x, k.data, k.percentage)
  {
    assert Carries(k.packets[x], b, blocks, x, k.data, k.percentage);
    FecInfo.FecInfoDecodes(x, k.data, k.percentage);
  }

  // ---- the result

  /** Nothing else than the fields that do not fit keeps the client from a frame. */
  lemma UnreadableWhenTooLarge(frame: seq<Block>, arrived: seq<seq<Byte>>, b: nat)
    requires FrameCarries(frame, |frame|) && multiset(arrived) == multiset(Flat(frame))
    requires b < |frame| && !Fits(frame[b])
    ensures !Readable(arrived, |frame|)
  {
    var k := frame[b];
    assert BlockCarries(k, b, |frame|);
    if |k.packets| > 1024 {
      var x := TooManyPackets(k, b, |frame|);
      CopiesFlat(frame, |frame|, b, x);
      CopiesInAnyOrder(arrived, Flat(frame), b, x);
    } else if k.percentage >= 256 {
      PercentageTooLarge(k, b, |frame|);
      CopiesFlat(frame, |frame|, b, 0);
      CopiesInAnyOrder(arrived, Flat(frame), b, 0);
      assert !Complete(arrived, b);
    } else {
      CountTooLarge(k, b, |frame|);
      assert Carries(k.packets[0], b, |frame|, 0, k.data, k.percentage);
      InFlat(frame, b, 0);
      assert k.packets[0] in multiset(arrived);
      if CountOf(arrived, b) == 0 {
        assert !Complete(arrived, b);
      } else {
        assert !Consistent(arrived, k.packets[0], |frame|);
      }
    }
  }

  lemma ArrivedFrom(frame: seq<Block>, arrived: seq<seq<Byte>>, p: seq<Byte>) returns (b: nat, x: nat)
    requires multiset(arrived) == multiset(Flat(frame)) && p in arrived
    ensures b < |frame| && x < |frame[b].packets| && frame[b].packets[x] == p
  {
    assert p in multiset(arrived);
    b, x := FromFlat(frame, p);
  }

  lemma CountArrives(frame: seq<Block>, arrived: seq<seq<Byte>>, b: nat)
    requires FrameCarries(frame, |frame|) && multiset(arrived) == multiset(Flat(frame))
    requires b < |frame| && forall k <- frame :: Fits(k)
    ensures CountOf(arrived, b) == frame[b].data
  {
    assert BlockCarries(frame[b], b, |frame|);
    InFlat(frame, b, 0);
    FittingPacket(frame[b], b, |frame|, 0);
    assert frame[b].packets[0] in multiset(arrived);
    forall q <- arrived | InBlock(q, b) ensures FecOf(q).1 == frame[b].data {
      var b', x := ArrivedFrom(frame, arrived, q);
      assert BlockCarries(frame[b'], b', |frame|);
      FittingPacket(frame[b'], b', |frame|, x);
    }
    CountIs(arrived, b, frame[b].data, frame[b].packets[0]);
  }

  lemma CopiesArrive(frame: seq<Block>, arrived: seq<seq<Byte>>, b: nat, x: nat)
    requires FrameCarries(frame, |frame|) && multiset(arrived) == multiset(Flat(frame))
    requires forall k <- frame :: Fits(k)
    ensures Copies(arrived, b, x) == if b < |frame| && x < |frame[b].packets| then 1 else 0
  {
    CopiesInAnyOrder(arrived, Flat(frame), b, x);
    CopiesFlat(frame, |frame|, b, x);
    if b < |frame| {
      var packets := frame[b].packets;
      assert BlockCarries(frame[b], b, |frame|);
      forall i | 0 <= i < |packets| ensures InBlock(packets[i], b) && FecOf(packets[i]).0 == i {
        FittingPacket(frame[b], b, |frame|, i);
      }
      OneCopy(packets, 0, b, x);
      assert packets[0..] == packets;
    }
  }

  lemma PickArrives(frame: seq<Block>, arrived: seq<seq<Byte>>, b: nat, x: nat)
    requires FrameCarries(frame, |frame|) && multiset(arrived) == multiset(Flat(frame))
    requires b < |frame| && x < |frame[b].packets| && forall k <- frame :: Fits(k)
    ensures Pick(arrived, b, x) == frame[b].packets[x]
  {
    var p := frame[b].packets[x];
    assert BlockCarries(frame[b], b, |frame|);
    FittingPacket(frame[b], b, |frame|, x);
    InFlat(frame, b, x);
    assert p in multiset(arrived);
    forall q <- arrived | Claims(q, b, x) ensures q == p {
      var b', x' := ArrivedFrom(frame, arrived, q);
      assert BlockCarries(frame[b'], b', |frame|);
      FittingPacket(frame[b'], b', |frame|, x');
    }
    PickIs(arrived, b, x, p);
  }

  lemma ReadableWhenFitting(frame: seq<Block>, arrived: seq<seq<Byte>>)
    requires FrameCarries(frame, |frame|) && multiset(arrived) == multiset(Flat(frame))
    requires forall k <- frame :: Fits(k)
    ensures Readable(arrived, |frame|)
  {
    forall p <- arrived ensures Consistent(arrived, p, |frame|) {
      var b, x := ArrivedFrom(frame, arrived, p);
      assert BlockCarries(frame[b], b, |frame|);
      assert Carries(frame[b].packets[x], b, |frame|, x, frame[b].data, frame[b].percentage);
      FittingPacket(frame[b], b, |frame|, x);
      CountArrives(frame, arrived, b);
    }
    forall b: nat, x: nat ensures Copies(arrived, b, x) <= 1 {
      CopiesArrive(frame, arrived, b, x);
    }
    forall b: nat | b < |frame| ensures Complete(arrived, b) {
      assert BlockCarries(frame[b], b, |frame|);
      CountArrives(frame, arrived, b);
      forall x: nat | x < CountOf(arrived, b) ensures Copies(arrived, b, x) == 1 {
        CopiesArrive(frame, arrived, b, x);
      }
    }
  }

  lemma {:induction false} DataArrives(frame: seq<Block>, arrived: seq<seq<Byte>>, n: nat)
    requires FrameCarries(frame, |frame|) && multiset(arrived) == multiset(Flat(frame)) && n <= |frame|
    requires (forall k <- frame :: Fits(k)) && forall k <- frame :: k.data <= |k.packets|
    ensures FrameData(arrived, n) == SentData(frame[..n])
  {
    if n > 0 {
      var k := frame[n - 1];
      DataArrives(frame, arrived, n - 1);
      CountArrives(frame, arrived, n - 1);
      BlockArrives(frame, arrived, n - 1);
      assert frame[..n][..n - 1] == frame[..n - 1];
    }
  }

  lemma BlockArrives(frame: seq<Block>, arrived: seq<seq<Byte>>, b: nat)
    requires FrameCarries(frame, |frame|) && multiset(arrived) == multiset(Flat(frame)) && b < |frame|
    requires (forall k <- frame :: Fits(k)) && frame[b].data <= |frame[b].packets|
    ensures BlockData(arrived, b, frame[b].data) == frame[b].packets[..frame[b].data]
  {
    forall x | 0 <= x < frame[b].data ensures Pick(arrived, b, x) == frame[b].packets[x] {
      PickArrives(frame, arrived, b, x);
    }
  }

  predicate AllFit(frame: seq<Block>) {
    forall k <- frame :: Fits(k)
  }

  /** Whatever the order of arrival, the client reads a frame exactly when in every block the indices and the
      number of data packets fit ten bits and the percentage fits eight, and then its data packets are those
      of the host, in order. */
  lemma ReadsIff(frame: seq<Block>, arrived: seq<seq<Byte>>, payloadSize: nat)
    requires frame != [] && FrameCarries(frame, |frame|) && multiset(arrived) == multiset(Flat(frame))
    requires forall k <- frame :: k.data <= |k.packets|
    ensures ClientRead(arrived, payloadSize) == if AllFit(frame) then Some(ReassembleAny(SentData(frame), payloadSize))
        else None
  {
    FirstArrives(frame, arrived);
    if AllFit(frame) {
      ReadableWhenFitting(frame, arrived);
      DataArrives(frame, arrived, |frame|);
      assert frame[..|frame|] == frame;
    } else {
      Refused(frame, arrived);
    }
  }

  lemma Refused(frame: seq<Block>, arrived: seq<seq<Byte>>)
    requires FrameCarries(frame, |frame|) && multiset(arrived) == multiset(Flat(frame)) && !AllFit(frame)
    ensures !Readable(arrived, |frame|)
  {
    var k :| k in frame && !Fits(k);
    var b :| 0 <= b < |frame| && frame[b] == k;
    UnreadableWhenTooLarge(frame, arrived, b);
  }

  lemma FirstArrives(frame: seq<Block>, arrived: seq<seq<Byte>>)
    requires frame != [] && FrameCarries(frame, |frame|) && multiset(arrived) == multiset(Flat(frame))
    ensures arrived != [] && |arrived[0]| >= RAW_HEADER && BlocksOf(arrived[0]) == |frame|
  {
    assert BlockCarries(frame[0], 0, |frame|);
    InFlat(frame, 0, 0);
    assert |arrived| == |multiset(arrived)| == |Flat(frame)|;
    var b, x := ArrivedFrom(frame, arrived, arrived[0]);
    assert BlockCarries(frame[b], b, |frame|);
    assert Carries(frame[b].packets[x], b, |frame|, x, frame[b].data, frame[b].percentage);
  }
}
