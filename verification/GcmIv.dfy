/** Deterministic IV construction for every use of a session's AES-GCM key (src/stream.cpp, src/rtsp.cpp),
    section 8.2.1 of NIST SP 800-38D. */
module GcmIv {
  import opened Bytes

  const TWO_32: nat := 0x1_0000_0000
  const TWO_64: nat := 0x1_0000_0000_0000_0000

  const V: Byte := 86
  const H: Byte := 72
  const C: Byte := 67
  const R: Byte := 82

  /** 64-bit counter, then three zero bytes and 'V'. */
  function VideoIv(counter: nat): (iv: seq<Byte>)
    ensures |iv| == 12
  {
    LittleEndian(8, counter) + [0, 0, 0, V]
  }

  /** 32-bit sequence number, six zero bytes, the origin and the stream. */
  function TaggedIv(seqNo: nat, origin: Byte, stream: Byte): (iv: seq<Byte>)
    ensures |iv| == 12
  {
    LittleEndian(4, seqNo) + [0, 0, 0, 0, 0, 0, origin, stream]
  }

  /** A counter of `width` bytes after one increment. */
  function Next(counter: nat, modulus: nat): nat {
    if counter + 1 == modulus then 0 else counter + 1
  }

  function After(counter: nat, modulus: nat, n: nat): nat {
    if n == 0 then counter else Next(After(counter, modulus, n - 1), modulus)
  }

  /** Counting with wrap-around is counting modulo the width. */
  lemma {:induction false} AfterIsModulo(counter: nat, modulus: nat, n: nat)
    requires counter < modulus
    ensures After(counter, modulus, n) == (counter + n) % modulus
  {
    if n == 0 {
      DivModUnique(counter, modulus, 0, counter);
    } else {
      AfterIsModulo(counter, modulus, n - 1);
      ModIncrement(counter + n - 1, modulus);
    }
  }

  lemma ModIncrement(a: nat, m: nat)
    requires m > 0
    ensures (a + 1) % m == Next(a % m, m)
  {
    var q, r := a / m, a % m;
    if r + 1 == m {
      assert (q + 1) * m == q * m + m;
      DivModUnique(a + 1, m, q + 1, 0);
    } else {
      DivModUnique(a + 1, m, q, r + 1);
    }
  }

  // ---- every use of the session key

  datatype Use = HostVideo | HostControl | HostRtsp | ClientControl | ClientRtsp

  function Modulus(u: Use): (m: nat)
    ensures m > 1
  {
    if u.HostVideo? then TWO_64 else TWO_32
  }

  function IvOf(u: Use, counter: nat): (iv: seq<Byte>)
    ensures |iv| == 12
  {
    match u
    case HostVideo => VideoIv(counter)
    case HostControl => TaggedIv(counter, H, C)
    case HostRtsp => TaggedIv(counter, H, R)
    case ClientControl => TaggedIv(counter, C, C)
    case ClientRtsp => TaggedIv(counter, C, R)
  }

  /** An IV determines the stream, the direction and the counter up to its width, and nothing more. */
  lemma IvInjective(u: Use, n: nat, u': Use, n': nat)
    ensures IvOf(u, n) == IvOf(u', n') <==> u == u' && n % Modulus(u) == n' % Modulus(u)
  {
    Tag(u, n);
    Tag(u', n');
    if u == u' {
      var width := if u.HostVideo? then 8 else 4;
      WidthModulus();
      LittleEndianInjective(width, n, n');
      CounterBytes(u, n);
      CounterBytes(u, n');
      assert IvOf(u, n) == IvOf(u, n)[..width] + IvOf(u, n)[width..];
      assert IvOf(u, n') == IvOf(u, n')[..width] + IvOf(u, n')[width..];
    }
  }

  /** Byte by byte: the counter in little-endian order, zeros, and behind them a letter for the stream, which all but
      video have a letter for the sender before. */
  lemma IvLayout(u: Use, n: nat)
    ensures var iv := IvOf(u, n);
            if u.HostVideo? then
              FromLittleEndian(iv[..8]) == n % TWO_64 && iv[8..11] == [0, 0, 0] && iv[11] == 'V' as int
            else
              && FromLittleEndian(iv[..4]) == n % TWO_32 && iv[4..10] == [0, 0, 0, 0, 0, 0]
              && iv[10] == (if u.HostControl? || u.HostRtsp? then 'H' as int else 'C' as int)
              && iv[11] == (if u.HostControl? || u.ClientControl? then 'C' as int else 'R' as int)
  {
    WidthModulus();
    LittleEndianRoundTrip(8, n);
    LittleEndianRoundTrip(4, n);
    CounterBytes(u, n);
  }

  lemma WidthModulus()
    ensures Pow256(4) == TWO_32 && Pow256(8) == TWO_64
  {
    assert Pow256(4) == TWO_32;
    assert Pow256(6) == 0x1_0000_0000_0000;
  }

  lemma CounterBytes(u: Use, n: nat)
    ensures var width := if u.HostVideo? then 8 else 4;
            IvOf(u, n)[..width] == LittleEndian(width, n) && IvOf(u, n)[width..] == IvOf(u, 0)[width..]
  {
  }

  lemma Tag(u: Use, n: nat)
    ensures IvOf(u, n)[11] == (if u.HostVideo? then V else if u.HostControl? || u.ClientControl? then C else R)
    ensures !u.HostVideo? ==> IvOf(u, n)[10] == (if u.HostControl? || u.HostRtsp? then H else C)
  {
  }

  // ---- the counters of a session

  /** The three counters the host keeps; client IVs carry the number the client sent. */
  class KeyUses {
    var video: nat
    var controlSeq: nat
    var rtsp: nat
    ghost var log: seq<Use>
    var ivs: seq<seq<Byte>>

    ghost predicate Valid()
      reads this
    {
      Counted(video, controlSeq, rtsp, log, ivs)
    }

    constructor ()
      ensures Valid() && log == [] && ivs == []
    {
      video, controlSeq, rtsp, log, ivs := 0, 0, 0, [], [];
    }

    /** One shard of video: the counter is used, then incremented. */
    method VideoShard() returns (iv: seq<Byte>)
      requires Valid()
      modifies this
      ensures Valid() && log == old(log) + [HostVideo] && ivs == old(ivs) + [iv]
    {
      iv := VideoIv(video);
      UseNext(video, controlSeq, rtsp, log, ivs, HostVideo, video, log + [HostVideo], ivs + [iv]);
      video := Next(video, TWO_64);
      log, ivs := log + [HostVideo], ivs + [iv];
    }

    /** One control message: the sequence number is used, then incremented. */
    method EncodeControl() returns (iv: seq<Byte>)
      requires Valid()
      modifies this
      ensures Valid() && log == old(log) + [HostControl] && ivs == old(ivs) + [iv]
    {
      var seqNo := controlSeq;
      controlSeq := Next(controlSeq, TWO_32);
      iv := TaggedIv(seqNo, H, C);
      UseNext(video, seqNo, rtsp, log, ivs, HostControl, seqNo, log + [HostControl], ivs + [iv]);
      log, ivs := log + [HostControl], ivs + [iv];
    }

    /** One RTSP response: the counter is incremented, then used. */
    method Respond() returns (iv: seq<Byte>)
      requires Valid()
      modifies this
      ensures Valid() && log == old(log) + [HostRtsp] && ivs == old(ivs) + [iv]
    {
      rtsp := Next(rtsp, TWO_32);
      iv := TaggedIv(rtsp, H, R);
      UseNext(video, controlSeq, old(rtsp), log, ivs, HostRtsp, rtsp, log + [HostRtsp], ivs + [iv]);
      log, ivs := log + [HostRtsp], ivs + [iv];
    }
  }

  /** Each counter has counted the uses of its stream, and each IV is that of its use. */
  ghost predicate Counted(video: nat, controlSeq: nat, rtsp: nat, log: seq<Use>, ivs: seq<seq<Byte>>) {
    && CounterIs(video, TWO_64, log, HostVideo) && CounterIs(controlSeq, TWO_32, log, HostControl)
    && CounterIs(rtsp, TWO_32, log, HostRtsp) && Logged(log, ivs)
  }

  ghost predicate CounterIs(n: nat, modulus: nat, log: seq<Use>, u: Use) {
    n == After(0, modulus, Count(log, u))
  }

  lemma CounterNext(n: nat, modulus: nat, log: seq<Use>, u: Use, o: Use, log': seq<Use>)
    requires CounterIs(n, modulus, log, o) && log' == log + [u]
    ensures CounterIs(if u == o then Next(n, modulus) else n, modulus, log', o)
  {
    CountNext(log, u, o);
  }

  /** The counter of the stream moves on and the others stay. */
  lemma UseNext(video: nat, controlSeq: nat, rtsp: nat, log: seq<Use>, ivs: seq<seq<Byte>>, u: Use, n: nat,
                log': seq<Use>, ivs': seq<seq<Byte>>)
    requires Counted(video, controlSeq, rtsp, log, ivs) && HostUse(u)
    requires log' == log + [u] && ivs' == ivs + [IvOf(u, n)]
    requires n == if u.HostVideo? then video else if u.HostControl? then controlSeq else Next(rtsp, TWO_32)
    ensures Counted(if u.HostVideo? then Next(video, TWO_64) else video,
                    if u.HostControl? then Next(controlSeq, TWO_32) else controlSeq,
                    if u.HostRtsp? then Next(rtsp, TWO_32) else rtsp, log', ivs')
  {
    CounterNext(video, TWO_64, log, u, HostVideo, log');
    CounterNext(controlSeq, TWO_32, log, u, HostControl, log');
    CounterNext(rtsp, TWO_32, log, u, HostRtsp, log');
    LogNext(log, ivs, u, n);
  }

  predicate HostUse(u: Use) { u.HostVideo? || u.HostControl? || u.HostRtsp? }

  function Count(log: seq<Use>, u: Use): nat {
    if log == [] then 0 else Count(log[..|log| - 1], u) + if log[|log| - 1] == u then 1 else 0
  }

  /** The counter value use `i` of a run is made with. */
  function UseNumber(log: seq<Use>, i: nat): nat
    requires i < |log|
  {
    After(0, Modulus(log[i]), Count(log[..i], log[i]) + if log[i].HostRtsp? then 1 else 0)
  }

  ghost predicate Logged(log: seq<Use>, ivs: seq<seq<Byte>>) {
    && |ivs| == |log|
    && (forall u <- log :: HostUse(u))
    && forall i :: 0 <= i < |log| ==> ivs[i] == IvOf(log[i], UseNumber(log, i))
  }

  lemma CountNext(log: seq<Use>, u: Use, o: Use)
    ensures Count(log + [u], o) == Count(log, o) + if u == o then 1 else 0
  {
    assert (log + [u])[..|log|] == log;
  }

  lemma LogNext(log: seq<Use>, ivs: seq<seq<Byte>>, u: Use, n: nat)
    requires Logged(log, ivs) && HostUse(u)
    requires n == After(0, Modulus(u), Count(log, u) + if u.HostRtsp? then 1 else 0)
    ensures Logged(log + [u], ivs + [IvOf(u, n)])
  {
    var log', ivs' := log + [u], ivs + [IvOf(u, n)];
    forall i | 0 <= i < |log'| ensures ivs'[i] == IvOf(log'[i], UseNumber(log', i)) {
      SameNumber(log, u, i);
    }
  }

  /** A later use does not change the number of an earlier one. */
  lemma SameNumber(log: seq<Use>, u: Use, i: nat)
    requires i <= |log|
    ensures i < |log| ==> UseNumber(log + [u], i) == UseNumber(log, i)
    ensures i == |log| ==> UseNumber(log + [u], i) == After(0, Modulus(u), Count(log, u) + if u.HostRtsp? then 1 else 0)
  {
    assert (log + [u])[..i] == log[..i];
    if i == |log| { assert log[..i] == log; }
  }

  /** Over every run, two host IVs are equal exactly when they belong to the same stream and the number
      of uses between them is a multiple of the counter's range: no IV repeats before its counter wraps. */
  lemma HostIvsRepeatOnlyOnWrap(k: KeyUses, i: nat, j: nat)
    requires k.Valid() && i < j < |k.log|
    ensures k.ivs[i] == k.ivs[j]
       <==> k.log[i] == k.log[j] && Count(k.log[i..j], k.log[i]) % Modulus(k.log[i]) == 0
  {
    var u := k.log[i];
    IvInjective(u, UseNumber(k.log, i), k.log[j], UseNumber(k.log, j));
    if u == k.log[j] { UsesBetween(k.log, i, j); }
  }

  lemma UsesBetween(log: seq<Use>, i: nat, j: nat)
    requires i < j < |log| && log[i] == log[j]
    ensures UseNumber(log, i) % Modulus(log[i]) == UseNumber(log, j) % Modulus(log[i])
       <==> Count(log[i..j], log[i]) % Modulus(log[i]) == 0
  {
    var u := log[i];
    assert log[..j] == log[..i] + log[i..j];
    CountAppend(log[..i], log[i..j], u);
    NumbersBetween(Modulus(u), Count(log[..i], u) + (if u.HostRtsp? then 1 else 0), Count(log[i..j], u));
  }

  lemma NumbersBetween(m: nat, a: nat, b: nat)
    requires m > 0
    ensures After(0, m, a) % m == After(0, m, a + b) % m <==> b % m == 0
  {
    AfterIsModulo(0, m, a);
    AfterIsModulo(0, m, a + b);
    ModTwice(a, m);
    ModTwice(a + b, m);
    SameResidue(a, b, m);
  }

  /** As long as a stream has not used its whole counter range its IVs are pairwise different. */
  lemma NoRepeatWithinRange(k: KeyUses, i: nat, j: nat)
    requires k.Valid() && i < j < |k.log|
    requires k.log[i] == k.log[j] ==> Count(k.log[i..j], k.log[i]) < Modulus(k.log[i])
    ensures k.ivs[i] != k.ivs[j]
  {
    HostIvsRepeatOnlyOnWrap(k, i, j);
    if k.log[i] == k.log[j] {
      FirstCounts(k.log[i..j]);
      NotAMultiple(Count(k.log[i..j], k.log[i]), Modulus(k.log[i]));
    }
  }

  lemma FirstCounts(log: seq<Use>)
    requires log != []
    ensures Count(log, log[0]) > 0
  {
    assert log == [log[0]] + log[1..];
    CountAppend([log[0]], log[1..], log[0]);
    assert Count([log[0]], log[0]) == 1;
  }

  lemma NotAMultiple(c: nat, m: nat)
    requires 0 < c < m
    ensures c % m != 0
  {
    DivModUnique(c, m, 0, c);
  }

  lemma {:induction false} CountAppend(a: seq<Use>, b: seq<Use>, u: Use)
    ensures Count(a + b, u) == Count(a, u) + Count(b, u)
    decreases |b|
  {
    if b == [] {
      assert a + b == a;
    } else {
      var n := |b| - 1;
      CountAppend(a, b[..n], u);
      assert (a + b)[..|a| + n] == a + b[..n];
    }
  }

  lemma ModTwice(a: nat, m: nat)
    requires m > 0
    ensures a % m % m == a % m
  {
    DivModUnique(a % m, m, 0, a % m);
  }

  lemma SameResidue(a: nat, b: nat, m: nat)
    requires m > 0
    ensures a % m == (a + b) % m <==> b % m == 0
  {
    var q, r, p, s := a / m, a % m, b / m, b % m;
    assert a + b == (q + p) * m + (r + s) by {
      assert a == q * m + r && b == p * m + s;
      assert (q + p) * m == q * m + p * m;
    }
    if r + s < m {
      DivModUnique(a + b, m, q + p, r + s);
    } else {
      assert (q + p + 1) * m == (q + p) * m + m;
      DivModUnique(a + b, m, q + p + 1, r + s - m);
    }
  }
}
