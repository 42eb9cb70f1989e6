/** Send pacing of videoBroadcastThread (src/stream.cpp): how many packets can have left at any instant. */
module Pacing {
  import opened Bytes

  // one millisecond, in nanoseconds
  const MS: nat := 1_000_000

  /** 80% of 1 Gbps in packets per millisecond, with the source's order of divisions. */
  function PacketsPerMs(blocksize: nat): nat
    requires blocksize > 0
  {
    1_000_000_000 * 80 / 100 / 1000 / blocksize / 8
  }

  lemma PacketsPerMsIs(blocksize: nat)
    requires blocksize > 0
    ensures PacketsPerMs(blocksize) == 100_000 / blocksize
    ensures PacketsPerMs(blocksize) >= 1 <==> blocksize <= 100_000
  {
    var a := 800_000 / blocksize;
    DivParts(800_000, blocksize);
    NextMultiple(a, blocksize);
    EighthsOf(a, blocksize, a / 8);
    QuotientIs(100_000, blocksize, a / 8);
  }

  lemma EighthsOf(a: nat, d: nat, q: nat)
    requires q == a / 8
    ensures 8 * (q * d) <= a * d && (a + 1) * d <= 8 * ((q + 1) * d)
  {
    ProductAtMost(8 * q, a, d, d);
    ProductAtMost(a + 1, 8 * (q + 1), d, d);
    Eightfold(q, d);
    Eightfold(q + 1, d);
  }

  lemma Eightfold(q: nat, d: nat)
    ensures 8 * q * d == 8 * (q * d)
  {
  }

  lemma QuotientIs(n: nat, d: nat, q: nat)
    requires d > 0 && q * d <= n < (q + 1) * d
    ensures n / d == q
    ensures q >= 1 <==> d <= n
  {
    NextMultiple(q, d);
    DivModUnique(n, d, q, n - q * d);
    if q >= 1 { ProductAtMost(1, q, d, d); }
  }

  /** The earliest time, from the start of a frame, for a batch after `n` packets. */
  function Due(p: nat, n: nat): (d: nat)
  {
    if p == 0 then 0 else MS * n / p
  }

  /** Where a frame began and how many packets had been sent by then. */
  datatype Mark = Mark(start: int, before: nat)

  /** Packets since the frame start, at `now`: `p` per elapsed millisecond, a first group and one batch,
      with one nanosecond of rounding for each frame begun since. */
  ghost predicate Within(m: Mark, sent: nat, now: int, p: nat, b: nat, frames: nat) {
    && m.before <= sent
    && (now < m.start ==> sent == m.before)
    && (now >= m.start ==> (sent - m.before) * MS <= p * (now - m.start + frames) + (p + b) * MS)
  }

  /** The rate bound holds at `now` for every frame begun so far. */
  ghost predicate AllWithin(marks: seq<Mark>, sent: nat, now: int, p: nat, b: nat) {
    forall j :: 0 <= j < |marks| ==> Within(marks[j], sent, now, p, b, |marks| - j)
  }

  /** The packets between two frame starts took their time, up to a nanosecond for each frame. */
  ghost predicate Spaced(m: Mark, last: Mark, p: nat, frames: nat) {
    && m.before <= last.before && m.start <= last.start
    && (last.before - m.before) * MS <= p * (last.start - m.start + frames)
  }

  /** Frames follow each other no faster than the packets before them allow. */
  ghost predicate AllSpaced(marks: seq<Mark>, p: nat) {
    forall j :: 0 <= j < |marks| ==> Spaced(marks[j], marks[|marks| - 1], p, |marks| - 1 - j)
  }

  class Pacer {
    const p: nat
    const b: nat
    var nextFrameStart: int
    var frameStart: int
    var framePackets: nat
    var groupPackets: nat
    // the last time read from the clock
    var clock: int
    ghost var sent: nat
    ghost var marks: seq<Mark>

    ghost predicate InFrame()
      reads this
    {
      && marks != []
      && var last := marks[|marks| - 1];
      && frameStart == last.start
      && sent == last.before + framePackets
      && groupPackets <= framePackets
      && (framePackets == 0 ==> groupPackets == 0)
      && (framePackets > 0 ==> clock >= frameStart && groupPackets < p + b
                               && (framePackets - groupPackets) * MS <= p * (clock - frameStart + 1))
    }

    ghost predicate Valid()
      reads this
    {
      && p >= 1 && b >= 1
      && AllWithin(marks, sent, clock, p, b) && AllSpaced(marks, p)
      && (if marks == [] then framePackets == 0 && sent == 0 else InFrame())
    }

    /** Between frames the next start accounts for every packet of the last one. */
    ghost predicate Settled()
      reads this
    {
      marks == [] || nextFrameStart == frameStart + Due(p, framePackets)
    }

    constructor (p: nat, b: nat, now: int)
      requires p >= 1 && b >= 1
      ensures Valid() && Settled() && this.p == p && this.b == b && marks == [] && sent == 0 && clock == now
    {
      this.p, this.b := p, b;
      nextFrameStart, frameStart, framePackets, groupPackets, clock, sent, marks := now, now, 0, 0, now, 0, [];
    }

    /** Time passes. */
    method Tick(d: nat)
      requires Valid()
      modifies this`clock
      ensures Valid() && clock == old(clock) + d
    {
      clock := clock + d;
      AllLater(marks, sent, old(clock), clock, p, b);
      if framePackets > 0 { MulMono(p, old(clock) - frameStart + 1, clock - frameStart + 1); }
    }

    method BeginFrame(lag: nat)
      requires Valid() && Settled()
      modifies this
      ensures Valid() && clock == old(clock) + lag && sent == old(sent)
      ensures frameStart == (if old(nextFrameStart) > clock then old(nextFrameStart) else clock)
      ensures marks == old(marks) + [Mark(frameStart, sent)] && framePackets == 0
    {
      Tick(lag);
      ghost var packets := framePackets;
      // not before the previous frame has had the time for all its packets
      frameStart := if nextFrameStart > clock then nextFrameStart else clock;
      framePackets, groupPackets := 0, 0;
      AllBegin(marks, sent, clock, p, b, packets, frameStart);
      marks := marks + [Mark(frameStart, sent)];
    }

    /** No later than the packets of the frame so far take, each its share of a millisecond. */
    ghost predicate NotPastDue(t: int)
      reads this
    {
      p * (t - frameStart) <= framePackets * MS
    }

    /** Waits until the packets sent so far are due, once their group is full. A sleep may last longer than asked. */
    method Pace(lag: nat, oversleep: nat)
      requires Valid() && marks != []
      modifies this`clock, this`groupPackets
      ensures Valid() && clock >= old(clock) && clock >= frameStart
      ensures groupPackets < p && (framePackets - groupPackets) * MS <= p * (clock - frameStart + 1)
      ensures 0 < framePackets && old(groupPackets) < p ==> clock == old(clock) && groupPackets == old(groupPackets)
      ensures framePackets == 0 || old(groupPackets) >= p ==>
        groupPackets == 0 && (clock == old(clock) + lag || NotPastDue(clock - oversleep))
    {
      if groupPackets >= p || framePackets == 0 {
        var due := frameStart + Due(p, framePackets);
        Tick(lag);
        if clock < due {
          Tick(due - clock + oversleep);
        }
        DueIs(p, framePackets);
        MulMono(p, due - frameStart + 1, clock - frameStart + 1);
        groupPackets := 0;
      }
    }

    /** One batch of `count` packets. */
    method SendBatch(count: nat, lag: nat, oversleep: nat)
      requires Valid() && marks != [] && 1 <= count <= b
      modifies this
      ensures Valid() && sent == old(sent) + count && marks == old(marks) && clock >= old(clock)
      ensures framePackets == old(framePackets) + count && frameStart == old(frameStart)
    {
      Pace(lag, oversleep);
      groupPackets := groupPackets + count;
      framePackets := framePackets + count;
      sent := sent + count;
      forall j | 0 <= j < |marks| ensures Within(marks[j], sent, clock, p, b, |marks| - j) {
        var last := marks[|marks| - 1];
        SumBound(p, b, last.before - marks[j].before, framePackets - groupPackets, groupPackets,
                 last.start - marks[j].start + (|marks| - 1 - j), clock - frameStart + 1);
      }
    }

    /** The end of an FEC block: from now on the next frame may not start before the packets sent so far are due. */
    method EndBlock()
      requires Valid() && marks != []
      modifies this`nextFrameStart
      ensures Valid() && Settled()
      ensures NotPastDue(nextFrameStart) && !NotPastDue(nextFrameStart + 1)
    {
      DueIs(p, framePackets);
      nextFrameStart := frameStart + Due(p, framePackets);
    }

    /** A whole frame: its FEC blocks, each a list of batch sizes. */
    method SendFrame(blocks: seq<seq<nat>>, lag: (nat, nat) -> nat, oversleep: (nat, nat) -> nat, idle: nat)
      requires Valid() && Settled()
      requires |blocks| > 0 && forall x <- blocks :: forall c <- x :: 1 <= c <= b
      modifies this
      ensures Valid() && Settled() && marks == old(marks) + [Mark(frameStart, old(sent))]
      ensures sent == old(sent) + Total(blocks)
      ensures clock >= old(clock)
    {
      BeginFrame(idle);
      for k := 0 to |blocks|
        invariant Valid() && (k > 0 ==> Settled()) && marks == old(marks) + [Mark(frameStart, old(sent))]
        invariant sent == old(sent) + Total(blocks[..k]) && clock >= old(clock)
      {
        for c := 0 to |blocks[k]|
          invariant Valid() && marks == old(marks) + [Mark(frameStart, old(sent))]
          invariant sent == old(sent) + Total(blocks[..k]) + Sum(blocks[k][..c]) && clock >= old(clock)
        {
          assert blocks[k] in blocks && blocks[k][c] in blocks[k];
          SendBatch(blocks[k][c], lag(k, c), oversleep(k, c));
          assert blocks[k][..c + 1][..c] == blocks[k][..c];
        }
        assert blocks[k][..|blocks[k]|] == blocks[k];
        assert blocks[..k + 1][..k] == blocks[..k];
        EndBlock();
      }
      assert blocks[..|blocks|] == blocks;
    }
  }

  function Sum(s: seq<nat>): nat {
    if s == [] then 0 else Sum(s[..|s| - 1]) + s[|s| - 1]
  }

  function Total(blocks: seq<seq<nat>>): nat {
    if blocks == [] then 0 else Total(blocks[..|blocks| - 1]) + Sum(blocks[|blocks| - 1])
  }

  /** At every instant from the last clock reading on, the packets sent since any frame start are at most
      P for each elapsed millisecond, plus P + B, plus a nanosecond's worth for each frame begun since. */
  lemma RateAtAnyInstant(s: Pacer, j: nat, now: int)
    requires s.Valid() && j < |s.marks| && now >= s.clock
    ensures Within(s.marks[j], s.sent, now, s.p, s.b, |s.marks| - j)
  {
    Later(s.marks[j], s.sent, s.clock, now, s.p, s.b, |s.marks| - j);
  }

  lemma Later(m: Mark, sent: nat, t: int, t': int, p: nat, b: nat, frames: nat)
    requires Within(m, sent, t, p, b, frames) && t <= t'
    ensures Within(m, sent, t', p, b, frames)
  {
    if t >= m.start {
      MulMono(p, t - m.start + frames, t' - m.start + frames);
    } else if t' >= m.start {
      MulMono(p, 0, t' - m.start + frames);
    }
  }

  lemma AllLater(marks: seq<Mark>, sent: nat, t: int, t': int, p: nat, b: nat)
    requires AllWithin(marks, sent, t, p, b) && t <= t'
    ensures AllWithin(marks, sent, t', p, b)
  {
    forall j | 0 <= j < |marks| ensures Within(marks[j], sent, t', p, b, |marks| - j) {
      Later(marks[j], sent, t, t', p, b, |marks| - j);
    }
  }

  /** Another frame begins after `packets` of the last one, each with its time. */
  lemma AllBegin(marks: seq<Mark>, sent: nat, now: int, p: nat, b: nat, packets: nat, start: int)
    requires p >= 1 && AllWithin(marks, sent, now, p, b) && AllSpaced(marks, p) && start >= now
    requires marks != [] ==>
      var last := marks[|marks| - 1]; sent == last.before + packets && start >= last.start + Due(p, packets)
    ensures AllWithin(marks + [Mark(start, sent)], sent, now, p, b) && AllSpaced(marks + [Mark(start, sent)], p)
  {
    forall j | 0 <= j < |marks|
      ensures Within(marks[j], sent, now, p, b, |marks| + 1 - j)
      ensures Spaced(marks[j], Mark(start, sent), p, |marks| - j)
    {
      OneMoreFrame(marks[j], sent, now, p, b, |marks| - j);
      SpacedStep(marks[j], marks[|marks| - 1], p, |marks| - 1 - j, packets, start);
    }
    NewMark(Mark(start, sent), now, p, b);
  }

  lemma NewMark(m: Mark, now: int, p: nat, b: nat)
    requires m.start >= now
    ensures Within(m, m.before, now, p, b, 1) && Spaced(m, m, p, 0)
  {
    assert p * 1 == p && p * 0 == 0;
  }

  lemma MulMono(p: nat, x: int, y: int)
    requires x <= y
    ensures p * x <= p * y
  {
    if x < y { StrideStep(p, x, y); }
  }

  /** The due time is what the packets sent take, rounded down to a nanosecond. */
  lemma DueIs(p: nat, n: nat)
    requires p >= 1
    ensures p * Due(p, n) <= n * MS < p * (Due(p, n) + 1)
  {
    var q := MS * n / p;
    DivParts(MS * n, p);
    NextMultiple(q, p);
  }

  lemma OneMoreFrame(m: Mark, sent: nat, now: int, p: nat, b: nat, frames: nat)
    requires Within(m, sent, now, p, b, frames)
    ensures Within(m, sent, now, p, b, frames + 1)
  {
    MulMono(p, now - m.start + frames, now - m.start + (frames + 1));
  }

  lemma SpacedStep(m: Mark, last: Mark, p: nat, frames: nat, packets: nat, start: int)
    requires p >= 1 && Spaced(m, last, p, frames) && start >= last.start + Due(p, packets)
    ensures Spaced(m, Mark(start, last.before + packets), p, frames + 1)
  {
    DueIs(p, packets);
    DuePositive(p, packets);
    NextFrame(p, last.before - m.before, packets, last.start - m.start + frames, Due(p, packets) + 1,
              start - m.start + (frames + 1));
  }

  lemma DuePositive(p: nat, n: nat)
    ensures Due(p, n) >= 0
  {
  }

  lemma NextFrame(p: nat, before: int, packets: nat, span: int, due: int, total: int)
    requires before * MS <= p * span && packets * MS <= p * due && span + due <= total
    ensures (before + packets) * MS <= p * total
  {
    assert p * (span + due) == p * span + p * due;
    MulMono(p, span + due, total);
  }

  lemma SumBound(p: nat, b: nat, before: int, paced: int, group: int, span: int, elapsed: int)
    requires before * MS <= p * span && paced * MS <= p * elapsed && group < p + b
    ensures (before + paced + group) * MS <= p * (span + elapsed) + (p + b) * MS
  {
    assert p * (span + elapsed) == p * span + p * elapsed;
  }
}
