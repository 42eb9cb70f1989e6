/** Exact relative motion over a whole run of the input queue (src/input.cpp): what the wraps of all merges
    add up to. */
module InputMotion {
  import opened InputMessages
  import opened InputRefinement

  /** The wraps of the merges behind a message that has been sent. */
  type Wrapping = (int, int)

  function WrapsOf(r: Reading, m: Packet, rest: seq<Packet>): Wrapping {
    (Wraps(r, m, rest, X), Wraps(r, m, rest, Y))
  }

  function NoWraps(n: nat): (w: seq<Wrapping>)
    ensures |w| == n
  {
    seq(n, _ => (0, 0))
  }

  function Fold(steps: seq<Step>): seq<Step> {
    if steps == [] then [] else Prepend(steps[0], Fold(steps[1..]), true)
  }

  /** The exact motion that went into a message. */
  function Unwrapped1(p: Packet, w: Wrapping, kind: Kind): Step {
    var s := Step1(p, kind, true);
    if s.Stop? then Stop else Move(s.x - 65536 * w.0, s.y - 65536 * w.1)
  }

  function WrapStep(p: Packet, w: Wrapping, kind: Kind): Step {
    if Step1(p, kind, true).Stop? then Stop else Move(w.0, w.1)
  }

  function Unwrapped(q: seq<Packet>, w: seq<Wrapping>, kind: Kind): (steps: seq<Step>)
    requires |q| == |w|
    ensures |steps| == |q|
  {
    seq(|q|, i requires 0 <= i < |q| => Unwrapped1(q[i], w[i], kind))
  }

  function WrapSteps(q: seq<Packet>, w: seq<Wrapping>, kind: Kind): (steps: seq<Step>)
    requires |q| == |w|
    ensures |steps| == |q|
  {
    seq(|q|, i requires 0 <= i < |q| => WrapStep(q[i], w[i], kind))
  }

  function Motions(q: seq<Packet>, kind: Kind): (steps: seq<Step>)
    ensures |steps| == |q|
  {
    seq(|q|, i requires 0 <= i < |q| => Step1(q[i], kind, true))
  }

  lemma {:induction false} TotalsFold(q: seq<Packet>, kind: Kind)
    ensures Totals(q, kind, true) == Fold(Motions(q, kind))
  {
    if q != [] {
      TotalsFold(q[1..], kind);
      assert Motions(q, kind)[1..] == Motions(q[1..], kind);
    }
  }

  /** Position by position: motion, wraps, and motion before the wraps. */
  ghost predicate Apart(motion: seq<Step>, wraps: seq<Step>, before: seq<Step>) {
    && |motion| == |wraps| == |before|
    && forall i :: 0 <= i < |motion| ==> ApartStep(motion[i], wraps[i], before[i])
  }

  predicate ApartStep(motion: Step, wraps: Step, before: Step) {
    if motion.Stop? then wraps.Stop? && before.Stop?
    else wraps.Move? && before == Move(motion.x - 65536 * wraps.x, motion.y - 65536 * wraps.y)
  }

  lemma PrependApart(a: Step, b: Step, c: Step, motion: seq<Step>, wraps: seq<Step>, before: seq<Step>)
    requires ApartStep(a, b, c) && Apart(motion, wraps, before)
    ensures Apart(Prepend(a, motion, true), Prepend(b, wraps, true), Prepend(c, before, true))
  {
  }

  lemma {:induction false} FoldApart(motion: seq<Step>, wraps: seq<Step>, before: seq<Step>)
    requires Apart(motion, wraps, before)
    ensures Apart(Fold(motion), Fold(wraps), Fold(before))
    decreases |motion|
  {
    if motion != [] {
      FoldApart(motion[1..], wraps[1..], before[1..]);
      PrependApart(motion[0], wraps[0], before[0], Fold(motion[1..]), Fold(wraps[1..]), Fold(before[1..]));
    }
  }

  /** No stretch has a wrap left over. */
  ghost predicate Cancelled(wraps: seq<Step>) {
    forall i :: 0 <= i < |wraps| ==> wraps[i] == Stop || wraps[i] == Move(0, 0)
  }

  lemma SameIffCancelled(motion: seq<Step>, wraps: seq<Step>, before: seq<Step>)
    requires Apart(motion, wraps, before)
    ensures motion == before <==> Cancelled(wraps)
  {
    if Cancelled(wraps) {
      forall i | 0 <= i < |motion| ensures motion[i] == before[i] {
        assert ApartStep(motion[i], wraps[i], before[i]);
      }
    } else {
      var i :| 0 <= i < |wraps| && !(wraps[i] == Stop || wraps[i] == Move(0, 0));
      assert ApartStep(motion[i], wraps[i], before[i]) && motion[i] != before[i];
    }
  }

  /** What was pushed of a relative type is what has been sent, each message with the wraps of its merges taken
      back, and what is still queued. */
  ghost predicate Accounted(pushed: seq<Packet>, sent: seq<Packet>, wraps: seq<Wrapping>, kind: Kind) {
    |sent| == |wraps| && Totals(pushed, kind, true) == Fold(Unwrapped(sent, wraps, kind))
  }

  /** Over a run the exact motion is kept exactly when in every stretch the wraps of all merges cancel. */
  lemma ExactIffAllCancel(pushed: seq<Packet>, sent: seq<Packet>, wraps: seq<Wrapping>, kind: Kind)
    requires Accounted(pushed, sent, wraps, kind)
    ensures Totals(pushed, kind, true) == Totals(sent, kind, true) <==> Cancelled(Fold(WrapSteps(sent, wraps, kind)))
  {
    TotalsFold(sent, kind);
    StepsApart(sent, wraps, kind);
    CancelledIff(Motions(sent, kind), WrapSteps(sent, wraps, kind), Unwrapped(sent, wraps, kind));
  }

  lemma StepsApart(q: seq<Packet>, w: seq<Wrapping>, kind: Kind)
    requires |q| == |w|
    ensures Apart(Motions(q, kind), WrapSteps(q, w, kind), Unwrapped(q, w, kind))
  {
  }

  lemma CancelledIff(motion: seq<Step>, wraps: seq<Step>, before: seq<Step>)
    requires Apart(motion, wraps, before)
    ensures Fold(before) == Fold(motion) <==> Cancelled(Fold(wraps))
  {
    FoldApart(motion, wraps, before);
    SameIffCancelled(Fold(motion), Fold(wraps), Fold(before));
  }

  lemma {:induction false} FoldPrefix(d: seq<Step>, s: seq<Step>, s': seq<Step>)
    requires Fold(s) == Fold(s')
    ensures Fold(d + s) == Fold(d + s')
    decreases |d|
  {
    if d == [] {
      assert d + s == s && d + s' == s';
    } else {
      FoldPrefix(d[1..], s, s');
      FoldHead(d, s);
      FoldHead(d, s');
    }
  }

  lemma FoldHead(d: seq<Step>, s: seq<Step>)
    requires d != []
    ensures Fold(d + s) == Prepend(d[0], Fold(d[1..] + s), true)
  {
    assert (d + s)[1..] == d[1..] + s;
  }

  lemma {:induction false} FoldAppend(steps: seq<Step>, s: Step)
    ensures Fold(steps + [s]) == Append(Fold(steps), s, true)
    decreases |steps|
  {
    if steps == [] {
      assert steps + [s] == [s] && [s][1..] == [];
    } else {
      FoldAppend(steps[1..], s);
      FoldHead(steps, [s]);
      PrependAppend(steps[0], Fold(steps[1..]), s, true);
    }
  }

  lemma AccountedPush(pushed: seq<Packet>, sent: seq<Packet>, wraps: seq<Wrapping>, p: Packet, kind: Kind,
                      sent': seq<Packet>, wraps': seq<Wrapping>)
    requires Accounted(pushed, sent, wraps, kind) && sent' == sent + [p] && wraps' == wraps + [(0, 0)]
    ensures Accounted(pushed + [p], sent', wraps', kind)
  {
    TotalsAppend(pushed, p, kind, true);
    FoldAppend(Unwrapped(sent, wraps, kind), Unwrapped1(p, (0, 0), kind));
    assert Unwrapped(sent', wraps', kind) == Unwrapped(sent, wraps, kind) + [Unwrapped1(p, (0, 0), kind)];
  }

  /** The messages of one pass, with the wraps of its merges taken back, are the messages before it. */
  lemma PassAccounted(r: Reading, m: Packet, rest: seq<Packet>, kind: Kind, pass: seq<Packet>, w: seq<Wrapping>)
    requires Relative(kind) && pass == Pass(r, m, rest)
    requires w == [WrapsOf(r, m, rest)] + NoWraps(|pass| - 1)
    ensures Fold(Unwrapped(pass, w, kind)) == Totals([m] + rest, kind, true)
  {
    ScanKeepsTotals(r, m, rest, kind, false);
    TotalsFold(pass, kind);
    if KeyOf(m).kind != kind {
      ScanKeepsTotals(r, m, rest, kind, true);
      StillUnwrapped(pass, w, kind);
    } else {
      ScanShifts(r, m, rest, kind, w[0].0, w[0].1);
      FirstMoves(m, rest, kind);
      FirstUnwrapped(pass, w, kind);
      ShiftedBack(Fold(Unwrapped(pass, w, kind)), Totals([m] + rest, kind, true), w[0].0, w[0].1);
    }
  }

  lemma StillUnwrapped(q: seq<Packet>, w: seq<Wrapping>, kind: Kind)
    requires q != [] && KeyOf(q[0]).kind != kind && |w| == |q| && forall i :: 0 < i < |w| ==> w[i] == (0, 0)
    ensures Unwrapped(q, w, kind) == Motions(q, kind)
  {
  }

  /** Only the first message has wraps: taking them back shifts the first total. */
  lemma FirstUnwrapped(q: seq<Packet>, w: seq<Wrapping>, kind: Kind)
    requires q != [] && Relative(kind) && KeyOf(q[0]).kind == kind
    requires |w| == |q| && forall i :: 0 < i < |w| ==> w[i] == (0, 0)
    ensures var t := Fold(Unwrapped(q, w, kind));
      t != [] && t[0].Move? && Shifted(t, w[0].0, w[0].1) == Fold(Motions(q, kind))
  {
    var motion, before := Motions(q, kind), Unwrapped(q, w, kind);
    assert before[1..] == motion[1..];
    StepIs(q[0]);
    PrependShifted(before[0], Fold(motion[1..]), w[0].0, w[0].1, motion[0]);
  }

  lemma PrependShifted(a: Step, t: seq<Step>, x: int, y: int, b: Step)
    requires a.Move? && b == Move(a.x + 65536 * x, a.y + 65536 * y)
    ensures Prepend(b, t, true) == Shifted(Prepend(a, t, true), x, y) && Prepend(a, t, true)[0].Move?
  {
  }

  lemma ShiftedBack(t: seq<Step>, t': seq<Step>, x: int, y: int)
    requires t != [] && t[0].Move? && t' != [] && t'[0].Move? && Shifted(t, x, y) == Shifted(t', x, y)
    ensures t == t'
  {
    var s, s' := Shifted(t, x, y), Shifted(t', x, y);
    assert s[0] == s'[0] && s[1..] == t[1..] && s'[1..] == t'[1..];
    assert t == [t[0]] + t[1..] && t' == [t'[0]] + t'[1..];
  }

  lemma AccountedNext(r: Reading, pushed: seq<Packet>, delivered: seq<Packet>, queue: seq<Packet>, wraps: seq<Wrapping>,
                      sent: Packet, queue': seq<Packet>, kind: Kind, all: seq<Packet>, w: seq<Wrapping>)
    requires Relative(kind) && queue != [] && |wraps| == |delivered|
    requires Accounted(pushed, delivered + queue, wraps + NoWraps(|queue|), kind)
    requires (sent, queue') == Scan(r, queue[0], queue[1..]) && all == delivered + [sent] + queue'
    requires w == wraps + [WrapsOf(r, queue[0], queue[1..])] + NoWraps(|queue'|)
    ensures Accounted(pushed, all, w, kind)
  {
    var pass, last := Pass(r, queue[0], queue[1..]), [WrapsOf(r, queue[0], queue[1..])] + NoWraps(|queue'|);
    JoinSent(delivered, sent, queue', pass, all);
    JoinWraps(wraps, WrapsOf(r, queue[0], queue[1..]), NoWraps(|queue'|), last, w);
    PassAccounted(r, queue[0], queue[1..], kind, pass, last);
    QueueAccounted(queue, [queue[0]] + queue[1..], kind);
    TailAccounted(pushed, delivered, wraps, queue, NoWraps(|queue|), pass, last, kind, delivered + queue,
                  wraps + NoWraps(|queue|), all, w);
  }

  lemma JoinWraps(a: seq<Wrapping>, b: Wrapping, c: seq<Wrapping>, last: seq<Wrapping>, all: seq<Wrapping>)
    requires last == [b] + c && all == a + [b] + c
    ensures all == a + last
  {
  }

  lemma QueueAccounted(queue: seq<Packet>, same: seq<Packet>, kind: Kind)
    requires queue != [] && same == [queue[0]] + queue[1..]
    ensures Fold(Unwrapped(queue, NoWraps(|queue|), kind)) == Totals(same, kind, true)
  {
    assert same == queue;
    TotalsFold(queue, kind);
    assert Motions(queue, kind) == Unwrapped(queue, NoWraps(|queue|), kind);
  }

  /** What is queued may be replaced by something with the same totals. */
  lemma TailAccounted(pushed: seq<Packet>, d: seq<Packet>, wd: seq<Wrapping>, q: seq<Packet>, wq: seq<Wrapping>,
                      p: seq<Packet>, wp: seq<Wrapping>, kind: Kind, dq: seq<Packet>, wdq: seq<Wrapping>,
                      dp: seq<Packet>, wdp: seq<Wrapping>)
    requires |d| == |wd| && |q| == |wq| && |p| == |wp|
    requires dq == d + q && wdq == wd + wq && dp == d + p && wdp == wd + wp
    requires Accounted(pushed, dq, wdq, kind) && Fold(Unwrapped(q, wq, kind)) == Fold(Unwrapped(p, wp, kind))
    ensures Accounted(pushed, dp, wdp, kind)
  {
    UnwrappedJoin(d, q, wd, wq, kind, dq, wdq);
    UnwrappedJoin(d, p, wd, wp, kind, dp, wdp);
    FoldPrefix(Unwrapped(d, wd, kind), Unwrapped(q, wq, kind), Unwrapped(p, wp, kind));
  }

  lemma UnwrappedJoin(a: seq<Packet>, b: seq<Packet>, v: seq<Wrapping>, w: seq<Wrapping>, kind: Kind, all: seq<Packet>,
                      wraps: seq<Wrapping>)
    requires |a| == |v| && |b| == |w| && all == a + b && wraps == v + w
    ensures Unwrapped(all, wraps, kind) == Unwrapped(a, v, kind) + Unwrapped(b, w, kind)
  {
  }

  /** Every relative type is accounted for. */
  ghost predicate AllAccounted(pushed: seq<Packet>, sent: seq<Packet>, wraps: seq<Wrapping>) {
    forall kind: Kind :: Relative(kind) ==> Accounted(pushed, sent, wraps, kind)
  }

  lemma NothingAccounted(sent: seq<Packet>, wraps: seq<Wrapping>)
    requires sent == [] && wraps == []
    ensures AllAccounted([], sent, wraps)
  {
  }

  lemma AllAccountedPush(pushed: seq<Packet>, delivered: seq<Packet>, queue: seq<Packet>, wraps: seq<Wrapping>,
                         p: Packet, sent': seq<Packet>, wraps': seq<Wrapping>)
    requires |wraps| == |delivered| && AllAccounted(pushed, delivered + queue, wraps + NoWraps(|queue|))
    requires sent' == delivered + (queue + [p]) && wraps' == wraps + NoWraps(|queue| + 1)
    ensures AllAccounted(pushed + [p], sent', wraps')
  {
    assert sent' == delivered + queue + [p] && wraps' == wraps + NoWraps(|queue|) + [(0, 0)];
    forall kind: Kind | Relative(kind) ensures Accounted(pushed + [p], sent', wraps', kind) {
      AccountedPush(pushed, delivered + queue, wraps + NoWraps(|queue|), p, kind, sent', wraps');
    }
  }

  lemma AllAccountedNext(r: Reading, pushed: seq<Packet>, delivered: seq<Packet>, queue: seq<Packet>,
                         wraps: seq<Wrapping>, sent: Packet, queue': seq<Packet>, all: seq<Packet>, w: seq<Wrapping>)
    requires queue != [] && |wraps| == |delivered|
    requires AllAccounted(pushed, delivered + queue, wraps + NoWraps(|queue|))
    requires (sent, queue') == Scan(r, queue[0], queue[1..]) && all == delivered + [sent] + queue'
    requires w == wraps + [WrapsOf(r, queue[0], queue[1..])] + NoWraps(|queue'|)
    ensures AllAccounted(pushed, all, w)
  {
    forall kind: Kind | Relative(kind) ensures Accounted(pushed, all, w, kind) {
      AccountedNext(r, pushed, delivered, queue, wraps, sent, queue', kind, all, w);
    }
  }
}
