/** The input queue of a session (src/input.cpp). */
module InputQueue {
  import opened InputMessages
  import opened InputMotion
  import opened InputBatching
  import opened InputRefinement

  class InputContext {
    const reading: Reading
    var queue: seq<Packet>
    // passthrough_next_message tasks in the thread pool, one for each message queued
    var tasks: nat
    ghost var pushed: seq<Packet>
    ghost var delivered: seq<Packet>
    // for every message delivered, the wraps of what was merged into it
    ghost var wraps: seq<Wrapping>

    ghost predicate Valid()
      reads this
    {
      && |queue| <= tasks && Unobservable(reading, pushed, delivered + queue)
      && |wraps| == |delivered| && AllAccounted(pushed, delivered + queue, wraps + NoWraps(|queue|))
    }

    constructor (reading: Reading)
      ensures Valid() && this.reading == reading && queue == [] && pushed == [] && delivered == [] && wraps == []
    {
      this.reading, queue, tasks, pushed, delivered, wraps := reading, [], 0, [], [], [];
      new;
      UnobservableRefl(reading, []);
      NothingAccounted(delivered + queue, wraps + NoWraps(|queue|));
    }

    /** A message arrives: it is queued, and a task that will send it. */
    method Passthrough(p: Packet)
      requires Valid()
      modifies this
      ensures Valid() && queue == old(queue) + [p] && tasks == old(tasks) + 1
      ensures pushed == old(pushed) + [p] && delivered == old(delivered) && wraps == old(wraps)
    {
      queue := queue + [p];
      tasks := tasks + 1;
      UnobservablePush(reading, pushed, delivered + old(queue), p);
      AllAccountedPush(pushed, delivered, old(queue), wraps, p, delivered + queue, wraps + NoWraps(|queue|));
      pushed := pushed + [p];
      assert delivered + queue == delivered + old(queue) + [p];
    }

    /** One task: the first message leaves, with the messages behind it that could be merged into it. */
    method PassthroughNextMessage() returns (sent: seq<Packet>)
      requires Valid() && tasks > 0
      modifies this
      ensures Valid() && tasks == old(tasks) - 1 && pushed == old(pushed) && delivered == old(delivered) + sent
      ensures old(queue) == [] ==> sent == [] && queue == [] && wraps == old(wraps)
      ensures old(queue) != [] ==>
        && (var (m, rest) := Scan(reading, old(queue)[0], old(queue)[1..]); sent == [m] && queue == rest)
        && Exhausted(reading, sent[0], queue)
        && wraps == old(wraps) + [WrapsOf(reading, old(queue)[0], old(queue)[1..])]
    {
      tasks := tasks - 1;
      if queue == [] {
        return [];
      }
      ghost var was, before := queue, delivered;
      ScanShrinks(reading, queue[0], queue[1..]);
      var entry := queue[0];
      queue := queue[1..];
      var payload := BatchQueued(entry);
      ScanExhausts(reading, was[0], was[1..]);
      sent := [payload];
      delivered := delivered + sent;
      UnobservableNext(reading, pushed, before, was, payload, queue, delivered + queue);
      ghost var wrapsBefore := wraps;
      wraps := wraps + [WrapsOf(reading, was[0], was[1..])];
      AllAccountedNext(reading, pushed, before, was, wrapsBefore, payload, queue, delivered + queue,
                       wraps + NoWraps(|queue|));
    }

    /** What is merged into `first` leaves the queue; what is not stays in order. */
    method BatchQueued(first: Packet) returns (entry: Packet)
      modifies this`queue
      ensures (entry, queue) == Scan(reading, first, old(queue))
    {
      entry := first;
      var i := 0;
      ghost var goal := Scan(reading, first, queue);
      assert queue[0..] == queue && forall t: seq<Packet> :: queue[..0] + t == t;
      while i < |queue|
        invariant 0 <= i <= |queue|
        invariant goal == (Scan(reading, entry, queue[i..]).0, queue[..i] + Scan(reading, entry, queue[i..]).1)
        decreases |queue| - i
      {
        match Batch(reading, entry, queue[i])
        case TerminateBatch =>
          assert queue[..i] + queue[i..] == queue;
          return;
        case Batched(merged) =>
          ghost var before := queue;
          assert before[i..][1..] == before[i + 1..];
          queue := queue[..i] + queue[i + 1..];
          assert queue[i..] == before[i + 1..] && queue[..i] == before[..i];
          entry := merged;
        case NotBatchable =>
          NotBatched(queue, i, Scan(reading, entry, queue[i + 1..]).1);
          i := i + 1;
      }
      assert queue[i..] == [] && queue[..i] + [] == queue;
    }
  }

  /** Over every run: of a relative type, what was pushed and what has been sent or is queued move exactly as far
      between messages of other types, exactly when in each such stretch the wraps of all merges cancel. */
  lemma ExactOverRun(c: InputContext, kind: Kind)
    requires c.Valid() && Relative(kind)
    ensures Totals(c.pushed, kind, true) == Totals(c.delivered + c.queue, kind, true)
       <==> Cancelled(Fold(WrapSteps(c.delivered + c.queue, c.wraps + NoWraps(|c.queue|), kind)))
  {
    ExactIffAllCancel(c.pushed, c.delivered + c.queue, c.wraps + NoWraps(|c.queue|), kind);
  }

  lemma NotBatched(queue: seq<Packet>, i: nat, t: seq<Packet>)
    requires i < |queue|
    ensures queue[i..][1..] == queue[i + 1..]
    ensures queue[..i] + ([queue[i]] + t) == queue[..i + 1] + t
  {
  }

  lemma {:induction false} ScanShrinks(r: Reading, m: Packet, rest: seq<Packet>)
    ensures |Scan(r, m, rest).1| <= |rest|
    decreases |rest|
  {
    if rest != [] {
      match Batch(r, m, rest[0])
      case TerminateBatch =>
      case Batched(merged) => ScanShrinks(r, merged, rest[1..]);
      case NotBatchable => ScanShrinks(r, m, rest[1..]);
    }
  }

  /** Once the jobs that queuing created have run, every message is accounted for. Per state-carrying key
      the delivered messages are a subsequence that keeps the final message of every stretch of one
      state; relative motion has the same totals. */
  lemma Drained(c: InputContext, k: Key)
    requires c.Valid() && c.tasks == 0
    ensures c.queue == [] && Unobservable(c.reading, c.pushed, c.delivered)
    ensures !Relative(k.kind) ==>
      && Subsequence(Tokens(c.delivered, k), Tokens(c.pushed, k))
      && Finals(Tokens(c.delivered, k)) == Finals(Tokens(c.pushed, k))
  {
    assert c.delivered + c.queue == c.delivered;
    if !Relative(k.kind) {
      ThinsIsSubsequence(Tokens(c.pushed, k), Tokens(c.delivered, k));
      ThinsKeepsFinals(Tokens(c.pushed, k), Tokens(c.delivered, k));
    }
  }

  /** Thinning drops only messages that batching knows. */
  lemma {:induction false} UnbatchableKept(a: seq<Token>, b: seq<Token>)
    requires Thins(a, b)
    requires forall t <- a :: t.Msg? ==> !SameState(t.p, t.p)
    ensures Messages(a) == Messages(b)
    decreases |a|
  {
    if a != [] {
      if b != [] && a[0] == b[0] && Thins(a[1..], b[1..]) {
        UnbatchableKept(a[1..], b[1..]);
      } else {
        if a[0].Msg? { SupersededIsBatchable(a[0].p, a[1].p); }
        UnbatchableKept(a[1..], b);
      }
    }
  }

  lemma SupersededIsBatchable(p: Packet, q: Packet)
    requires SameState(p, q)
    ensures SameState(p, p)
  {
  }

  function Messages(a: seq<Token>): seq<Packet> {
    if a == [] then [] else (if a[0].Msg? then [a[0].p] else []) + Messages(a[1..])
  }

  function OfKey(q: seq<Packet>, k: Key): seq<Packet> {
    if q == [] then [] else (if KeyOf(q[0]) == k then [q[0]] else []) + OfKey(q[1..], k)
  }

  lemma {:induction false} MessagesOfKey(q: seq<Packet>, k: Key)
    ensures Messages(Tokens(q, k)) == OfKey(q, k)
    ensures forall t <- Tokens(q, k) :: t.Msg? ==> KeyOf(t.p) == k
  {
    if q != [] {
      var head := Tokens1(q[0], k);
      MessagesOfKey(q[1..], k);
      if head == [] {
        assert head + Tokens(q[1..], k) == Tokens(q[1..], k);
      } else {
        assert (head + Tokens(q[1..], k))[1..] == Tokens(q[1..], k);
      }
    }
  }

  /** Messages batching does not know, such as buttons, keys and text, are never lost, changed or put in
      another order: what was pushed of such a type is what was sent and what is still queued. */
  lemma OthersKept(c: InputContext, k: Key)
    requires c.Valid() && k.kind.KOther?
    ensures OfKey(c.delivered + c.queue, k) == OfKey(c.pushed, k)
    ensures c.tasks == 0 ==> OfKey(c.delivered, k) == OfKey(c.pushed, k)
  {
    MessagesOfKey(c.pushed, k);
    MessagesOfKey(c.delivered + c.queue, k);
    UnbatchableKept(Tokens(c.pushed, k), Tokens(c.delivered + c.queue, k));
    if c.tasks == 0 { assert c.delivered + c.queue == c.delivered; }
  }
}
