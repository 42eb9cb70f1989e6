/** The worker protocol of src/thread_pool.h, as the atomic steps of any number of threads. */
module ThreadPool {
  import opened TaskPool

  datatype Deadline = Never | At(time: int)

  /** Where a worker is in _main. */
  datatype Pc =
    | Top                                        // about to read _continue
    | Popping                                    // about to pop
    | Running                                    // running a task
    | WantLock                                   // nothing to do; about to lock
    | Locked                                     // holds the lock, about to ask ready()
    | NotReady                                   // holds the lock, about to read _continue
    | Continuing                                 // holds the lock, about to ask next()
    | HasDeadline(deadline: Deadline)            // holds the lock, about to wait
    | Waiting(deadline: Deadline, notified: bool)
    | Woken                                      // wait returned; holds the lock
    | Draining                                   // executing remaining tasks: about to pop
    | DrainRunning
    | Done

  predicate Holds(pc: Pc) {
    pc.Locked? || pc.NotReady? || pc.Continuing? || pc.HasDeadline? || pc.Woken?
  }

  predicate Blocked(pc: Pc) { pc.Waiting? && !pc.notified }

  datatype Lock = Free | Held(worker: nat)

  datatype State = State(
    ws: seq<Pc>,
    lock: Lock,
    tasks: seq<Id>,
    timers: seq<Timer>,
    continue_: bool,
    now: int,
    // history: immediate tasks pushed and handed out, whether an outsider pushed after stop, and the timers
    pushed: seq<Id>,
    handed: seq<Id>,
    latePush: bool,
    scheduled: multiset<Id>,
    fired: multiset<Id>,
    cancelled: multiset<Id>)

  /** Who calls: a thread outside the pool, or a worker from inside a task. */
  datatype Caller = Outside | Inside(w: nat)

  datatype Step =
    | Tick(d: nat)
    | ReadContinue(w: nat)
    | Pop(w: nat)
    | Finish(w: nat)
    | Acquire(w: nat)
    | AskReady(w: nat)
    | ReadContinueLocked(w: nat)
    | AskNext(w: nat)
    | Wait(w: nat)
    | Wake(w: nat)
    | Unlock(w: nat)
    | Push(who: Caller, id: Id, wake: nat)
    | PushDelayed(who: Caller, x: Timer, k: nat)
    | Cancel(k: nat)
    | DelayLater(k: nat, p: nat, due: int)
    | Stop

  predicate Due(s: State) {
    s.timers != [] && s.timers[|s.timers| - 1].due <= s.now
  }

  predicate MayCall(s: State, who: Caller) {
    s.lock.Free? && (who.Outside? || (who.w < |s.ws| && (s.ws[who.w].Running? || s.ws[who.w].DrainRunning?)))
  }

  ghost predicate Enabled(s: State, step: Step) {
    match step
    case Tick(_) => true
    case ReadContinue(w) => w < |s.ws| && s.ws[w].Top?
    case Pop(w) => w < |s.ws| && (s.ws[w].Popping? || s.ws[w].Draining?)
    case Finish(w) => w < |s.ws| && (s.ws[w].Running? || s.ws[w].DrainRunning?)
    case Acquire(w) => w < |s.ws| && s.ws[w].WantLock? && s.lock.Free?
    case AskReady(w) => w < |s.ws| && s.ws[w].Locked?
    case ReadContinueLocked(w) => w < |s.ws| && s.ws[w].NotReady?
    case AskNext(w) => w < |s.ws| && s.ws[w].Continuing?
    case Wait(w) => w < |s.ws| && s.ws[w].HasDeadline?
    // notified, timed out or spurious: the wait can return whenever the lock is free
    case Wake(w) => w < |s.ws| && s.ws[w].Waiting? && s.lock.Free?
    case Unlock(w) => w < |s.ws| && s.ws[w].Woken?
    // notify_one wakes some blocked worker, if there is one
    case Push(who, _, wake) =>
      MayCall(s, who) && wake < |s.ws| && (Blocked(s.ws[wake]) || forall w :: 0 <= w < |s.ws| ==> !Blocked(s.ws[w]))
    case PushDelayed(who, x, k) =>
      MayCall(s, who) && k <= |s.timers|
      && InsertedBehind(s.timers, InsertAt(s.timers, k, x), k, x, |s.timers|)
    // cancel and delay take only the lock of the queues
    case Cancel(k) => k < |s.timers|
    case DelayLater(k, p, due) =>
      p <= k < |s.timers| && due >= s.timers[k].due
      && InsertedBehind(RemoveAt(s.timers, k), InsertAt(RemoveAt(s.timers, k), p, Timer(due, s.timers[k].id)), p,
                        Timer(due, s.timers[k].id), k)
    case Stop => s.lock.Free?
  }

  function At(s: State, w: nat, pc: Pc): State
    requires w < |s.ws|
  {
    s.(ws := s.ws[w := pc])
  }

  function Notified(pc: Pc): Pc {
    if pc.Waiting? then pc.(notified := true) else pc
  }

  function NotifyAll(ws: seq<Pc>): (r: seq<Pc>)
    ensures |r| == |ws|
  {
    seq(|ws|, w requires 0 <= w < |ws| => Notified(ws[w]))
  }

  ghost function Apply(s: State, step: Step): State
    requires Enabled(s, step)
  {
    match step
    case Tick(d) => s.(now := s.now + d)
    case ReadContinue(w) => At(s, w, if s.continue_ then Popping else Draining)
    case Pop(w) =>
      var main := s.ws[w].Popping?;
      if s.tasks != [] then
        At(s, w, if main then Running else DrainRunning).(tasks := s.tasks[1..], handed := s.handed + [s.tasks[0]])
      else if Due(s) then
        var last := |s.timers| - 1;
        At(s, w, if main then Running else DrainRunning).(timers := s.timers[..last],
                                                          fired := s.fired + multiset{s.timers[last].id})
      else
        At(s, w, if main then WantLock else Done)
    case Finish(w) => At(s, w, if s.ws[w].Running? then Top else Draining)
    case Acquire(w) => At(s, w, Locked).(lock := Held(w))
    case AskReady(w) => if s.tasks != [] || Due(s) then At(s, w, Top).(lock := Free) else At(s, w, NotReady)
    case ReadContinueLocked(w) => if s.continue_ then At(s, w, Continuing) else At(s, w, Draining).(lock := Free)
    case AskNext(w) =>
      At(s, w, HasDeadline(if s.timers == [] then Never else Deadline.At(s.timers[|s.timers| - 1].due)))
    case Wait(w) => At(s, w, Waiting(s.ws[w].deadline, false)).(lock := Free)
    case Wake(w) => At(s, w, Woken).(lock := Held(w))
    case Unlock(w) => At(s, w, Top).(lock := Free)
    case Push(who, id, wake) =>
      At(s, wake, Notified(s.ws[wake])).(tasks := s.tasks + [id], pushed := s.pushed + [id],
                                        latePush := s.latePush || (who.Outside? && !s.continue_))
    case PushDelayed(who, x, k) =>
      s.(ws := NotifyAll(s.ws), timers := InsertAt(s.timers, k, x), scheduled := s.scheduled + multiset{x.id})
    case Cancel(k) => s.(timers := RemoveAt(s.timers, k), cancelled := s.cancelled + multiset{s.timers[k].id})
    case DelayLater(k, p, due) =>
      s.(timers := InsertAt(RemoveAt(s.timers, k), p, Timer(due, s.timers[k].id)))
    case Stop => s.(continue_ := false, ws := NotifyAll(s.ws))
  }

  predicate Init(s: State) {
    && s.ws != [] && (forall w :: 0 <= w < |s.ws| ==> s.ws[w].Top?)
    && s.lock.Free? && s.tasks == [] && s.timers == [] && s.continue_
    && s.pushed == [] && s.handed == [] && !s.latePush
    && s.scheduled == s.fired == s.cancelled == multiset{}
  }

  // ---- what holds in every state

  /** A worker that will sleep until `d` cannot oversleep the next timer. */
  predicate InTime(d: Deadline, timers: seq<Timer>) {
    timers != [] ==> d.At? && d.time <= timers[|timers| - 1].due
  }

  ghost predicate LockInv(s: State) {
    forall w :: 0 <= w < |s.ws| ==> (Holds(s.ws[w]) <==> s.lock == Held(w))
  }

  /** What the steps under the lock have established: nothing can have been pushed since. */
  ghost predicate AboutToWait(s: State) {
    forall w :: 0 <= w < |s.ws| ==>
      && (s.ws[w].NotReady? || s.ws[w].Continuing? || s.ws[w].HasDeadline? ==> s.tasks == [])
      && (s.ws[w].Continuing? || s.ws[w].HasDeadline? ==> s.continue_)
      && (s.ws[w].HasDeadline? || Blocked(s.ws[w]) ==> InTime(s.ws[w].deadline, s.timers))
      && (Blocked(s.ws[w]) ==> s.continue_)
      && (s.ws[w].Draining? || s.ws[w].DrainRunning? || s.ws[w].Done? ==> !s.continue_)
  }

  /** Someone is there to take the next immediate task. */
  ghost predicate Attended(s: State) {
    s.tasks != [] && !s.latePush ==> exists w :: 0 <= w < |s.ws| && !Blocked(s.ws[w]) && !s.ws[w].Done?
  }

  ghost predicate Inv(s: State) {
    && s.ws != [] && LockInv(s) && AboutToWait(s) && Attended(s)
    && Sorted(s.timers) && s.pushed == s.handed + s.tasks
    && (s.latePush ==> !s.continue_)
  }

  lemma Initially(s: State)
    requires Init(s)
    ensures Inv(s)
  {
  }

  lemma EarliestGrows(s: seq<Timer>, t: seq<Timer>, d: Deadline)
    requires InTime(d, s) && (t != [] ==> s != [] && s[|s| - 1].due <= t[|t| - 1].due)
    ensures InTime(d, t)
  {
  }

  /** A step of worker `w` that leaves it neither blocked nor done attends to whatever is queued. */
  lemma WorkerAttends(s: State, w: nat)
    requires w < |s.ws| && !Blocked(s.ws[w]) && !s.ws[w].Done?
    ensures Attended(s)
  {
  }

  lemma TimersKeep(s: State, timers: seq<Timer>)
    requires Inv(s) && Sorted(timers)
    requires timers != [] ==> s.timers != [] && s.timers[|s.timers| - 1].due <= timers[|timers| - 1].due
    ensures Inv(s.(timers := timers))
  {
    forall v | 0 <= v < |s.ws| && (s.ws[v].HasDeadline? || Blocked(s.ws[v])) ensures InTime(s.ws[v].deadline, timers) {
      EarliestGrows(s.timers, timers, s.ws[v].deadline);
    }
  }

  lemma PopKeeps(s: State, w: nat)
    requires Inv(s) && Enabled(s, Pop(w))
    ensures Inv(Apply(s, Pop(w)))
  {
    if s.tasks != [] { PopTaskKeeps(s, w); } else if Due(s) { PopTimerKeeps(s, w); } else { PopNothingKeeps(s, w); }
  }

  lemma PopTaskKeeps(s: State, w: nat)
    requires Inv(s) && Enabled(s, Pop(w)) && s.tasks != []
    ensures Inv(Apply(s, Pop(w)))
  {
    assert s.tasks == [s.tasks[0]] + s.tasks[1..];
    WorkerAttends(Apply(s, Pop(w)), w);
  }

  lemma PopTimerKeeps(s: State, w: nat)
    requires Inv(s) && Enabled(s, Pop(w)) && s.tasks == [] && Due(s)
    ensures Inv(Apply(s, Pop(w)))
  {
    TimersKeep(s, s.timers[..|s.timers| - 1]);
  }

  lemma PopNothingKeeps(s: State, w: nat)
    requires Inv(s) && Enabled(s, Pop(w)) && s.tasks == [] && !Due(s)
    ensures Inv(Apply(s, Pop(w)))
  {
  }

  lemma PushKeeps(s: State, who: Caller, id: Id, wake: nat)
    requires Inv(s) && Enabled(s, Push(who, id, wake))
    ensures Inv(Apply(s, Push(who, id, wake)))
  {
    var s' := Apply(s, Push(who, id, wake));
    if who.Inside? {
      WorkerAttends(s', who.w);
    } else if s.continue_ {
      WorkerAttends(s', wake);
    }
  }

  lemma NotifyAllKeeps(s: State, timers: seq<Timer>, stop: bool, scheduled: multiset<Id>)
    requires Inv(s) && Sorted(timers) && s.lock.Free?
    ensures Inv(s.(ws := NotifyAll(s.ws), timers := timers, continue_ := s.continue_ && !stop, scheduled := scheduled))
  {
    var s' := s.(ws := NotifyAll(s.ws), timers := timers, continue_ := s.continue_ && !stop, scheduled := scheduled);
    if s.tasks != [] && !s.latePush {
      var w :| 0 <= w < |s.ws| && !Blocked(s.ws[w]) && !s.ws[w].Done?;
      WorkerAttends(s', w);
    }
  }

  lemma WorkerKeeps(s: State, step: Step)
    requires Inv(s) && Enabled(s, step)
    requires step.ReadContinue? || step.Finish? || step.Acquire? || step.AskReady? || step.ReadContinueLocked?
          || step.AskNext? || step.Wait? || step.Wake? || step.Unlock?
    ensures Inv(Apply(s, step))
  {
    if step.Acquire? || step.Wake? || step.Unlock? {
      LockKeeps(s, step);
    } else if step.Wait? {
      WaitKeeps(s, step);
    } else if step.AskReady? || step.ReadContinueLocked? || step.AskNext? {
      AskKeeps(s, step);
    } else {
      ReadKeeps(s, step);
    }
  }

  lemma LockKeeps(s: State, step: Step)
    requires Inv(s) && Enabled(s, step) && (step.Acquire? || step.Wake? || step.Unlock?)
    ensures Inv(Apply(s, step))
  {
    WorkerAttends(Apply(s, step), step.w);
  }

  lemma WaitKeeps(s: State, step: Step)
    requires Inv(s) && Enabled(s, step) && step.Wait?
    ensures Inv(Apply(s, step))
  {
  }

  lemma ReadKeeps(s: State, step: Step)
    requires Inv(s) && Enabled(s, step) && (step.ReadContinue? || step.Finish?)
    ensures Inv(Apply(s, step))
  {
    WorkerAttends(Apply(s, step), step.w);
  }

  lemma AskKeeps(s: State, step: Step)
    requires Inv(s) && Enabled(s, step) && (step.AskReady? || step.ReadContinueLocked? || step.AskNext?)
    ensures Inv(Apply(s, step))
  {
    WorkerAttends(Apply(s, step), step.w);
  }

  lemma TickKeeps(s: State, d: nat)
    requires Inv(s)
    ensures Inv(s.(now := s.now + d))
  {
  }

  lemma CancelKeeps(s: State, k: nat)
    requires Inv(s) && Enabled(s, Cancel(k))
    ensures Inv(Apply(s, Cancel(k)))
  {
    var timers := RemoveAt(s.timers, k);
    assert forall i :: 0 <= i < |timers| ==> timers[i] == if i < k then s.timers[i] else s.timers[i + 1];
    TimersKeep(s, timers);
  }

  lemma DelayKeeps(s: State, k: nat, p: nat, due: int)
    requires Inv(s) && Enabled(s, DelayLater(k, p, due))
    ensures Inv(Apply(s, DelayLater(k, p, due)))
  {
    var x := Timer(due, s.timers[k].id);
    SortedAfterDelay(s.timers, k, p, x);
    TimersKeep(s, InsertAt(RemoveAt(s.timers, k), p, x));
  }

  lemma StepKeeps(s: State, step: Step)
    requires Inv(s) && Enabled(s, step)
    ensures Inv(Apply(s, step))
  {
    match step
    case Tick(d) => TickKeeps(s, d);
    case Pop(w) => PopKeeps(s, w);
    case Push(who, id, wake) => PushKeeps(s, who, id, wake);
    case PushDelayed(who, x, k) => NotifyAllKeeps(s, InsertAt(s.timers, k, x), false, s.scheduled + multiset{x.id});
    case Cancel(k) => CancelKeeps(s, k);
    case DelayLater(k, p, due) => DelayKeeps(s, k, p, due);
    case Stop => NotifyAllKeeps(s, s.timers, true, s.scheduled);
    case _ => WorkerKeeps(s, step);
  }

  /** A run: every state follows from the one before by some step of some thread. */
  ghost predicate Run(states: seq<State>, steps: seq<Step>) {
    && |states| == |steps| + 1 && Init(states[0])
    && forall i :: 0 <= i < |steps| ==> Enabled(states[i], steps[i]) && states[i + 1] == Apply(states[i], steps[i])
  }

  lemma {:induction false} RunKeeps(states: seq<State>, steps: seq<Step>, i: nat)
    requires Run(states, steps) && i < |states|
    ensures Inv(states[i])
  {
    if i == 0 {
      Initially(states[0]);
    } else {
      RunKeeps(states, steps, i - 1);
      StepKeeps(states[i - 1], steps[i - 1]);
    }
  }

  /** No wakeup is lost, in any interleaving. While the pool runs, a queued immediate task means that some
      worker is not blocked; no blocked worker sleeps past the next timer; after stop nobody is blocked.
      Immediate tasks are handed out in the order they were pushed, and once every worker has left,
      without a push from outside after stop, all of them have been. */
  lemma NoLostWakeup(states: seq<State>, steps: seq<Step>, i: nat)
    requires Run(states, steps) && i < |states|
    ensures var s := states[i];
      && (s.continue_ && s.tasks != [] ==> exists w :: 0 <= w < |s.ws| && !Blocked(s.ws[w]) && !s.ws[w].Done?)
      && (forall w :: 0 <= w < |s.ws| && Blocked(s.ws[w]) ==> s.continue_ && InTime(s.ws[w].deadline, s.timers))
      && s.pushed == s.handed + s.tasks
      && ((forall w :: 0 <= w < |s.ws| ==> s.ws[w].Done?) && !s.latePush ==> s.tasks == [] && s.handed == s.pushed)
  {
    RunKeeps(states, steps, i);
  }

  /** A timer that is due, before which no other is, leaves the pool to run. */
  ghost predicate TimerTaken(s: State, s': State, t: Timer) {
    && t.due <= s.now && (forall x <- s.timers :: t.due <= x.due)
    && multiset(s.timers) == multiset(s'.timers) + multiset{t} && s'.fired == s.fired + multiset{t.id}
  }

  /** What a worker gets: the task queued first; with no task queued a timer that is due; and nothing only when
      nothing is queued or due. Then it goes to wait, or leaves after a stop. */
  lemma PopTakes(s: State, w: nat)
    requires Inv(s) && Enabled(s, Pop(w))
    ensures var s' := Apply(s, Pop(w));
      && s'.pushed == s.pushed && s'.scheduled == s.scheduled && s'.cancelled == s.cancelled
      && (if s.tasks != [] then
            s'.timers == s.timers && s'.fired == s.fired && |s'.handed| == |s.handed| + 1
            && [s'.handed[|s.handed|]] + s'.tasks == s.tasks && (s'.ws[w].Running? || s'.ws[w].DrainRunning?)
          else if exists t :: t in s.timers && t.due <= s.now then
            s'.handed == s.handed && s'.tasks == [] && (exists t :: t in s.timers && TimerTaken(s, s', t))
            && (s'.ws[w].Running? || s'.ws[w].DrainRunning?)
          else s' == s.(ws := s.ws[w := if s.ws[w].Popping? then WantLock else Done]))
  {
    if s.tasks == [] && s.timers != [] {
      var last := |s.timers| - 1;
      var t := s.timers[last];
      assert s.timers == s.timers[..last] + [t];
      if Due(s) { assert t in s.timers && TimerTaken(s, Apply(s, Pop(w)), t); }
    }
  }

  /** Every timer scheduled is waiting, was cancelled or was handed out. */
  ghost predicate TimersKept(s: State) {
    forall id :: s.scheduled[id] == s.fired[id] + s.cancelled[id] + Count(s.timers, id)
  }

  lemma StepKeepsTimers(s: State, step: Step)
    requires TimersKept(s) && Enabled(s, step)
    ensures TimersKept(Apply(s, step))
  {
    var s' := Apply(s, step);
    if step.Pop? || step.PushDelayed? || step.Cancel? || step.DelayLater? {
      forall id ensures s'.scheduled[id] == s'.fired[id] + s'.cancelled[id] + Count(s'.timers, id) {
        TimerBalance(s, step, id);
      }
    }
  }

  lemma TimerBalance(s: State, step: Step, id: Id)
    requires s.scheduled[id] == s.fired[id] + s.cancelled[id] + Count(s.timers, id) && Enabled(s, step)
    requires step.Pop? || step.PushDelayed? || step.Cancel? || step.DelayLater?
    ensures var s' := Apply(s, step); s'.scheduled[id] == s'.fired[id] + s'.cancelled[id] + Count(s'.timers, id)
  {
    match step
    case Pop(w) => PopBalance(s, w, id);
    case PushDelayed(_, x, k) => CountInsert(s.timers, k, x, id);
    case Cancel(k) => CountRemove(s.timers, k, id);
    case DelayLater(k, p, due) => CountMoved(s.timers, k, p, due, id);
  }

  lemma PopBalance(s: State, w: nat, id: Id)
    requires Enabled(s, Pop(w))
    ensures var s' := Apply(s, Pop(w));
      s'.scheduled == s.scheduled && s'.cancelled == s.cancelled
      && s.fired[id] + Count(s.timers, id) == s'.fired[id] + Count(s'.timers, id)
  {
    if s.tasks == [] && Due(s) { LastOut(s.timers, id); }
  }

  lemma CountMoved(t: seq<Timer>, k: nat, p: nat, due: int, id: Id)
    requires p <= k < |t|
    ensures Count(InsertAt(RemoveAt(t, k), p, Timer(due, t[k].id)), id) == Count(t, id)
  {
    CountRemove(t, k, id);
    CountInsert(RemoveAt(t, k), p, Timer(due, t[k].id), id);
  }

  lemma LastOut(t: seq<Timer>, id: Id)
    requires t != []
    ensures Count(t, id) == Count(t[..|t| - 1], id) + if t[|t| - 1].id == id then 1 else 0
  {
    assert RemoveAt(t, |t| - 1) == t[..|t| - 1];
    CountRemove(t, |t| - 1, id);
  }

  /** In any interleaving no timer is lost or doubled. While one is due, every sleeper's deadline has passed. */
  lemma {:induction false} NoTimerLost(states: seq<State>, steps: seq<Step>, i: nat)
    requires Run(states, steps) && i < |states|
    ensures TimersKept(states[i])
    ensures forall w, t :: 0 <= w < |states[i].ws| && Blocked(states[i].ws[w]) && t in states[i].timers ==>
      states[i].ws[w].deadline.At? && states[i].ws[w].deadline.time <= t.due
  {
    RunKeeps(states, steps, i);
    if i > 0 {
      NoTimerLost(states, steps, i - 1);
      StepKeepsTimers(states[i - 1], steps[i - 1]);
    }
  }

  /** The lock is never held by two workers, and a worker never waits while it holds it. */
  lemma MutualExclusion(states: seq<State>, steps: seq<Step>, i: nat, v: nat, w: nat)
    requires Run(states, steps) && i < |states| && v < |states[i].ws| && w < |states[i].ws|
    requires Holds(states[i].ws[v]) && Holds(states[i].ws[w])
    ensures v == w
  {
    RunKeeps(states, steps, i);
  }
}
