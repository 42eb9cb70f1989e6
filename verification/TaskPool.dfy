/** The immediate queue and the sorted timers of src/task_pool.h. */
module TaskPool {

  type Id = nat

  datatype Timer = Timer(due: int, id: Id)

  datatype Popped = NoTask | Task(id: Id)

  /** Latest first: the next timer to fire is the last one. */
  ghost predicate Sorted(t: seq<Timer>) {
    forall i, j :: 0 <= i < j < |t| ==> t[i].due >= t[j].due
  }

  /** How often `id` occurs among the timers. */
  function Count(t: seq<Timer>, id: Id): nat {
    if t == [] then 0 else (if t[0].id == id then 1 else 0) + Count(t[1..], id)
  }

  lemma {:induction false} CountConcat(a: seq<Timer>, b: seq<Timer>, id: Id)
    ensures Count(a + b, id) == Count(a, id) + Count(b, id)
  {
    if a == [] {
      assert a + b == b;
    } else {
      CountConcat(a[1..], b, id);
      assert (a + b)[1..] == a[1..] + b;
    }
  }

  ghost predicate Has(t: seq<Timer>, id: Id) {
    exists k :: 0 <= k < |t| && t[k].id == id
  }

  lemma {:induction false} CountMember(t: seq<Timer>, id: Id)
    ensures Count(t, id) > 0 <==> Has(t, id)
  {
    if t != [] {
      CountMember(t[1..], id);
      if Has(t[1..], id) {
        var k :| 0 <= k < |t[1..]| && t[1..][k].id == id;
        assert t[k + 1].id == id;
      }
      if Has(t, id) {
        var k :| 0 <= k < |t| && t[k].id == id;
        assert k > 0 ==> t[1..][k - 1].id == id;
      }
    }
  }

  function InsertAt(t: seq<Timer>, k: nat, x: Timer): seq<Timer>
    requires k <= |t|
  {
    t[..k] + [x] + t[k..]
  }

  function RemoveAt(t: seq<Timer>, k: nat): seq<Timer>
    requires k < |t|
  {
    t[..k] + t[k + 1..]
  }

  lemma SortedRemove(t: seq<Timer>, k: nat)
    requires k < |t| && Sorted(t)
    ensures Sorted(RemoveAt(t, k))
  {
    var base := RemoveAt(t, k);
    assert forall i :: 0 <= i < |base| ==> base[i] == if i < k then t[i] else t[i + 1];
  }

  lemma CountInsert(t: seq<Timer>, k: nat, x: Timer, id: Id)
    requires k <= |t|
    ensures Count(InsertAt(t, k, x), id) == Count(t, id) + if x.id == id then 1 else 0
  {
    var front, back := t[..k], t[k..];
    CountConcat(front, [x], id);
    CountConcat(front + [x], back, id);
    CountConcat(front, back, id);
    assert t == front + back;
  }

  lemma CountRemove(t: seq<Timer>, k: nat, id: Id)
    requires k < |t|
    ensures Count(t, id) == Count(RemoveAt(t, k), id) + if t[k].id == id then 1 else 0
  {
    var base := RemoveAt(t, k);
    assert t == InsertAt(base, k, t[k]);
    CountInsert(base, k, t[k], id);
  }

  /** What inserting behind every timer that is due no later, up to position `limit`, does. */
  predicate InsertedBehind(t: seq<Timer>, t': seq<Timer>, k: nat, x: Timer, limit: nat)
    requires k <= limit <= |t|
  {
    && t' == InsertAt(t, k, x)
    && (forall i :: 0 <= i < k ==> t[i].due >= x.due)
    && (forall i :: k <= i < limit ==> t[i].due < x.due)
  }

  /** The timer served is the last one; it is due, and no other is due earlier. */
  predicate ServedLast(t: seq<Timer>, t': seq<Timer>, id: Id, now: int) {
    && t != []
    && t' == t[..|t| - 1]
    && t[|t| - 1].id == id && t[|t| - 1].due <= now
    && forall x <- t :: t[|t| - 1].due <= x.due
  }

  class Pool {
    var tasks: seq<Id>
    var timers: seq<Timer>
    // what has left the pool, and how
    ghost var handed: seq<Id>
    ghost var cancelled: seq<Id>

    /** How often `id` is anywhere: handed out, cancelled, queued or waiting. */
    ghost function Copies(id: Id): nat
      reads this
    {
      multiset(handed)[id] + multiset(cancelled)[id] + multiset(tasks)[id] + Count(timers, id)
    }

    /** Timers are in order, and every task is in one place, once. */
    ghost predicate Valid()
      reads this
    {
      Sorted(timers) && forall id :: Copies(id) <= 1
    }

    constructor ()
      ensures Valid() && tasks == [] && timers == [] && handed == [] && cancelled == []
    {
      tasks, timers, handed, cancelled := [], [], [], [];
    }

    method Push(id: Id)
      requires Valid() && Copies(id) == 0
      modifies this
      ensures forall k :: Copies(k) == old(Copies(k)) + if k == id then 1 else 0
      ensures Valid() && tasks == old(tasks) + [id] && timers == old(timers)
      ensures handed == old(handed) && cancelled == old(cancelled)
    {
      tasks := tasks + [id];
    }

    /** Inserts before the first timer that is due earlier, so behind every timer due at the same time. */
    method PushDelayed(due: int, id: Id)
      requires Valid() && Copies(id) == 0
      modifies this
      ensures forall k :: Copies(k) == old(Copies(k)) + if k == id then 1 else 0
      ensures Valid() && tasks == old(tasks) && handed == old(handed) && cancelled == old(cancelled)
      ensures exists k ::
        0 <= k <= |old(timers)| && InsertedBehind(old(timers), timers, k, Timer(due, id), |old(timers)|)
    {
      var it := 0;
      while it < |timers| && timers[it].due >= due
        invariant 0 <= it <= |timers|
        invariant forall i :: 0 <= i < it ==> timers[i].due >= due
      {
        it := it + 1;
      }
      forall k { CountInsert(timers, it, Timer(due, id), k); }
      timers := timers[..it] + [Timer(due, id)] + timers[it..];
      assert InsertedBehind(old(timers), timers, it, Timer(due, id), |old(timers)|);
    }

    /** Removes the timer `id`, if it is there. */
    method Cancel(id: Id) returns (found: bool)
      requires Valid()
      modifies this
      ensures forall k :: Copies(k) == old(Copies(k))
      ensures Valid() && tasks == old(tasks) && handed == old(handed)
      ensures found <==> Has(old(timers), id)
      ensures found ==> cancelled == old(cancelled) + [id]
      ensures found ==> exists k ::
        0 <= k < |old(timers)| && old(timers)[k].id == id && timers == RemoveAt(old(timers), k)
      ensures !found ==> cancelled == old(cancelled) && timers == old(timers)
    {
      var it := 0;
      while it < |timers|
        invariant 0 <= it <= |timers|
        invariant forall i :: 0 <= i < it ==> timers[i].id != id
        invariant timers == old(timers) && tasks == old(tasks) && handed == old(handed) && cancelled == old(cancelled)
      {
        if timers[it].id == id {
          forall k { CountRemove(timers, it, k); }
          timers := RemoveAt(timers, it);
          cancelled := cancelled + [id];
          return true;
        }
        it := it + 1;
      }
      return false;
    }

    /** An immediate task first; otherwise the last timer, when it is due. */
    method Pop(now: int) returns (task: Popped)
      requires Valid()
      modifies this
      ensures forall k :: Copies(k) == old(Copies(k))
      ensures Valid() && cancelled == old(cancelled)
      ensures old(tasks) != [] ==> task == Task(old(tasks)[0]) && tasks == old(tasks)[1..] && timers == old(timers)
      ensures old(tasks) == [] ==> tasks == []
      ensures old(tasks) == [] && task.Task? ==> ServedLast(old(timers), timers, task.id, now)
      ensures old(tasks) == [] && task.NoTask? ==> timers == old(timers) && forall t <- timers :: t.due > now
      ensures handed == old(handed) + if task.Task? then [task.id] else []
      ensures task.Task? ==> task.id !in old(handed) && task.id !in cancelled
      ensures task.Task? ==> task.id !in tasks && !Has(timers, task.id)
    {
      if tasks != [] {
        task := Task(tasks[0]);
        TakeFront();
      } else if timers != [] && timers[|timers| - 1].due <= now {
        task := Task(timers[|timers| - 1].id);
        TakeLast();
      } else {
        task := NoTask;
      }
    }

    method TakeFront()
      requires Valid() && tasks != []
      modifies `tasks, `handed
      ensures forall k :: Copies(k) == old(Copies(k))
      ensures Valid() && tasks == old(tasks)[1..] && handed == old(handed) + [old(tasks)[0]]
      ensures var id := old(tasks)[0]; id !in old(handed) && id !in cancelled && id !in tasks && !Has(timers, id)
    {
      ghost var id := tasks[0];
      assert Copies(id) <= 1;
      assert tasks == [id] + tasks[1..];
      CountMember(timers, id);
      tasks, handed := tasks[1..], handed + [tasks[0]];
    }

    method TakeLast()
      requires Valid() && timers != []
      modifies `timers, `handed
      ensures forall k :: Copies(k) == old(Copies(k))
      ensures Valid() && timers == old(timers)[..|old(timers)| - 1]
          && handed == old(handed) + [old(timers)[|old(timers)| - 1].id]
      ensures var id := old(timers)[|old(timers)| - 1].id;
        id !in old(handed) && id !in cancelled && id !in tasks && !Has(timers, id)
    {
      ghost var last, id := |timers| - 1, timers[|timers| - 1].id;
      assert Copies(id) <= 1;
      forall k { CountRemove(timers, last, k); }
      assert RemoveAt(timers, last) == timers[..last];
      CountMember(timers, id);
      CountMember(timers[..last], id);
      timers, handed := timers[..|timers| - 1], handed + [timers[|timers| - 1].id];
    }

    /** Swaps the timer at `k` forward past every timer due before it. */
    method Bubble(k: nat, ghost base: seq<Timer>, ghost x: Timer) returns (ghost p: nat)
      requires k <= |base| && timers == InsertAt(base, k, x) && Sorted(base)
      modifies `timers
      ensures p <= k && timers == InsertAt(base, p, x)
      ensures (forall i :: p <= i < k ==> base[i].due < x.due) && (p == 0 || base[p - 1].due >= x.due)
    {
      var it: int := k;
      var prev := it - 1;
      p := it;
      while it > 0
        invariant prev == it - 1 && 0 <= it <= p <= k <= |base|
        invariant timers == InsertAt(base, p, x)
        invariant forall i :: p <= i < k ==> base[i].due < x.due
        invariant p == it || base[p - 1].due >= x.due
      {
        if timers[it].due > timers[prev].due {
          assert p == it;
          timers := timers[it := timers[prev]][prev := timers[it]];
          p := p - 1;
          assert timers == InsertAt(base, p, x);
        }
        prev := prev - 1;
        it := it - 1;
      }
    }

    /** Gives the timer `id` another time and bubbles it towards the front. The order is restored exactly
        when the new time is not before the one that follows it, in particular when it is not earlier
        than its old time. */
    method Delay(id: Id, due: int)
      requires Valid()
      modifies this`timers
      ensures forall k :: Copies(k) == old(Copies(k))
      ensures !Has(old(timers), id) ==> timers == old(timers) && Valid()
      ensures Has(old(timers), id) ==>
        exists k, p :: 0 <= p <= k < |old(timers)| && old(timers)[k].id == id
          && InsertedBehind(RemoveAt(old(timers), k), timers, p, Timer(due, id), k)
          && (Valid() <==> (k + 1 < |old(timers)| ==> old(timers)[k + 1].due <= due))
          && (due >= old(timers)[k].due ==> Valid())
    {
      var it: nat := 0;
      while it < |timers| && timers[it].id != id
        invariant 0 <= it <= |timers|
        invariant forall i :: 0 <= i < it ==> timers[i].id != id
      {
        it := it + 1;
      }
      if it == |timers| {
        return;
      }
      ghost var k: nat := it;
      ghost var base := RemoveAt(timers, k);
      ghost var x := Timer(due, id);
      forall n { CountRemove(timers, k, n); }
      timers := timers[it := Timer(due, id)];
      assert timers == InsertAt(base, k, x);

      SortedRemove(old(timers), k);
      ghost var p := Bubble(it, base, x);
      forall n { CountInsert(base, p, x, n); }
      SortedAfterDelay(old(timers), k, p, x);
    }
  }

  lemma SortedAfterDelay(t: seq<Timer>, k: nat, p: nat, x: Timer)
    requires Sorted(t) && p <= k < |t| && (p == 0 || RemoveAt(t, k)[p - 1].due >= x.due)
    requires forall i :: p <= i < k ==> RemoveAt(t, k)[i].due < x.due
    ensures InsertedBehind(RemoveAt(t, k), InsertAt(RemoveAt(t, k), p, x), p, x, k)
    ensures Sorted(InsertAt(RemoveAt(t, k), p, x)) <==> (k + 1 < |t| ==> t[k + 1].due <= x.due)
  {
    var base := RemoveAt(t, k);
    var t' := InsertAt(base, p, x);
    assert forall i :: 0 <= i < |base| ==> base[i] == if i < k then t[i] else t[i + 1];
    assert Sorted(base);
    if k + 1 < |t| {
      assert t'[k + 1] == t[k + 1] && t'[p] == x;
      if t[k + 1].due <= x.due {
        assert forall i :: k <= i < |base| ==> base[i].due <= x.due;
      }
    }
  }

  /** Over any run each task is handed out at most once, and a cancelled one never. */
  lemma HandedOutOnce(p: Pool, i: nat, j: nat)
    requires p.Valid() && i < j < |p.handed|
    ensures p.handed[i] != p.handed[j] && p.handed[i] !in p.cancelled && p.handed[i] !in p.tasks
        && !Has(p.timers, p.handed[i])
  {
    var id := p.handed[i];
    assert p.handed == p.handed[..i] + [id] + p.handed[i + 1..];
    assert p.Copies(id) <= 1;
    CountMember(p.timers, id);
    assert p.handed[i + 1..][j - i - 1] == p.handed[j];
  }
}
