/** The gamepad ids that all sessions share (src/input.cpp). */
module Gamepads {

  const MAX_GAMEPADS: nat := 16

  /** Who holds an id: a gamepad slot of a session, or a free task that has not run yet. */
  datatype Owner = Slot(session: nat, controller: nat) | Pending(task: nat)

  predicate Owns(sessions: map<nat, seq<int>>, tasks: seq<nat>, o: Owner, id: nat) {
    match o
    case Slot(s, c) => s in sessions && c < |sessions[s]| && sessions[s][c] == id
    case Pending(t) => t < |tasks| && tasks[t] == id
  }

  predicate Shape(sessions: map<nat, seq<int>>, tasks: seq<nat>) {
    && (forall s <- sessions :: |sessions[s]| == MAX_GAMEPADS)
    && (forall s, c :: s in sessions && 0 <= c < |sessions[s]| ==> -1 <= sessions[s][c] < MAX_GAMEPADS)
    && (forall t :: 0 <= t < |tasks| ==> tasks[t] < MAX_GAMEPADS)
  }

  /** No id has two owners. */
  ghost predicate Unique(sessions: map<nat, seq<int>>, tasks: seq<nat>) {
    forall o, o', id :: Owns(sessions, tasks, o, id) && Owns(sessions, tasks, o', id) ==> o == o'
  }

  ghost predicate Owned(sessions: map<nat, seq<int>>, tasks: seq<nat>, id: nat) {
    exists o :: Owns(sessions, tasks, o, id)
  }

  /** An id is marked in use exactly when it has an owner, and then it has one. */
  ghost predicate Consistent(mask: seq<bool>, sessions: map<nat, seq<int>>, tasks: seq<nat>) {
    && |mask| == MAX_GAMEPADS && Shape(sessions, tasks) && Unique(sessions, tasks)
    && forall id :: 0 <= id < MAX_GAMEPADS ==> mask[id] == Owned(sessions, tasks, id)
  }

  function WithSlot(sessions: map<nat, seq<int>>, s: nat, c: nat, id: int): map<nat, seq<int>>
    requires s in sessions && c < |sessions[s]|
  {
    sessions[s := sessions[s][c := id]]
  }

  /** A free id given to an empty slot. */
  lemma GiveId(mask: seq<bool>, sessions: map<nat, seq<int>>, tasks: seq<nat>, s: nat, c: nat, id: nat)
    requires Consistent(mask, sessions, tasks) && s in sessions && c < MAX_GAMEPADS && sessions[s][c] == -1
    requires id < MAX_GAMEPADS && !mask[id]
    ensures Consistent(mask[id := true], WithSlot(sessions, s, c, id), tasks)
  {
    var sessions' := WithSlot(sessions, s, c, id);
    forall o, k | o != Slot(s, c) ensures Owns(sessions', tasks, o, k) <==> Owns(sessions, tasks, o, k) {
    }
    assert Owns(sessions', tasks, Slot(s, c), id);
    forall k: nat | k < MAX_GAMEPADS && k != id
      ensures Owned(sessions', tasks, k) == Owned(sessions, tasks, k)
    {
      SameOwner(sessions, sessions', tasks, s, c, k);
    }
  }

  lemma SameOwner(sessions: map<nat, seq<int>>, sessions': map<nat, seq<int>>, tasks: seq<nat>, s: nat, c: nat, k: nat)
    requires forall o :: o != Slot(s, c) ==> (Owns(sessions', tasks, o, k) <==> Owns(sessions, tasks, o, k))
    requires !Owns(sessions, tasks, Slot(s, c), k) && !Owns(sessions', tasks, Slot(s, c), k)
    ensures Owned(sessions', tasks, k) == Owned(sessions, tasks, k)
  {
    if o :| Owns(sessions', tasks, o, k) { assert Owns(sessions, tasks, o, k); }
    if o :| Owns(sessions, tasks, o, k) { assert Owns(sessions', tasks, o, k); }
  }

  /** A slot emptied and its id freed at once. */
  lemma FreeSlot(mask: seq<bool>, sessions: map<nat, seq<int>>, tasks: seq<nat>, s: nat, c: nat)
    requires Consistent(mask, sessions, tasks) && s in sessions && c < MAX_GAMEPADS && sessions[s][c] >= 0
    ensures Consistent(mask[sessions[s][c] := false], WithSlot(sessions, s, c, -1), tasks)
  {
    var id: nat := sessions[s][c];
    var sessions' := WithSlot(sessions, s, c, -1);
    assert Owns(sessions, tasks, Slot(s, c), id);
    forall o, k | o != Slot(s, c) ensures Owns(sessions', tasks, o, k) <==> Owns(sessions, tasks, o, k) {
    }
    forall k: nat | k < MAX_GAMEPADS && k != id
      ensures Owned(sessions', tasks, k) == Owned(sessions, tasks, k)
    {
      SameOwner(sessions, sessions', tasks, s, c, k);
    }
  }

  /** A slot that hands its id to a queued task. */
  lemma DeferSlot(mask: seq<bool>, sessions: map<nat, seq<int>>, tasks: seq<nat>, s: nat, c: nat)
    requires Consistent(mask, sessions, tasks) && s in sessions && c < MAX_GAMEPADS && sessions[s][c] >= 0
    ensures Consistent(mask, WithSlot(sessions, s, c, -1), tasks + [sessions[s][c]])
  {
    var id: nat := sessions[s][c];
    var sessions', tasks' := WithSlot(sessions, s, c, -1), tasks + [id];
    assert Owns(sessions, tasks, Slot(s, c), id);
    assert Owns(sessions', tasks', Pending(|tasks|), id);
    forall o, k | o != Slot(s, c) && o != Pending(|tasks|)
      ensures Owns(sessions', tasks', o, k) <==> Owns(sessions, tasks, o, k)
    {
    }
    forall k: nat | k < MAX_GAMEPADS && k != id
      ensures Owned(sessions', tasks', k) == Owned(sessions, tasks, k)
    {
      if o :| Owns(sessions', tasks', o, k) { assert Owns(sessions, tasks, o, k); }
      if o :| Owns(sessions, tasks, o, k) { assert Owns(sessions', tasks', o, k); }
    }
  }

  /** The oldest task frees its id. */
  lemma RunFirst(mask: seq<bool>, sessions: map<nat, seq<int>>, tasks: seq<nat>)
    requires Consistent(mask, sessions, tasks) && tasks != []
    ensures Consistent(mask[tasks[0] := false], sessions, tasks[1..])
  {
    var id, tasks' := tasks[0], tasks[1..];
    assert Owns(sessions, tasks, Pending(0), id);
    forall o, k | Owns(sessions, tasks', o, k) ensures Owns(sessions, tasks, Earlier(o), k) {
    }
    forall k: nat | k < MAX_GAMEPADS && k != id
      ensures Owned(sessions, tasks', k) == Owned(sessions, tasks, k)
    {
      if o :| Owns(sessions, tasks', o, k) { assert Owns(sessions, tasks, Earlier(o), k); }
      if o :| Owns(sessions, tasks, o, k) {
        assert Owns(sessions, tasks', if o.Pending? then Pending(o.task - 1) else o, k);
      }
    }
    forall o ensures !Owns(sessions, tasks', o, id) {
      assert Earlier(o) != Pending(0);
    }
    forall o, o', k | Owns(sessions, tasks', o, k) && Owns(sessions, tasks', o', k) ensures o == o' {
      assert Earlier(o) == Earlier(o');
    }
  }

  /** The owner's name before the first task was removed. */
  function Earlier(o: Owner): Owner {
    if o.Pending? then Pending(o.task + 1) else o
  }

  lemma NewSession(mask: seq<bool>, sessions: map<nat, seq<int>>, tasks: seq<nat>, s: nat)
    requires Consistent(mask, sessions, tasks) && s !in sessions
    ensures Consistent(mask, sessions[s := seq(MAX_GAMEPADS, _ => -1)], tasks)
  {
    var sessions' := sessions[s := seq(MAX_GAMEPADS, _ => -1)];
    forall o, k: nat ensures Owns(sessions', tasks, o, k) <==> Owns(sessions, tasks, o, k) {
    }
    SameOwners(sessions, tasks, sessions', tasks);
  }

  lemma DropEmptySession(mask: seq<bool>, sessions: map<nat, seq<int>>, tasks: seq<nat>, s: nat)
    requires Consistent(mask, sessions, tasks) && s in sessions
    requires forall c :: 0 <= c < MAX_GAMEPADS ==> sessions[s][c] == -1
    ensures Consistent(mask, sessions - {s}, tasks)
  {
    var sessions' := sessions - {s};
    forall o, k: nat ensures Owns(sessions', tasks, o, k) <==> Owns(sessions, tasks, o, k) {
    }
    SameOwners(sessions, tasks, sessions', tasks);
  }

  lemma SameOwners(sessions: map<nat, seq<int>>, tasks: seq<nat>, sessions': map<nat, seq<int>>, tasks': seq<nat>)
    requires forall o, k: nat :: Owns(sessions', tasks', o, k) <==> Owns(sessions, tasks, o, k)
    ensures forall k: nat :: Owned(sessions', tasks', k) == Owned(sessions, tasks, k)
    ensures Unique(sessions, tasks) ==> Unique(sessions', tasks')
  {
    forall k: nat ensures Owned(sessions', tasks', k) == Owned(sessions, tasks, k) {
      if o :| Owns(sessions', tasks', o, k) { assert Owns(sessions, tasks, o, k); }
      if o :| Owns(sessions, tasks, o, k) { assert Owns(sessions', tasks', o, k); }
    }
  }

  // ---- the bitset

  /** The least free id, or -1 exactly when all are taken. */
  method AllocId(mask: array<bool>) returns (id: int)
    modifies mask
    ensures -1 <= id < mask.Length
    ensures id == -1 <==> forall k :: 0 <= k < mask.Length ==> old(mask[k])
    ensures id >= 0 ==>
      !old(mask[id]) && (forall k :: 0 <= k < id ==> old(mask[k])) && mask[..] == old(mask[..])[id := true]
    ensures id == -1 ==> mask[..] == old(mask[..])
  {
    for x := 0 to mask.Length
      invariant mask[..] == old(mask[..]) && forall k :: 0 <= k < x ==> mask[k]
    {
      if !mask[x] {
        mask[x] := true;
        return x;
      }
    }
    return -1;
  }

  method FreeId(mask: array<bool>, id: nat)
    requires id < mask.Length
    modifies mask
    ensures mask[..] == old(mask[..])[id := false]
  {
    mask[id] := false;
  }

  /** All sessions together. A slot holds an id, or -1. */
  class InputSystem {
    const mask: array<bool>
    var sessions: map<nat, seq<int>>
    // free_gamepad tasks queued by destroyed gamepads, oldest first
    var tasks: seq<nat>

    ghost predicate Valid()
      reads this, mask
    {
      Consistent(mask[..], sessions, tasks)
    }

    constructor ()
      ensures Valid() && fresh(mask) && sessions == map[] && tasks == []
    {
      mask := new bool[MAX_GAMEPADS](_ => false);
      sessions, tasks := map[], [];
    }

    method StartSession(s: nat)
      requires Valid() && s !in sessions
      modifies this
      ensures Valid() && sessions == old(sessions)[s := seq(MAX_GAMEPADS, _ => -1)] && tasks == old(tasks)
      ensures mask[..] == old(mask[..])
    {
      NewSession(mask[..], sessions, tasks, s);
      sessions := sessions[s := seq(MAX_GAMEPADS, _ => -1)];
    }

    /** A controller arrival message; `accepted` is whether the platform takes the gamepad. */
    method ControllerArrival(s: nat, controller: int, accepted: bool)
      requires Valid() && s in sessions
      modifies this, mask
      ensures Valid() && tasks == old(tasks)
      ensures var free := !(forall k :: 0 <= k < MAX_GAMEPADS ==> old(mask[k]));
              if 0 <= controller < MAX_GAMEPADS && old(sessions)[s][controller] < 0 && accepted && free
              then exists id :: 0 <= id < MAX_GAMEPADS && !old(mask[id]) && (forall k :: 0 <= k < id ==> old(mask[k]))
                     && sessions == WithSlot(old(sessions), s, controller, id) && mask[..] == old(mask[..])[id := true]
              else sessions == old(sessions) && mask[..] == old(mask[..])
    {
      if controller < 0 || controller >= |sessions[s]| { return; }
      if sessions[s][controller] >= 0 { return; }
      Allocate(s, controller, accepted);
    }

    method Allocate(s: nat, controller: nat, accepted: bool)
      requires Valid() && s in sessions && controller < MAX_GAMEPADS && sessions[s][controller] == -1
      modifies this, mask
      ensures Valid() && tasks == old(tasks)
      ensures var free := !(forall k :: 0 <= k < MAX_GAMEPADS ==> old(mask[k]));
              if accepted && free
              then exists id :: 0 <= id < MAX_GAMEPADS && !old(mask[id]) && (forall k :: 0 <= k < id ==> old(mask[k]))
                     && sessions == WithSlot(old(sessions), s, controller, id) && mask[..] == old(mask[..])[id := true]
              else sessions == old(sessions) && mask[..] == old(mask[..])
    {
      var id := AllocId(mask);
      if id < 0 { return; }
      if !accepted {
        FreeId(mask, id);
        assert mask[..] == old(mask[..]);
        return;
      }
      GiveId(old(mask[..]), sessions, tasks, s, controller, id);
      sessions := WithSlot(sessions, s, controller, id);
    }

    /** The part of a controller state message that creates and removes gamepads; `active` is the bit of
        this controller in the mask of active ones. */
    method MultiController(s: nat, controller: int, active: bool, accepted: bool)
      requires Valid() && s in sessions
      modifies this, mask
      ensures Valid() && tasks == old(tasks)
      ensures 0 <= controller < MAX_GAMEPADS && !active && old(sessions)[s][controller] >= 0 ==>
        var id := old(sessions)[s][controller];
        sessions == WithSlot(old(sessions), s, controller, -1) && mask[..] == old(mask[..])[id := false]
      ensures 0 <= controller < MAX_GAMEPADS && active && old(sessions)[s][controller] < 0 ==>
        if accepted && !(forall k :: 0 <= k < MAX_GAMEPADS ==> old(mask[k]))
        then exists id :: 0 <= id < MAX_GAMEPADS && !old(mask[id]) && (forall k :: 0 <= k < id ==> old(mask[k]))
               && sessions == WithSlot(old(sessions), s, controller, id) && mask[..] == old(mask[..])[id := true]
        else sessions == old(sessions) && mask[..] == old(mask[..])
      ensures !(0 <= controller < MAX_GAMEPADS) || active == (old(sessions)[s][controller] >= 0) ==>
        sessions == old(sessions) && mask[..] == old(mask[..])
    {
      if controller < 0 || controller >= |sessions[s]| { return; }
      if active && sessions[s][controller] < 0 {
        Allocate(s, controller, accepted);
      } else if !active && sessions[s][controller] >= 0 {
        FreeSlot(mask[..], sessions, tasks, s, controller);
        FreeId(mask, sessions[s][controller]);
        sessions := WithSlot(sessions, s, controller, -1);
      }
    }

    /** The session is destroyed: every gamepad in use queues a task that will free its id. */
    method EndSession(s: nat)
      requires Valid() && s in sessions
      modifies this
      ensures Valid() && sessions == old(sessions) - {s} && mask[..] == old(mask[..])
      ensures tasks == old(tasks) + InUse(old(sessions)[s])
    {
      for c := 0 to MAX_GAMEPADS
        invariant Valid() && sessions.Keys == old(sessions).Keys && mask[..] == old(mask[..])
        invariant forall s' <- sessions :: s' != s ==> sessions[s'] == old(sessions)[s']
        invariant forall k :: 0 <= k < MAX_GAMEPADS ==> sessions[s][k] == if k < c then -1 else old(sessions)[s][k]
        invariant tasks == old(tasks) + InUse(old(sessions)[s][..c])
      {
        var id := sessions[s][c];
        assert old(sessions)[s][..c + 1][..c] == old(sessions)[s][..c];
        if id >= 0 {
          DeferSlot(mask[..], sessions, tasks, s, c);
          tasks := tasks + [id];
          sessions := WithSlot(sessions, s, c, -1);
        }
      }
      assert old(sessions)[s][..MAX_GAMEPADS] == old(sessions)[s];
      DropEmptySession(mask[..], sessions, tasks, s);
      sessions := sessions - {s};
    }

    /** A queued task runs. */
    method RunTask()
      requires Valid() && tasks != []
      modifies this, mask
      ensures Valid() && sessions == old(sessions) && tasks == old(tasks)[1..]
      ensures mask[..] == old(mask[..])[old(tasks)[0] := false]
    {
      RunFirst(mask[..], sessions, tasks);
      FreeId(mask, tasks[0]);
      tasks := tasks[1..];
    }
  }

  /** The ids a session holds, in slot order. */
  function InUse(slots: seq<int>): seq<nat> {
    if slots == [] then []
    else InUse(slots[..|slots| - 1]) + if slots[|slots| - 1] >= 0 then [slots[|slots| - 1]] else []
  }

  /** In every reachable state two different owners hold different ids, across all sessions and tasks. */
  lemma NeverShared(sys: InputSystem, o: Owner, o': Owner, id: nat, id': nat)
    requires sys.Valid() && o != o'
    requires Owns(sys.sessions, sys.tasks, o, id) && Owns(sys.sessions, sys.tasks, o', id')
    ensures id != id' && id < MAX_GAMEPADS && sys.mask[id]
  {
    assert Owned(sys.sessions, sys.tasks, id);
    assert sys.mask[..][id] == sys.mask[id];
  }

  /** An id can be had exactly when fewer than all are owned: nothing leaks. */
  lemma FreeExactlyWhenUnowned(sys: InputSystem, id: nat)
    requires sys.Valid() && id < MAX_GAMEPADS
    ensures !sys.mask[id] <==> forall o :: !Owns(sys.sessions, sys.tasks, o, id)
  {
    assert sys.mask[..][id] == sys.mask[id];
  }
}
