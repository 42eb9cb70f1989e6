/** The pool of capture images: pull_free_image_callback and trim_imgs of captureThread in src/video.cpp. */
module ImagePool {
  import opened Wrappers

  type Image = nat

  /** The slots of the pool, most recently handed out first; a slot without an image is not allocated. */
  type Slots = seq<Option<Image>>

  const CAPTURE_BUFFER_SIZE := 12

  /** Three seconds, in nanoseconds. */
  const TRIM_TIMEOUT := 3_000_000_000

  // ---- the slots

  predicate Unused(slot: Option<Image>, inUse: set<Image>) {
    slot.Some? && slot.value !in inUse
  }

  function Allocated(imgs: Slots): (r: nat)
    ensures r <= |imgs|
  {
    if imgs == [] then 0
    else Allocated(imgs[..|imgs| - 1]) + if imgs[|imgs| - 1].Some? then 1 else 0
  }

  function Used(imgs: Slots, inUse: set<Image>): (r: nat)
    ensures r <= Allocated(imgs)
  {
    if imgs == [] then 0
    else Used(imgs[..|imgs| - 1], inUse)
         + if imgs[|imgs| - 1].Some? && imgs[|imgs| - 1].value in inUse then 1 else 0
  }

  /** The first unused image, or the number of slots. */
  function FirstUnused(imgs: Slots, inUse: set<Image>, i: nat): (r: nat)
    requires i <= |imgs|
    ensures i <= r <= |imgs| && (r < |imgs| ==> Unused(imgs[r], inUse))
    ensures forall k :: i <= k < r ==> !Unused(imgs[k], inUse)
    decreases |imgs| - i
  {
    if i == |imgs| || Unused(imgs[i], inUse) then i else FirstUnused(imgs, inUse, i + 1)
  }

  function FirstEmpty(imgs: Slots, i: nat): (r: nat)
    requires i <= |imgs|
    ensures i <= r <= |imgs| && (r < |imgs| ==> imgs[r].None?)
    ensures forall k :: i <= k < r ==> imgs[k].Some?
    decreases |imgs| - i
  {
    if i == |imgs| || imgs[i].None? then i else FirstEmpty(imgs, i + 1)
  }

  /** Slot `i` goes to the front with `slot` in it. */
  function ToFront(imgs: Slots, i: nat, slot: Option<Image>): Slots
    requires i < |imgs|
  {
    [slot] + imgs[..i] + imgs[i + 1..]
  }

  /** The last `n` unused images are freed. */
  function Freed(imgs: Slots, inUse: set<Image>, n: nat): (r: Slots)
    ensures |r| == |imgs|
  {
    if n == 0 || imgs == [] then imgs
    else
      var last := imgs[|imgs| - 1];
      var rest := imgs[..|imgs| - 1];
      if Unused(last, inUse) then Freed(rest, inUse, n - 1) + [None] else Freed(rest, inUse, n) + [last]
  }

  /** Only unused images are freed, and none while one behind it stays. */
  lemma {:induction false} FreedIs(imgs: Slots, inUse: set<Image>, n: nat)
    ensures var r := Freed(imgs, inUse, n);
      && (forall k :: 0 <= k < |imgs| ==> r[k] == imgs[k] || (r[k].None? && Unused(imgs[k], inUse)))
      && (forall j, k :: 0 <= j < k < |imgs| && r[j] != imgs[j] ==> !Unused(r[k], inUse))
  {
    if n != 0 && imgs != [] {
      var last := imgs[|imgs| - 1];
      FreedIs(imgs[..|imgs| - 1], inUse, if Unused(last, inUse) then n - 1 else n);
    }
  }

  /** As many images are freed as asked for, if there are as many unused ones. */
  lemma {:induction false} FreedCount(imgs: Slots, inUse: set<Image>, n: nat)
    requires n <= Allocated(imgs) - Used(imgs, inUse)
    ensures var r := Freed(imgs, inUse, n);
      Allocated(r) == Allocated(imgs) - n && Used(r, inUse) == Used(imgs, inUse)
  {
    if n != 0 && imgs != [] {
      var last, rest := imgs[|imgs| - 1], imgs[..|imgs| - 1];
      var m := if Unused(last, inUse) then n - 1 else n;
      FreedCount(rest, inUse, m);
      assert Freed(imgs, inUse, n)[..|imgs| - 1] == Freed(rest, inUse, m);
    }
  }

  // ---- the usage levels

  type Stamps = seq<Option<int>>

  predicate Recent(stamps: Stamps, i: nat, now: int) {
    i < |stamps| && stamps[i].Some? && now - stamps[i].value < TRIM_TIMEOUT
  }

  /** A usage level and when it was seen. */
  datatype Sighting = Sighting(time: int, level: nat)

  /** The highest level seen in the last three seconds. */
  ghost function Peak(seen: seq<Sighting>, now: int): nat {
    if seen == [] then 0
    else
      var last := seen[|seen| - 1];
      var rest := Peak(seen[..|seen| - 1], now);
      if now - last.time < TRIM_TIMEOUT && last.level > rest then last.level else rest
  }

  lemma {:induction false} PeakAtLeast(seen: seq<Sighting>, now: int, s: Sighting)
    requires s in seen && now - s.time < TRIM_TIMEOUT
    ensures s.level <= Peak(seen, now)
  {
    if s != seen[|seen| - 1] { PeakAtLeast(seen[..|seen| - 1], now, s); }
  }

  lemma {:induction false} PeakAtMost(seen: seq<Sighting>, now: int, bound: nat)
    requires forall s <- seen :: now - s.time < TRIM_TIMEOUT ==> s.level <= bound
    ensures Peak(seen, now) <= bound
  {
    if seen != [] { PeakAtMost(seen[..|seen| - 1], now, bound); }
  }

  lemma {:induction false} PeakFalls(seen: seq<Sighting>, now: int, later: int)
    requires now <= later
    ensures Peak(seen, later) <= Peak(seen, now)
  {
    if seen != [] { PeakFalls(seen[..|seen| - 1], now, later); }
  }

  /** The time stamps remember every level seen in the last three seconds before `last`, and only levels seen. */
  ghost predicate Remembers(stamps: Stamps, seen: seq<Sighting>, last: int) {
    && (forall s <- seen :: s.time <= last)
    && (forall s <- seen :: last - s.time < TRIM_TIMEOUT ==>
          s.level < |stamps| && stamps[s.level].Some? && stamps[s.level].value >= s.time)
    && (forall i :: 0 <= i < |stamps| && stamps[i].Some? ==> Sighting(stamps[i].value, i) in seen)
  }

  function Resized(stamps: Stamps, n: nat): (r: Stamps)
    ensures |r| == n
  {
    seq(n, i requires 0 <= i < n => if i < |stamps| then stamps[i] else None)
  }

  function Noted(stamps: Stamps, level: nat, now: int): (r: Stamps)
    ensures level < |r|
  {
    (if |stamps| <= level then Resized(stamps, level + 1) else stamps)[level := Some(now)]
  }

  lemma NotedRemembers(stamps: Stamps, seen: seq<Sighting>, last: int, now: int, level: nat)
    requires Remembers(stamps, seen, last) && last <= now
    ensures Remembers(Noted(stamps, level, now), seen + [Sighting(now, level)], now)
  {
    var noted, more := Noted(stamps, level, now), seen + [Sighting(now, level)];
    forall i | 0 <= i < |noted| && noted[i].Some? ensures Sighting(noted[i].value, i) in more {
      if i != level { assert Sighting(stamps[i].value, i) in seen; }
    }
    assert more[|seen|] == Sighting(now, level);
  }

  /** The last recent level from `used` on. */
  ghost predicate IsTarget(stamps: Stamps, used: nat, now: int, target: nat) {
    && used <= target && (target == used || Recent(stamps, target, now))
    && forall i :: target < i < |stamps| ==> !Recent(stamps, i, now)
  }

  /** The target is the peak of the last three seconds. */
  lemma TargetIsPeak(stamps: Stamps, seen: seq<Sighting>, now: int, used: nat, target: nat)
    requires Remembers(stamps, seen, now) && Sighting(now, used) in seen && IsTarget(stamps, used, now, target)
    ensures target == Peak(seen, now)
  {
    forall s <- seen | now - s.time < TRIM_TIMEOUT ensures s.level <= target {
      assert Recent(stamps, s.level, now);
    }
    PeakAtMost(seen, now, target);
    PeakAtLeast(seen, now, Sighting(now, used));
    if target != used { PeakAtLeast(seen, now, Sighting(stamps[target].value, target)); }
  }

  lemma ForgettingRemembers(stamps: Stamps, seen: seq<Sighting>, now: int, used: nat, target: nat)
    requires Remembers(stamps, seen, now) && IsTarget(stamps, used, now, target)
    ensures Remembers(Resized(stamps, target + 1), seen, now)
  {
    forall s <- seen | now - s.time < TRIM_TIMEOUT ensures s.level <= target {
      assert Recent(stamps, s.level, now);
    }
  }

  // ---- the order of the slots

  ghost predicate Newer(imgs: Slots, handed: map<Image, nat>, j: nat, k: nat)
    requires j < |imgs| && k < |imgs|
  {
    imgs[j].Some? && imgs[k].Some? ==>
      imgs[j].value in handed && imgs[k].value in handed && handed[imgs[j].value] > handed[imgs[k].value]
  }

  /** Allocated slots are in most recently handed out order, so no image is in two slots. */
  ghost predicate Ordered(imgs: Slots, handed: map<Image, nat>, tick: nat) {
    && (forall k :: 0 <= k < |imgs| && imgs[k].Some? ==> imgs[k].value in handed && handed[imgs[k].value] < tick)
    && (forall j, k :: 0 <= j < k < |imgs| ==> Newer(imgs, handed, j, k))
  }

  /** Where the slot at position `m` of the reordered list was before. */
  function Origin(i: nat, m: nat): nat
    requires m > 0
  {
    if m <= i then m - 1 else m
  }

  lemma FrontOrdered(imgs: Slots, handed: map<Image, nat>, tick: nat, i: nat, img: Image)
    requires Ordered(imgs, handed, tick) && i < |imgs|
    requires imgs[i] == Some(img) || (imgs[i].None? && img !in handed)
    ensures Ordered(ToFront(imgs, i, Some(img)), handed[img := tick], tick + 1)
  {
    var r, h := ToFront(imgs, i, Some(img)), handed[img := tick];
    forall m | 0 < m < |r| ensures r[m] == imgs[Origin(i, m)] && Origin(i, m) != i {}
    forall m | 0 < m < |r| && r[m].Some? ensures r[m].value != img {
      var o := Origin(i, m);
      if imgs[i].Some? { assert Newer(imgs, handed, if o < i then o else i, if o < i then i else o); }
    }
    forall j, k | 0 <= j < k < |r| ensures Newer(r, h, j, k) {
      if j > 0 { assert Newer(imgs, handed, Origin(i, j), Origin(i, k)); }
    }
  }

  lemma FreedOrdered(imgs: Slots, handed: map<Image, nat>, tick: nat, inUse: set<Image>, n: nat)
    requires Ordered(imgs, handed, tick)
    ensures Ordered(Freed(imgs, inUse, n), handed, tick)
  {
    FreedIs(imgs, inUse, n);
    var r := Freed(imgs, inUse, n);
    forall j, k | 0 <= j < k < |r| ensures Newer(r, handed, j, k) {
      assert Newer(imgs, handed, j, k);
    }
  }

  lemma FreedFront(imgs: Slots, inUse: set<Image>)
    requires imgs != [] && imgs[0].Some? && imgs[0].value in inUse
    ensures forall n: nat :: Freed(imgs, inUse, n)[0] == imgs[0]
  {
    forall n: nat ensures Freed(imgs, inUse, n)[0] == imgs[0] {
      FreedIs(imgs, inUse, n);
    }
  }

  lemma NoneLeft(imgs: Slots, inUse: set<Image>)
    ensures FirstUnused(imgs, inUse, 0) == |imgs| <==> forall slot <- imgs :: !Unused(slot, inUse)
    ensures FirstEmpty(imgs, 0) == |imgs| <==> forall slot <- imgs :: slot.Some?
  {
    var i, j := FirstUnused(imgs, inUse, 0), FirstEmpty(imgs, 0);
    if i < |imgs| { assert imgs[i] in imgs; }
    if j < |imgs| { assert imgs[j] in imgs; }
  }

  lemma {:induction false} CountsGrow(imgs: Slots, inUse: set<Image>, n: nat)
    requires n < |imgs|
    ensures Allocated(imgs[..n + 1]) == Allocated(imgs[..n]) + (if imgs[n].Some? then 1 else 0)
    ensures Used(imgs[..n + 1], inUse) == Used(imgs[..n], inUse) +
        (if imgs[n].Some? && imgs[n].value in inUse then 1 else 0)
  {
    assert imgs[..n + 1][..n] == imgs[..n];
  }

  lemma FreedNext(imgs: Slots, inUse: set<Image>, i: nat, n: nat)
    requires 0 < i <= |imgs| && n > 0
    ensures var m := if Unused(imgs[i - 1], inUse) then n - 1 else n;
      Freed(imgs[..i], inUse, n)
      == Freed(imgs[..i - 1], inUse, m) + [if Unused(imgs[i - 1], inUse) then None else imgs[i - 1]]
  {
    assert imgs[..i][..i - 1] == imgs[..i - 1];
  }

  /** The slots from `i` on have been gone through, and `m` of `n` images are still to be freed. */
  ghost predicate Freeing(was: Slots, imgs: Slots, inUse: set<Image>, i: nat, n: nat, m: nat) {
    && i <= |imgs| == |was| && imgs[..i] == was[..i]
    && Freed(was, inUse, n) == Freed(was[..i], inUse, m) + imgs[i..]
  }

  lemma FreeingNext(was: Slots, imgs: Slots, inUse: set<Image>, i: nat, n: nat, m: nat)
    requires m > 0 && Freeing(was, imgs, inUse, i + 1, n, m)
    ensures if Unused(imgs[i], inUse) then Freeing(was, imgs[i := None], inUse, i, n, m - 1)
        else Freeing(was, imgs, inUse, i, n, m)
  {
    FreedNext(was, inUse, i + 1, m);
    assert imgs[i] == imgs[..i + 1][i] == was[..i + 1][i];
    assert imgs[..i] == imgs[..i + 1][..i];
    var next := if Unused(imgs[i], inUse) then imgs[i := None] else imgs;
    assert next[i..] == [next[i]] + imgs[i + 1..] && next[..i] == imgs[..i];
  }

  lemma FreeingEnds(was: Slots, imgs: Slots, inUse: set<Image>, i: nat, n: nat, m: nat)
    requires Freeing(was, imgs, inUse, i, n, m) && (i == 0 || m == 0)
    ensures imgs == Freed(was, inUse, n)
  {
    assert imgs == imgs[..i] + imgs[i..];
  }

  lemma {:induction false} AllocatedJoin(a: Slots, b: Slots)
    ensures Allocated(a + b) == Allocated(a) + Allocated(b)
  {
    if b == [] {
      assert a + b == a;
    } else {
      assert (a + b)[..|a + b| - 1] == a + b[..|b| - 1];
      AllocatedJoin(a, b[..|b| - 1]);
    }
  }

  /** Moving a slot to the front changes the number of images only by what is put in it. */
  lemma FrontAllocated(imgs: Slots, i: nat, slot: Option<Image>)
    requires i < |imgs|
    ensures Allocated(ToFront(imgs, i, slot))
         == Allocated(imgs) + (if slot.Some? then 1 else 0) - (if imgs[i].Some? then 1 else 0)
  {
    var front, back := imgs[..i], imgs[i + 1..];
    AllocatedJoin([slot] + front, back);
    AllocatedJoin([slot], front);
    AllocatedOne(slot);
    SplitAllocated(imgs, i);
  }

  lemma Cut(imgs: Slots, i: nat)
    requires i < |imgs|
    ensures imgs == imgs[..i] + imgs[i..] && imgs[i..] == [imgs[i]] + imgs[i + 1..]
  {
  }

  lemma SplitAllocated(imgs: Slots, i: nat)
    requires i < |imgs|
    ensures Allocated(imgs) == Allocated(imgs[..i]) + (if imgs[i].Some? then 1 else 0) + Allocated(imgs[i + 1..])
  {
    Cut(imgs, i);
    AllocatedJoin(imgs[..i], imgs[i..]);
    AllocatedJoin([imgs[i]], imgs[i + 1..]);
    AllocatedOne(imgs[i]);
  }

  lemma AllocatedOne(slot: Option<Image>)
    ensures Allocated([slot]) == if slot.Some? then 1 else 0
  {
    assert [slot][..0] == [];
  }

  lemma EmptyFrontOrdered(imgs: Slots, handed: map<Image, nat>, tick: nat, i: nat)
    requires Ordered(imgs, handed, tick) && i < |imgs| && imgs[i].None?
    ensures Ordered(ToFront(imgs, i, None), handed, tick)
  {
    var r := ToFront(imgs, i, None);
    forall m | 0 < m < |r| ensures r[m] == imgs[Origin(i, m)] {}
    forall j, k | 0 <= j < k < |r| ensures Newer(r, handed, j, k) {
      if j > 0 { assert Newer(imgs, handed, Origin(i, j), Origin(i, k)); }
    }
  }

  lemma AllKept(imgs: Slots, inUse: set<Image>, i: nat, slot: Option<Image>)
    requires i < |imgs| && (forall x <- inUse :: Some(x) in imgs && imgs[i] != Some(x))
    ensures forall x <- inUse :: Some(x) in ToFront(imgs, i, slot)
    ensures slot.Some? ==> forall x <- inUse + {slot.value} :: Some(x) in ToFront(imgs, i, slot)
  {
    forall x <- inUse ensures Some(x) in ToFront(imgs, i, slot) {
      FrontKeeps(imgs, i, slot, x);
    }
    assert ToFront(imgs, i, slot)[0] == slot;
  }

  lemma FrontKeeps(imgs: Slots, i: nat, slot: Option<Image>, x: Image)
    requires i < |imgs| && Some(x) in imgs && imgs[i] != Some(x)
    ensures Some(x) in ToFront(imgs, i, slot)
  {
    var k :| 0 <= k < |imgs| && imgs[k] == Some(x);
    var r := ToFront(imgs, i, slot);
    assert r[if k < i then k + 1 else k] == Some(x);
  }

  lemma SeenMore(seen: seq<Sighting>, now: int, last: int, level: nat)
    requires last <= now
    ensures Peak(seen + [Sighting(now, level)], now) <= if level > Peak(seen, last) then level else Peak(seen, last)
  {
    assert (seen + [Sighting(now, level)])[..|seen|] == seen;
    PeakFalls(seen, last, now);
  }

  class Pool {
    var imgs: Slots
    var stamps: Stamps
    /** The images someone else holds a reference to. */
    var inUse: set<Image>
    /** When each image was last handed out, counting hand-outs. */
    ghost var handed: map<Image, nat>
    ghost var tick: nat
    /** Every usage level seen, and when the last one was. */
    ghost var seen: seq<Sighting>
    ghost var last: int

    /** In every state: the slots are all there, in order; every image in use is in a slot; and there are at
        least as many images as were in use at any time of the last three seconds. */
    ghost predicate Valid()
      reads this
    {
      && |imgs| == CAPTURE_BUFFER_SIZE
      && Ordered(imgs, handed, tick)
      && (forall x <- inUse :: Some(x) in imgs)
      && Remembers(stamps, seen, last)
      && Peak(seen, last) <= Allocated(imgs)
    }

    constructor (now: int)
      ensures Valid() && inUse == {} && Allocated(imgs) == 0 && seen == [] && last == now
    {
      imgs, stamps, inUse := seq(CAPTURE_BUFFER_SIZE, _ => None), [], {};
      handed, tick, seen, last := map[], 0, [], now;
      new;
      assert forall n :: 0 <= n < |imgs| ==> imgs[n].None?;
      NoneAllocated(imgs);
    }

    static lemma {:induction false} NoneAllocated(imgs: Slots)
      requires forall n :: 0 <= n < |imgs| ==> imgs[n].None?
      ensures Allocated(imgs) == 0
    {
      if imgs != [] { NoneAllocated(imgs[..|imgs| - 1]); }
    }

    method Count() returns (held: nat, used: nat)
      ensures held == Allocated(imgs) && used == Used(imgs, inUse)
    {
      held, used := 0, 0;
      for i := 0 to |imgs|
        invariant held == Allocated(imgs[..i]) && used == Used(imgs[..i], inUse)
      {
        CountsGrow(imgs, inUse, i);
        if imgs[i].Some? {
          held := held + 1;
          if imgs[i].value in inUse {
            used := used + 1;
          }
        }
      }
      assert imgs[..|imgs|] == imgs;
    }

    method TrimTarget(used: nat, now: int) returns (target: nat)
      ensures IsTarget(stamps, used, now, target)
    {
      target := used;
      var i := used;
      while i < |stamps|
        invariant used <= i && used <= target && (target == used || (target < i && Recent(stamps, target, now)))
        invariant forall k :: target < k < i && k < |stamps| ==> !Recent(stamps, k, now)
      {
        if stamps[i].Some? && now - stamps[i].value < TRIM_TIMEOUT {
          target := i;
        }
        i := i + 1;
      }
    }

    /** Frees `n` images from the least recent end. */
    method Free(n: nat)
      requires n > 0
      modifies `imgs
      ensures imgs == Freed(old(imgs), inUse, n)
    {
      var toTrim := n;
      var i := |imgs|;
      ghost var was := imgs;
      assert was[..i] == was && imgs[i..] == [];
      while i > 0
        invariant toTrim > 0 && Freeing(was, imgs, inUse, i, n, toTrim)
      {
        i := i - 1;
        FreeingNext(was, imgs, inUse, i, n, toTrim);
        if imgs[i].Some? && imgs[i].value !in inUse {
          imgs := imgs[i := None];
          toTrim := toTrim - 1;
          if toTrim == 0 {
            break;
          }
        }
      }
      FreeingEnds(was, imgs, inUse, i, n, toTrim);
    }

    /** Trimming always reaches its target: as many images stay as were in use at the peak of the last three
        seconds, and the least recent unused ones go. */
    method Trim(now: int)
      requires Valid() && last <= now
      modifies `imgs, `stamps, `seen, `last
      ensures Valid() && last == now
      ensures seen == old(seen) + [Sighting(now, Used(old(imgs), inUse))]
      ensures Peak(seen, now) == Allocated(imgs) <= Allocated(old(imgs))
      ensures imgs == Freed(old(imgs), inUse, Allocated(old(imgs)) - Allocated(imgs))
    {
      var held, target := Decide(now);
      TrimDown(held, target);
    }

    /** The number of images there are, and how many may stay. */
    method Decide(now: int) returns (held: nat, target: nat)
      requires Valid() && last <= now
      modifies `stamps, `seen, `last
      ensures Remembers(stamps, seen, now) && Remembers(Resized(stamps, target + 1), seen, now) && last == now
      ensures seen == old(seen) + [Sighting(now, Used(imgs, inUse))]
      ensures held == Allocated(imgs) && Used(imgs, inUse) <= target == Peak(seen, now) <= held
    {
      var used: nat;
      held, used := Count();
      Note(used, now);
      target := TrimTarget(used, now);
      TargetIsPeak(stamps, seen, now, used, target);
      ForgettingRemembers(stamps, seen, now, used, target);
    }

    /** Remembers the time of the current usage level. */
    method Note(used: nat, now: int)
      requires Remembers(stamps, seen, last) && last <= now
      modifies `stamps, `seen, `last
      ensures Remembers(stamps, seen, last) && last == now && seen == old(seen) + [Sighting(now, used)]
      ensures Sighting(now, used) in seen && Peak(seen, now) <= if used > old(Peak(seen, last)) then used
          else old(Peak(seen, last))
    {
      NotedRemembers(stamps, seen, last, now, used);
      SeenMore(seen, now, last, used);
      stamps := Noted(stamps, used, now);
      seen := seen + [Sighting(now, used)];
      last := now;
      assert seen[|seen| - 1] == Sighting(now, used);
    }

    /** Frees what is above the target, which is no more than what is unused, and forgets the levels above it. */
    method TrimDown(held: nat, target: nat)
      requires |imgs| == CAPTURE_BUFFER_SIZE && Ordered(imgs, handed, tick) && forall x <- inUse :: Some(x) in imgs
      requires Used(imgs, inUse) <= target <= held == Allocated(imgs)
      modifies `imgs, `stamps
      ensures |imgs| == CAPTURE_BUFFER_SIZE && Ordered(imgs, handed, tick) && forall x <- inUse :: Some(x) in imgs
      ensures Allocated(imgs) == target && imgs == Freed(old(imgs), inUse, held - target)
      ensures stamps == if held > target then Resized(old(stamps), target + 1) else old(stamps)
    {
      var n := held - target;
      FreedOrdered(imgs, handed, tick, inUse, n);
      FreedCount(imgs, inUse, n);
      UsedStay(imgs, n);
      if held > target {
        Free(n);
        stamps := Resized(stamps, target + 1);
      }
    }

    /** One turn of the loop that waits for a free image. What is handed out was held by no one else, and
        afterwards the pool holds exactly as many images as were in use at the peak of the last three seconds. */
    method TryPull(extra: Option<Image>, now: int) returns (out: Option<Image>)
      requires Valid() && last <= now && (extra.Some? ==> extra.value !in handed)
      modifies this
      ensures Valid()
      ensures out.Some? ==> out.value !in old(inUse) && inUse == old(inUse) + {out.value} && imgs[0] == out
      ensures out.Some? ==> last == now && Allocated(imgs) == Peak(seen, now)
      ensures out.None? ==> inUse == old(inUse) && last == old(last) && seen == old(seen)
      ensures out.None? <==>
        && (forall slot <- old(imgs) :: !Unused(slot, old(inUse)))
        && (extra.None? || forall slot <- old(imgs) :: slot.Some?)
    {
      NoneLeft(imgs, inUse);
      out := Pick(extra);
      if out.Some? {
        FreedFront(imgs, inUse);
        Trim(now);
      }
    }

    lemma UsedStay(imgs: Slots, n: nat)
      requires forall x <- inUse :: Some(x) in imgs
      ensures forall x <- inUse :: Some(x) in Freed(imgs, inUse, n)
    {
      FreedIs(imgs, inUse, n);
      forall x <- inUse ensures Some(x) in Freed(imgs, inUse, n) {
        var k :| 0 <= k < |imgs| && imgs[k] == Some(x);
        assert Freed(imgs, inUse, n)[k] == Some(x);
      }
    }

    /** At any time there are at least as many images as at any level seen in the three seconds before. */
    lemma NeverBelow(s: Sighting, now: int)
      requires Valid() && last <= now && s in seen && now - s.time < TRIM_TIMEOUT
      ensures s.level <= Allocated(imgs)
    {
      PeakAtLeast(seen, last, s);
    }

    /** A holder lets an image go. */
    method Release(img: Image)
      requires Valid()
      modifies `inUse
      ensures Valid() && inUse == old(inUse) - {img}
    {
      inUse := inUse - {img};
    }

    /** The first image no one else holds, or else a new one in the first empty slot. `extra` is what
        allocating an image gives. */
    method Pick(extra: Option<Image>) returns (out: Option<Image>)
      requires Valid() && (extra.Some? ==> extra.value !in handed)
      modifies `imgs, `inUse, `handed, `tick
      ensures Valid() && Allocated(imgs) >= old(Allocated(imgs))
      ensures out.Some? ==> out.value !in old(inUse) && inUse == old(inUse) + {out.value} && imgs[0] == out
      ensures out.None? ==> inUse == old(inUse)
      ensures var i := FirstUnused(old(imgs), old(inUse), 0);
        i < CAPTURE_BUFFER_SIZE ==> out == old(imgs)[i] && imgs == ToFront(old(imgs), i, out)
      ensures FirstUnused(old(imgs), old(inUse), 0) == CAPTURE_BUFFER_SIZE ==>
        out == if FirstEmpty(old(imgs), 0) < CAPTURE_BUFFER_SIZE then extra else None
    {
      var i := FirstUnused(imgs, inUse, 0);
      if i < |imgs| {
        out := imgs[i];
      } else {
        i := FirstEmpty(imgs, 0);
        if i == |imgs| {
          return None;
        }
        out := extra;
      }
      AllKept(imgs, inUse, i, out);
      FrontAllocated(imgs, i, out);
      if out.Some? {
        FrontOrdered(imgs, handed, tick, i, out.value);
      } else {
        EmptyFrontOrdered(imgs, handed, tick, i);
      }
      imgs := ToFront(imgs, i, out);
      if out.Some? {
        inUse := inUse + {out.value};
        handed, tick := handed[out.value := tick], tick + 1;
      }
    }
  }
}
