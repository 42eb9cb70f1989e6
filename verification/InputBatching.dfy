/** Which input messages are merged, and what a delivery leaves in the queue (src/input.cpp). */
module InputBatching {
  import opened InputMessages
  import opened InputRefinement

  /** The later message takes over exactly when both are in the same state. */
  predicate TakesOver(dest: Packet, src: Packet) {
    match (dest, src)
    case (AbsMouse(w, h, _), AbsMouse(w', h', _)) => w == w' && h == h'
    case (Controller(n, mask, b, b2, _), Controller(n', mask', b', b2', _)) =>
      n == n' && mask == mask' && b == b' && b2 == b2'
    case (Touch(e, pointer, _), Touch(e', pointer', _)) => e in {0, 3} && e == e' && pointer == pointer'
    case (Pen(e, tool, buttons, _), Pen(e', tool', buttons', _)) =>
      e in {0, 3} && e == e' && tool == tool' && buttons == buttons'
    case (ControllerTouch(n, e, pointer, _), ControllerTouch(n', e', pointer', _)) =>
      e in {0, 3} && e == e' && n == n' && pointer == pointer'
    case (Motion(n, sensor, _), Motion(n', sensor', _)) => n == n' && sensor == sensor'
    case _ => false
  }

  /** The later message is of another controller, pointer or sensor, and says nothing that the earlier one must
      not move past: not other controllers in use, and of touches only moves and hovers. */
  predicate PassesBy(dest: Packet, src: Packet) {
    match (dest, src)
    case (Controller(n, mask, _, _, _), Controller(n', mask', _, _, _)) => n != n' && mask == mask'
    case (Touch(e, pointer, _), Touch(e', pointer', _)) => e in {0, 3} && e' in {0, 3} && pointer != pointer'
    case (ControllerTouch(n, e, pointer, _), ControllerTouch(n', e', pointer', _)) =>
      e in {0, 3} && (n != n' || (e' in {0, 3} && pointer != pointer'))
    case (Motion(n, sensor, _), Motion(n', sensor', _)) => n != n' || sensor != sensor'
    case _ => false
  }

  /** Of two messages that carry a state the later one is sent alone exactly when it takes over. */
  lemma BatchedIff(r: Reading, dest: Packet, src: Packet)
    requires !Relative(KeyOf(dest).kind)
    ensures Batch(r, dest, src) == Batched(src) <==> TakesOver(dest, src)
    ensures TakesOver(dest, src) <==> SameState(dest, src)
    ensures Batch(r, dest, src).Batched? ==> Batch(r, dest, src) == Batched(src)
  {
  }

  lemma NotBatchableIff(r: Reading, dest: Packet, src: Packet)
    ensures Batch(r, dest, src) == NotBatchable <==> PassesBy(dest, src)
  {
  }

  /** The first `k` messages queued are of others, and at `k` the queue ends or stands a message that must not be
      moved past. */
  predicate StopsAt(r: Reading, m: Packet, rest: seq<Packet>, k: nat) {
    && k <= |rest|
    && (forall i :: 0 <= i < k ==> PassesBy(m, rest[i]))
    && (k < |rest| ==> Batch(r, m, rest[k]) == TerminateBatch)
  }

  /** Nothing is left behind a delivery that could have been merged into it. */
  ghost predicate Exhausted(r: Reading, m: Packet, rest: seq<Packet>) {
    exists k: nat :: StopsAt(r, m, rest, k)
  }

  lemma {:induction false} ScanExhausts(r: Reading, m: Packet, rest: seq<Packet>)
    ensures var (m', rest') := Scan(r, m, rest);
            Exhausted(r, m', rest') && forall s :: PassesBy(m, s) ==> PassesBy(m', s)
    decreases |rest|
  {
    if rest == [] {
      assert StopsAt(r, m, [], 0);
    } else {
      var s, behind := rest[0], rest[1..];
      match Batch(r, m, s)
      case TerminateBatch => assert StopsAt(r, m, rest, 0);
      case Batched(merged) =>
        ScanExhausts(r, merged, behind);
        forall t | PassesBy(m, t) ensures PassesBy(merged, t) { MergedPassesBy(r, m, s, t); }
      case NotBatchable =>
        ScanExhausts(r, m, behind);
        NotBatchableIff(r, m, s);
        var (m', t) := Scan(r, m, behind);
        var k: nat :| StopsAt(r, m', t, k);
        OneMorePasses(r, m', s, t, k);
    }
  }

  lemma MergedPassesBy(r: Reading, m: Packet, s: Packet, t: Packet)
    requires Batch(r, m, s).Batched? && PassesBy(m, t)
    ensures PassesBy(Batch(r, m, s).merged, t)
  {
  }

  lemma OneMorePasses(r: Reading, m: Packet, s: Packet, t: seq<Packet>, k: nat)
    requires StopsAt(r, m, t, k) && PassesBy(m, s)
    ensures StopsAt(r, m, [s] + t, k + 1)
  {
  }

  /** Whatever in the queue could take over from the message sent stands behind one that must not be moved past. */
  lemma LeftBehind(r: Reading, m: Packet, rest: seq<Packet>, i: nat)
    requires Exhausted(r, m, rest) && i < |rest| && TakesOver(m, rest[i])
    ensures exists k :: 0 <= k < i && !TakesOver(m, rest[k]) && !PassesBy(m, rest[k])
  {
    var k: nat :| StopsAt(r, m, rest, k);
    NotBatchableIff(r, m, rest[k]);
    BatchedIff(r, m, rest[k]);
    BatchedIff(r, m, rest[i]);
  }
}
