/** What a receiver can tell about a batched stream of input messages: per key, only superseded states are
    missing; relative motion adds up; no message has crossed one of another type. */
module InputRefinement {
  import opened InputMessages

  // ---- messages that carry a state

  /** A message of the key being watched, or the fact that messages of another type came in between. */
  datatype Token = Msg(p: Packet) | Bar

  /** The stream as seen from key `k`: its own messages, and a bar for each message of another type.
      Messages of the same type but another key do not show. */
  function Tokens(q: seq<Packet>, k: Key): seq<Token> {
    if q == [] then [] else Tokens1(q[0], k) + Tokens(q[1..], k)
  }

  function Tokens1(p: Packet, k: Key): seq<Token> {
    if KeyOf(p) == k then [Msg(p)] else if KeyOf(p).kind == k.kind then [] else [Bar]
  }

  /** Two consecutive messages of one key in the same discrete state: the first is superseded. */
  predicate SameState(p: Packet, q: Packet) {
    KeyOf(p) == KeyOf(q) &&
    match p
    case AbsMouse(width, height, _) => width == q.width && height == q.height
    case Controller(_, mask, buttons, buttons2, _) => mask == q.mask && buttons == q.buttons && buttons2 == q.buttons2
    case Touch(event, _, _) => MoveOrHover(event) && event == q.event
    case Pen(event, tool, buttons, _) => MoveOrHover(event) && event == q.event && tool == q.tool
      && buttons == q.buttons
    case ControllerTouch(_, event, _, _) => MoveOrHover(event) && event == q.event
    case Motion(_, _, _) => true
    case _ => false
  }

  predicate Superseded(a: Token, b: Token) {
    (a.Bar? && b.Bar?) || (a.Msg? && b.Msg? && SameState(a.p, b.p))
  }

  /** `b` is `a` without some tokens, each superseded by the token right after it. */
  predicate Thins(a: seq<Token>, b: seq<Token>) {
    if a == [] then b == []
    else
      || (b != [] && a[0] == b[0] && Thins(a[1..], b[1..]))
      || (|a| >= 2 && Superseded(a[0], a[1]) && Thins(a[1..], b))
  }

  lemma {:induction false} ThinsRefl(a: seq<Token>)
    ensures Thins(a, a)
  {
    if a != [] { ThinsRefl(a[1..]); }
  }

  lemma {:induction false} ThinsHead(a: seq<Token>, b: seq<Token>)
    requires Thins(a, b) && b != []
    ensures a != [] && (a[0] == b[0] || Superseded(a[0], b[0]))
  {
    if !(a[0] == b[0] && Thins(a[1..], b[1..])) {
      ThinsHead(a[1..], b);
    }
  }

  lemma {:induction false} ThinsTrans(a: seq<Token>, b: seq<Token>, c: seq<Token>)
    requires Thins(a, b) && Thins(b, c)
    ensures Thins(a, c)
    decreases |a|
  {
    if a != [] {
      if b != [] && a[0] == b[0] && Thins(a[1..], b[1..]) {
        if c != [] && b[0] == c[0] && Thins(b[1..], c[1..]) {
          ThinsTrans(a[1..], b[1..], c[1..]);
        } else {
          ThinsTrans(a[1..], b[1..], c);
          ThinsHead(a[1..], b[1..]);
        }
      } else {
        ThinsTrans(a[1..], b, c);
      }
    }
  }

  lemma {:induction false} ThinsConcat(a: seq<Token>, a': seq<Token>, c: seq<Token>, c': seq<Token>)
    requires Thins(a, a') && Thins(c, c')
    ensures Thins(a + c, a' + c')
    decreases |a|
  {
    if a == [] {
      assert a + c == c && a' + c' == c';
    } else if a' != [] && a[0] == a'[0] && Thins(a[1..], a'[1..]) {
      ThinsConcat(a[1..], a'[1..], c, c');
      assert (a + c)[1..] == a[1..] + c && (a' + c')[1..] == a'[1..] + c';
    } else {
      ThinsConcat(a[1..], a', c, c');
      assert (a + c)[1..] == a[1..] + c;
    }
  }

  lemma {:induction false} TokensAppend(q: seq<Packet>, q': seq<Packet>, k: Key)
    ensures Tokens(q + q', k) == Tokens(q, k) + Tokens(q', k)
  {
    if q == [] {
      assert q + q' == q';
    } else {
      TokensAppend(q[1..], q', k);
      assert (q + q')[1..] == q[1..] + q';
    }
  }

  predicate Relative(kind: Kind) { kind.KRel? || kind.KScroll? || kind.KHScroll? }

  /** One pass over the queue thins every state-carrying key. */
  lemma {:induction false} ScanThins(r: Reading, m: Packet, rest: seq<Packet>, k: Key)
    requires !Relative(k.kind)
    ensures var (m', rest') := Scan(r, m, rest);
            KeyOf(m') == KeyOf(m) && Thins(Tokens1(m, k) + Tokens(rest, k), Tokens1(m', k) + Tokens(rest', k))
    decreases |rest|
  {
    var all := Tokens1(m, k) + Tokens(rest, k);
    if rest == [] {
      ThinsRefl(all);
    } else {
      var s, behind := rest[0], rest[1..];
      match Batch(r, m, s)
      case TerminateBatch => ThinsRefl(all);
      case Batched(merged) =>
        ScanThins(r, merged, behind, k);
        MergeThins(r, m, s, k);
        var (m', rest') := Scan(r, m, rest);
        MergeFirst(Tokens1(m, k), Tokens1(s, k), Tokens1(merged, k), Tokens(behind, k),
                   Tokens1(m', k) + Tokens(rest', k));
      case NotBatchable =>
        ScanThins(r, m, behind, k);
        var (m', t) := Scan(r, m, behind);
        SkipThins(r, m, m', s, Tokens(behind, k), Tokens(t, k), k);
        assert ([s] + t)[1..] == t;
    }
  }

  lemma MergeFirst(a: seq<Token>, b: seq<Token>, merged: seq<Token>, behind: seq<Token>, result: seq<Token>)
    requires Thins(a + b, merged) && Thins(merged + behind, result)
    ensures Thins(a + (b + behind), result)
  {
    RegroupTokens(a, b, behind);
    MergeFront(a + b, behind, merged, a + (b + behind), result);
  }

  lemma RegroupTokens(a: seq<Token>, b: seq<Token>, c: seq<Token>)
    ensures a + (b + c) == a + b + c
  {
  }

  lemma MergeFront(front: seq<Token>, behind: seq<Token>, merged: seq<Token>, all: seq<Token>, result: seq<Token>)
    requires all == front + behind && Thins(front, merged) && Thins(merged + behind, result)
    ensures Thins(all, result)
  {
    ThinsRefl(behind);
    ThinsConcat(front, merged, behind, behind);
    ThinsTrans(all, merged + behind, result);
  }

  lemma MergeThins(r: Reading, m: Packet, s: Packet, k: Key)
    requires !Relative(k.kind) && Batch(r, m, s).Batched?
    ensures var merged := Batch(r, m, s).merged;
            KeyOf(merged) == KeyOf(m) && Thins(Tokens1(m, k) + Tokens1(s, k), Tokens1(merged, k))
  {
    var merged := Batch(r, m, s).merged;
    assert KeyOf(merged) == KeyOf(m) == KeyOf(s);
    if KeyOf(m) == k {
      assert SameState(m, s) && merged == s;
      assert [Msg(m), Msg(s)][1..] == [Msg(s)];
      ThinsRefl([Msg(s)]);
      assert Tokens1(m, k) + Tokens1(s, k) == [Msg(m), Msg(s)];
    } else if KeyOf(m).kind != k.kind {
      assert [Bar, Bar][1..] == [Bar];
      ThinsRefl([Bar]);
      assert Tokens1(m, k) + Tokens1(s, k) == [Bar, Bar];
    }
  }

  /** A message that stays behind keeps its place: either it does not show next to `m`, or `m` does not. */
  lemma SkipThins(r: Reading, m: Packet, m': Packet, s: Packet, x: seq<Token>, y: seq<Token>, k: Key)
    requires Batch(r, m, s).NotBatchable? && KeyOf(m') == KeyOf(m)
    requires Thins(Tokens1(m, k) + x, Tokens1(m', k) + y)
    ensures Thins(Tokens1(m, k) + (Tokens1(s, k) + x), Tokens1(m', k) + (Tokens1(s, k) + y))
  {
    assert KeyOf(m).kind == KeyOf(s).kind && KeyOf(m) != KeyOf(s);
    var a, a', b := Tokens1(m, k), Tokens1(m', k), Tokens1(s, k);
    ThinsRefl(b);
    if b == [] {
      assert b + x == x && b + y == y;
    } else if KeyOf(s) == k {
      assert a == [] && a' == [];
      assert a + x == x && a' + y == y;
      ThinsConcat(b, b, x, y);
      assert a + (b + x) == b + x && a' + (b + y) == b + y;
    } else {
      assert a == b == a' == [Bar];
      ThinsConcat(b, b, a + x, a' + y);
    }
  }

  // ---- consequences of thinning

  /** The last token of every maximal run of one state. */
  function Finals(a: seq<Token>): seq<Token> {
    if |a| < 2 then a
    else if Superseded(a[0], a[1]) then Finals(a[1..])
    else [a[0]] + Finals(a[1..])
  }

  /** Thinning keeps, in order, the last message before every change of state, before every message of
      another type, and at the end; in particular every button, mask, tool and event change survives. */
  lemma {:induction false} ThinsKeepsFinals(a: seq<Token>, b: seq<Token>)
    requires Thins(a, b)
    ensures Finals(a) == Finals(b)
    decreases |a|
  {
    if a != [] {
      if b != [] && a[0] == b[0] && Thins(a[1..], b[1..]) {
        ThinsKeepsFinals(a[1..], b[1..]);
        if |b| >= 2 { ThinsHead(a[1..], b[1..]); }
        if |a| >= 2 { ThinsNonempty(a[1..], b[1..]); }
      } else {
        ThinsKeepsFinals(a[1..], b);
      }
    }
  }

  lemma {:induction false} ThinsNonempty(a: seq<Token>, b: seq<Token>)
    requires Thins(a, b) && a != []
    ensures b != [] && b[|b| - 1] == a[|a| - 1]
    decreases |a|
  {
    if b != [] && a[0] == b[0] && Thins(a[1..], b[1..]) {
      if |a| >= 2 { ThinsNonempty(a[1..], b[1..]); }
    } else {
      ThinsNonempty(a[1..], b);
    }
  }

  predicate Subsequence(b: seq<Token>, a: seq<Token>) {
    if b == [] then true
    else if a == [] then false
    else (a[0] == b[0] && Subsequence(b[1..], a[1..])) || Subsequence(b, a[1..])
  }

  lemma {:induction false} ThinsIsSubsequence(a: seq<Token>, b: seq<Token>)
    requires Thins(a, b)
    ensures Subsequence(b, a)
    decreases |a|
  {
    if a != [] {
      if b != [] && a[0] == b[0] && Thins(a[1..], b[1..]) {
        ThinsIsSubsequence(a[1..], b[1..]);
      } else {
        ThinsIsSubsequence(a[1..], b);
      }
    }
  }

  // ---- relative motion

  /** Motion of one relative type, or a bar for messages of other types. Sums are exact or modulo 65536. */
  datatype Step = Move(x: int, y: int) | Stop

  function Norm(x: int, exact: bool): int {
    if exact then x else x % 65536
  }

  function Step1(p: Packet, kind: Kind, exact: bool): Step {
    if KeyOf(p).kind != kind then Stop
    else
      match p
      case RelMouse(dx, dy) => Move(Norm(dx, exact), Norm(dy, exact))
      case Scroll(amount, _) => Move(Norm(amount, exact), 0)
      case HScroll(amount) => Move(Norm(amount, exact), 0)
      case _ => Stop
  }

  predicate Merges(a: Step, b: Step) { a.Stop? == b.Stop? }

  function Merge(a: Step, b: Step, exact: bool): Step
    requires Merges(a, b)
  {
    if a.Stop? then Stop else Move(Norm(a.x + b.x, exact), Norm(a.y + b.y, exact))
  }

  /** The total motion of every maximal stretch without messages of another type. */
  function Totals(q: seq<Packet>, kind: Kind, exact: bool): seq<Step> {
    if q == [] then [] else Prepend(Step1(q[0], kind, exact), Totals(q[1..], kind, exact), exact)
  }

  function Prepend(s: Step, t: seq<Step>, exact: bool): seq<Step> {
    if t != [] && Merges(s, t[0]) then [Merge(s, t[0], exact)] + t[1..] else [s] + t
  }

  lemma NormAdds(x: int, y: int, z: int, exact: bool)
    ensures Norm(Norm(x + y, exact) + z, exact) == Norm(x + Norm(y + z, exact), exact)
  {
  }

  /** Adding two steps one by one is adding their sum. */
  lemma PrependTwice(a: Step, b: Step, t: seq<Step>, exact: bool)
    requires Merges(a, b)
    ensures Prepend(a, Prepend(b, t, exact), exact) == Prepend(Merge(a, b, exact), t, exact)
  {
    if t != [] && Merges(b, t[0]) && a.Move? {
      NormAdds(a.x, b.x, t[0].x, exact);
      NormAdds(a.y, b.y, t[0].y, exact);
    }
  }

  /** What is left of `m` and the messages behind it after one pass: the message sent first. */
  function Pass(r: Reading, m: Packet, rest: seq<Packet>): seq<Packet> {
    [Scan(r, m, rest).0] + Scan(r, m, rest).1
  }

  lemma PassMerges(r: Reading, m: Packet, rest: seq<Packet>)
    requires rest != [] && Batch(r, m, rest[0]).Batched?
    ensures Pass(r, m, rest) == Pass(r, Batch(r, m, rest[0]).merged, rest[1..])
  {
  }

  lemma TotalsFirst(p: Packet, q: seq<Packet>, kind: Kind, exact: bool)
    ensures Totals([p] + q, kind, exact) == Prepend(Step1(p, kind, exact), Totals(q, kind, exact), exact)
  {
    assert ([p] + q)[1..] == q;
  }

  /** One pass over the queue keeps the totals: modulo 65536 under both readings of the overflow test,
      exactly under the commented one, and exactly for the types of messages other than the first. */
  lemma {:induction false} ScanKeepsTotals(r: Reading, m: Packet, rest: seq<Packet>, kind: Kind, exact: bool)
    requires Relative(kind) && (exact && KeyOf(m).kind == kind ==> r.AsCommented?)
    ensures KeyOf(Scan(r, m, rest).0) == KeyOf(m)
    ensures Totals(Pass(r, m, rest), kind, exact) == Totals([m] + rest, kind, exact)
    decreases |rest|
  {
    if rest != [] && Batch(r, m, rest[0]).Batched? {
      var merged := Batch(r, m, rest[0]).merged;
      MergeKeepsTotal(r, m, rest[0], kind, exact);
      ScanKeepsTotals(r, merged, rest[1..], kind, exact);
      PassMerges(r, m, rest);
      TotalsFirst(m, rest, kind, exact);
      TotalsFirst(merged, rest[1..], kind, exact);
      PrependTwice(Step1(m, kind, exact), Step1(rest[0], kind, exact), Totals(rest[1..], kind, exact), exact);
    } else if rest != [] && Batch(r, m, rest[0]).NotBatchable? {
      ScanKeepsTotals(r, m, rest[1..], kind, exact);
      SkipKeepsTotals(m, Scan(r, m, rest[1..]).0, rest[0], rest[1..], Scan(r, m, rest[1..]).1, kind, exact);
      assert [rest[0]] + rest[1..] == rest;
    }
  }

  /** A message that stays behind carries a state, like the one it is compared with. */
  lemma SkipKeepsTotals(m: Packet, m': Packet, s: Packet, behind: seq<Packet>, t: seq<Packet>, kind: Kind, exact: bool)
    requires Step1(m, kind, exact) == Step1(m', kind, exact) == Step1(s, kind, exact) == Stop
    requires Totals([m'] + t, kind, exact) == Totals([m] + behind, kind, exact)
    ensures Totals([m'] + ([s] + t), kind, exact) == Totals([m] + ([s] + behind), kind, exact)
  {
    TotalsFirst(m, behind, kind, exact);
    TotalsFirst(m', t, kind, exact);
    TotalsFirst(s, behind, kind, exact);
    TotalsFirst(s, t, kind, exact);
    TotalsFirst(m, [s] + behind, kind, exact);
    TotalsFirst(m', [s] + t, kind, exact);
  }

  lemma MergeKeepsTotal(r: Reading, m: Packet, s: Packet, kind: Kind, exact: bool)
    requires Batch(r, m, s).Batched? && (exact && KeyOf(m).kind == kind ==> r.AsCommented?)
    ensures Merges(Step1(m, kind, exact), Step1(s, kind, exact))
    ensures KeyOf(Batch(r, m, s).merged) == KeyOf(m)
    ensures Step1(Batch(r, m, s).merged, kind, exact) == Merge(Step1(m, kind, exact), Step1(s, kind, exact), exact)
  {
    MergedKey(r, m, s);
    if KeyOf(m).kind == kind {
      match m
      case RelMouse(dx, dy) => MergedSum(r, dx, s.dx, exact); MergedSum(r, dy, s.dy, exact);
      case Scroll(amount, _) => MergedSum(r, amount, s.amount, exact);
      case HScroll(amount) => MergedSum(r, amount, s.amount, exact);
      case _ =>
    }
  }

  lemma MergedKey(r: Reading, m: Packet, s: Packet)
    requires Batch(r, m, s).Batched?
    ensures KeyOf(s).kind == KeyOf(m).kind && KeyOf(Batch(r, m, s).merged) == KeyOf(m)
  {
  }

  lemma MergedSum(r: Reading, x: Short, y: Short, exact: bool)
    requires SumBatches(r, x, y) && (exact ==> r.AsCommented?)
    ensures Norm(WrapSum(x, y), exact) == Norm(Norm(x, exact) + Norm(y, exact), exact)
  {
    WrapIsModulo(x, y);
  }

  lemma WrapIsModulo(x: Short, y: Short)
    ensures WrapSum(x, y) as int % 65536 == (x as int % 65536 + y as int % 65536) % 65536
  {
  }

  lemma TotalsHead(d: seq<Packet>, q: seq<Packet>, kind: Kind, exact: bool)
    requires d != []
    ensures Totals(d + q, kind, exact) == Prepend(Step1(d[0], kind, exact), Totals(d[1..] + q, kind, exact), exact)
  {
    assert (d + q)[1..] == d[1..] + q;
  }

  lemma {:induction false} TotalsPrefix(d: seq<Packet>, q: seq<Packet>, q': seq<Packet>, kind: Kind, exact: bool)
    requires Totals(q, kind, exact) == Totals(q', kind, exact)
    ensures Totals(d + q, kind, exact) == Totals(d + q', kind, exact)
    decreases |d|
  {
    if d == [] {
      assert d + q == q && d + q' == q';
    } else {
      TotalsPrefix(d[1..], q, q', kind, exact);
      TotalsHead(d, q, kind, exact);
      TotalsHead(d, q', kind, exact);
    }
  }

  /** The totals of a stream extended by one message follow from its totals. */
  lemma {:induction false} TotalsAppend(q: seq<Packet>, p: Packet, kind: Kind, exact: bool)
    ensures Totals(q + [p], kind, exact) == Append(Totals(q, kind, exact), Step1(p, kind, exact), exact)
    ensures q != [] ==> Totals(q, kind, exact) != []
    decreases |q|
  {
    if q == [] {
      assert q + [p] == [p] && [p][1..] == [];
    } else {
      TotalsAppend(q[1..], p, kind, exact);
      assert (q + [p])[1..] == q[1..] + [p];
      PrependAppend(Step1(q[0], kind, exact), Totals(q[1..], kind, exact), Step1(p, kind, exact), exact);
    }
  }

  function Append(t: seq<Step>, s: Step, exact: bool): seq<Step> {
    if t != [] && Merges(t[|t| - 1], s) then t[..|t| - 1] + [Merge(t[|t| - 1], s, exact)] else t + [s]
  }

  lemma PrependAppend(a: Step, t: seq<Step>, s: Step, exact: bool)
    ensures Prepend(a, Append(t, s, exact), exact) == Append(Prepend(a, t, exact), s, exact)
  {
    if t == [] {
      assert Prepend(a, [s], exact) == Append([a], s, exact) && [a] + [] == [a];
    } else if |t| == 1 {
      assert t == [t[0]];
      OnePrependAppend(a, t[0], s, exact);
    } else {
      LongPrependAppend(a, t, s, exact);
    }
  }

  lemma MergeAssociates(a: Step, b: Step, c: Step, exact: bool)
    requires Merges(a, b) && Merges(b, c)
    ensures Merge(Merge(a, b, exact), c, exact) == Merge(a, Merge(b, c, exact), exact)
  {
    if a.Move? {
      NormAdds(a.x, b.x, c.x, exact);
      NormAdds(a.y, b.y, c.y, exact);
    }
  }

  lemma OnePrependAppend(a: Step, b: Step, s: Step, exact: bool)
    ensures Prepend(a, Append([b], s, exact), exact) == Append(Prepend(a, [b], exact), s, exact)
  {
    AppendOne(b, s, exact);
    PrependOne(a, b, exact);
    if Merges(a, b) && Merges(b, s) {
      MergeAssociates(a, b, s, exact);
      PrependOne(a, Merge(b, s, exact), exact);
      AppendOne(Merge(a, b, exact), s, exact);
    } else if Merges(a, b) {
      PrependTwo(a, b, s, exact);
      AppendOne(Merge(a, b, exact), s, exact);
    } else if Merges(b, s) {
      PrependOne(a, Merge(b, s, exact), exact);
      AppendTwo(a, b, s, exact);
    } else {
      PrependTwo(a, b, s, exact);
      AppendTwo(a, b, s, exact);
    }
  }

  lemma AppendOne(b: Step, s: Step, exact: bool)
    ensures Append([b], s, exact) == if Merges(b, s) then [Merge(b, s, exact)] else [b, s]
  {
  }

  lemma PrependOne(a: Step, b: Step, exact: bool)
    ensures Prepend(a, [b], exact) == if Merges(a, b) then [Merge(a, b, exact)] else [a, b]
  {
  }

  lemma PrependTwo(a: Step, b: Step, s: Step, exact: bool)
    ensures Prepend(a, [b, s], exact) == if Merges(a, b) then [Merge(a, b, exact), s] else [a, b, s]
  {
  }

  lemma AppendTwo(a: Step, b: Step, s: Step, exact: bool)
    ensures Append([a, b], s, exact) == if Merges(b, s) then [a, Merge(b, s, exact)] else [a, b, s]
  {
  }

  lemma LongPrependAppend(a: Step, t: seq<Step>, s: Step, exact: bool)
    requires |t| >= 2
    ensures Prepend(a, Append(t, s, exact), exact) == Append(Prepend(a, t, exact), s, exact)
  {
    var last := |t| - 1;
    var head, middle, tail := [t[0]], t[1..last], [t[last]];
    var front, back := Prepend(a, head, exact), Append(tail, s, exact);
    assert t == head + (middle + tail) && t == head + middle + tail;
    AppendLast(head + middle, t[last], s, exact);
    Associate(head, middle, back);
    PrependFirst(a, t[0], middle + back, exact);
    PrependFirst(a, t[0], middle + tail, exact);
    Associate(front, middle, tail);
    AppendLast(front + middle, t[last], s, exact);
    Associate(front, middle, back);
  }

  lemma Associate(x: seq<Step>, y: seq<Step>, z: seq<Step>)
    ensures x + y + z == x + (y + z)
  {
  }

  lemma AppendLast(x: seq<Step>, e: Step, s: Step, exact: bool)
    ensures Append(x + [e], s, exact) == x + Append([e], s, exact)
  {
  }

  lemma PrependFirst(a: Step, e: Step, y: seq<Step>, exact: bool)
    ensures Prepend(a, [e] + y, exact) == Prepend(a, [e], exact) + y
  {
    var whole := [e] + y;
    assert whole[0] == e && whole[1..] == y && [e][1..] == [];
    if Merges(a, e) {
      assert Prepend(a, [e], exact) == [Merge(a, e, exact)];
    } else {
      RegroupSteps([a], [e], y);
    }
  }

  lemma RegroupSteps(a: seq<Step>, b: seq<Step>, c: seq<Step>)
    ensures a + (b + c) == a + b + c
  {
  }

  // ---- the whole relation

  ghost predicate Unobservable(r: Reading, pushed: seq<Packet>, received: seq<Packet>) {
    && (forall k: Key :: !Relative(k.kind) ==> Thins(Tokens(pushed, k), Tokens(received, k)))
    && (forall kind: Kind :: Relative(kind) ==> Totals(pushed, kind, false) == Totals(received, kind, false))
    && (r.AsCommented? ==> forall kind: Kind :: Relative(kind) ==>
        Totals(pushed, kind, true) == Totals(received, kind, true))
  }

  lemma UnobservableRefl(r: Reading, q: seq<Packet>)
    ensures Unobservable(r, q, q)
  {
    forall k: Key | !Relative(k.kind) ensures Thins(Tokens(q, k), Tokens(q, k)) {
      ThinsRefl(Tokens(q, k));
    }
  }

  lemma UnobservablePush(r: Reading, pushed: seq<Packet>, received: seq<Packet>, p: Packet)
    requires Unobservable(r, pushed, received)
    ensures Unobservable(r, pushed + [p], received + [p])
  {
    forall k: Key | !Relative(k.kind) ensures Thins(Tokens(pushed + [p], k), Tokens(received + [p], k)) {
      TokensAppend(pushed, [p], k);
      TokensAppend(received, [p], k);
      ThinsRefl(Tokens([p], k));
      ThinsConcat(Tokens(pushed, k), Tokens(received, k), Tokens([p], k), Tokens([p], k));
    }
    forall kind: Kind, m: bool | Totals(pushed, kind, m) == Totals(received, kind, m)
      ensures Totals(pushed + [p], kind, m) == Totals(received + [p], kind, m)
    {
      TotalsAppend(pushed, p, kind, m);
      TotalsAppend(received, p, kind, m);
    }
  }

  lemma UnobservableNext(r: Reading, pushed: seq<Packet>, delivered: seq<Packet>, queue: seq<Packet>, sent: Packet,
                         queue': seq<Packet>, all: seq<Packet>)
    requires queue != [] && Unobservable(r, pushed, delivered + queue)
    requires (sent, queue') == Scan(r, queue[0], queue[1..]) && all == delivered + [sent] + queue'
    ensures Unobservable(r, pushed, all)
  {
    JoinSent(delivered, sent, queue', Pass(r, queue[0], queue[1..]), all);
    DeliveredUnobservable(r, pushed, delivered, queue, all);
  }

  lemma JoinSent(delivered: seq<Packet>, sent: Packet, queue: seq<Packet>, pass: seq<Packet>, all: seq<Packet>)
    requires pass == [sent] + queue && all == delivered + [sent] + queue
    ensures all == delivered + pass
  {
  }

  lemma DeliveredUnobservable(r: Reading, pushed: seq<Packet>, delivered: seq<Packet>, queue: seq<Packet>,
                              all: seq<Packet>)
    requires queue != [] && Unobservable(r, pushed, delivered + queue) && all == Delivered(r, delivered, queue)
    ensures Unobservable(r, pushed, all)
  {
    forall k: Key | !Relative(k.kind)
      ensures Thins(Tokens(pushed, k), Tokens(all, k))
    {
      NextThins(r, delivered, queue, k);
      ThinsTrans(Tokens(pushed, k), Tokens(delivered + queue, k), Tokens(all, k));
    }
    forall kind: Kind, exact: bool | Relative(kind) && (exact ==> r.AsCommented?)
      ensures Totals(delivered + queue, kind, exact) == Totals(all, kind, exact)
    {
      NextKeepsTotals(r, delivered, queue, kind, exact);
    }
  }

  /** What has been sent and what is queued after one more task. */
  function Delivered(r: Reading, delivered: seq<Packet>, queue: seq<Packet>): seq<Packet>
    requires queue != []
  {
    delivered + Pass(r, queue[0], queue[1..])
  }

  lemma NextThins(r: Reading, delivered: seq<Packet>, queue: seq<Packet>, k: Key)
    requires queue != [] && !Relative(k.kind)
    ensures Thins(Tokens(delivered + queue, k), Tokens(Delivered(r, delivered, queue), k))
  {
    var queue' := Pass(r, queue[0], queue[1..]);
    assert queue'[1..] == Scan(r, queue[0], queue[1..]).1;
    ScanThins(r, queue[0], queue[1..], k);
    TokensAppend(delivered, queue, k);
    TokensAppend(delivered, queue', k);
    ThinsBehind(Tokens(delivered, k), Tokens(queue, k), Tokens(queue', k), Tokens(delivered + queue, k),
                Tokens(delivered + queue', k));
  }

  lemma ThinsBehind(front: seq<Token>, a: seq<Token>, b: seq<Token>, before: seq<Token>, after: seq<Token>)
    requires before == front + a && after == front + b && Thins(a, b)
    ensures Thins(before, after)
  {
    ThinsRefl(front);
    ThinsConcat(front, front, a, b);
  }

  lemma NextKeepsTotals(r: Reading, delivered: seq<Packet>, queue: seq<Packet>, kind: Kind, exact: bool)
    requires queue != [] && Relative(kind) && (exact ==> r.AsCommented?)
    ensures Totals(delivered + queue, kind, exact) == Totals(Delivered(r, delivered, queue), kind, exact)
  {
    assert queue == [queue[0]] + queue[1..];
    ScanKeepsTotals(r, queue[0], queue[1..], kind, exact);
    TotalsPrefix(delivered, queue, Pass(r, queue[0], queue[1..]), kind, exact);
  }

  // ---- the reading of the overflow test

  datatype Axis = X | Y

  function Along(p: Packet, a: Axis): Short {
    match p
    case RelMouse(dx, dy) => if a.X? then dx else dy
    case Scroll(amount, _) => if a.X? then amount else 0
    case HScroll(amount) => if a.X? then amount else 0
    case _ => 0
  }

  /** Scrolling has one axis, the mouse two. */
  predicate HasAxis(p: Packet, a: Axis) { a.X? || p.RelMouse? }

  /** Two messages of one relative type: as commented they merge when no axis overflows and every merge adds
      up; as written they merge when every axis overflows, and every merge changes every axis. */
  lemma MergesOnEveryAxis(dest: Packet, src: Packet)
    requires KeyOf(dest) == KeyOf(src) && Relative(KeyOf(dest).kind)
    ensures Batch(AsWritten, dest, src).Batched?
       <==> forall a: Axis | HasAxis(dest, a) :: Overflows(Along(dest, a), Along(src, a))
    ensures Batch(AsCommented, dest, src).Batched?
       <==> forall a: Axis | HasAxis(dest, a) :: !Overflows(Along(dest, a), Along(src, a))
    ensures forall r: Reading, a: Axis | Batch(r, dest, src).Batched? && HasAxis(dest, a) ::
      Along(Batch(r, dest, src).merged, a) as int == Along(dest, a) as int + Along(src, a) as int <==> r.AsCommented?
  {
    assert HasAxis(dest, X) && (dest.RelMouse? ==> HasAxis(dest, Y));
  }

  /** As written, two movements to the right become one to the left. */
  lemma WrittenTestReversesMotion()
    ensures Batch(AsWritten, RelMouse(20000, 20000), RelMouse(20000, 20000)) == Batched(RelMouse(-25536, -25536))
    ensures Batch(AsWritten, RelMouse(1, 1), RelMouse(1, 1)) == TerminateBatch
    ensures Batch(AsCommented, RelMouse(1, 1), RelMouse(1, 1)) == Batched(RelMouse(2, 2))
  {
  }

  /** Over several merges the wraps can cancel. */
  lemma WrapsCanCancel()
    ensures Scan(AsWritten, HScroll(20000), [HScroll(20000), HScroll(-20000)]) == (HScroll(20000), [])
    ensures Wraps(AsWritten, HScroll(20000), [HScroll(20000), HScroll(-20000)], X) == 0
  {
    var rest := [HScroll(20000), HScroll(-20000)];
    assert rest[1..] == [HScroll(-20000)] && rest[1..][1..] == [];
    assert Batch(AsWritten, HScroll(20000), rest[0]) == Batched(HScroll(-25536));
    assert Batch(AsWritten, HScroll(-25536), rest[1..][0]) == Batched(HScroll(20000));
  }

  // ---- exact motion over a pass

  /** How many times 65536 the 16-bit sum is above the sum. */
  function WrapBy(x: Short, y: Short): int {
    if x as int + y as int < -32768 then 1 else if x as int + y as int >= 32768 then -1 else 0
  }

  /** On an axis, the wraps upwards less the wraps downwards of one pass. */
  function Wraps(r: Reading, m: Packet, rest: seq<Packet>, a: Axis): int
    decreases |rest|
  {
    if rest == [] then 0
    else
      match Batch(r, m, rest[0])
      case TerminateBatch => 0
      case NotBatchable => Wraps(r, m, rest[1..], a)
      case Batched(merged) => WrapBy(Along(m, a), Along(rest[0], a)) + Wraps(r, merged, rest[1..], a)
  }

  lemma WrapsMore(r: Reading, m: Packet, rest: seq<Packet>, a: Axis)
    requires rest != [] && Batch(r, m, rest[0]).Batched?
    ensures Wraps(r, m, rest, a)
         == WrapBy(Along(m, a), Along(rest[0], a)) + Wraps(r, Batch(r, m, rest[0]).merged, rest[1..], a)
  {
  }

  lemma MergeWraps(r: Reading, m: Packet, s: Packet, a: Axis)
    requires Relative(KeyOf(m).kind) && Batch(r, m, s).Batched?
    ensures KeyOf(s) == KeyOf(m) == KeyOf(Batch(r, m, s).merged)
    ensures Along(Batch(r, m, s).merged, a) as int
         == Along(m, a) as int + Along(s, a) as int + 65536 * WrapBy(Along(m, a), Along(s, a))
  {
  }

  lemma NothingMerged(r: Reading, m: Packet, rest: seq<Packet>)
    requires Relative(KeyOf(m).kind) && (rest == [] || !Batch(r, m, rest[0]).Batched?)
    ensures Scan(r, m, rest) == (m, rest) && forall a: Axis :: Wraps(r, m, rest, a) == 0
  {
  }

  function Shifted(t: seq<Step>, x: int, y: int): seq<Step> {
    if t != [] && t[0].Move? then [Move(t[0].x + 65536 * x, t[0].y + 65536 * y)] + t[1..] else t
  }

  lemma StepIs(p: Packet)
    requires Relative(KeyOf(p).kind)
    ensures Step1(p, KeyOf(p).kind, true) == Move(Along(p, X), Along(p, Y))
  {
  }

  /** One pass shifts the first total, of the type of the first message, by its wraps. */
  lemma {:induction false} ScanShifts(r: Reading, m: Packet, rest: seq<Packet>, kind: Kind, x: int, y: int)
    requires Relative(kind) && KeyOf(m).kind == kind && x == Wraps(r, m, rest, X) && y == Wraps(r, m, rest, Y)
    ensures Totals(Pass(r, m, rest), kind, true) == Shifted(Totals([m] + rest, kind, true), x, y)
    decreases |rest|
  {
    if rest != [] && Batch(r, m, rest[0]).Batched? {
      MergeShifts(r, m, rest, kind, x, y);
    } else {
      NothingMerged(r, m, rest);
      NoShift(Totals([m] + rest, kind, true));
    }
  }

  lemma {:induction false} MergeShifts(r: Reading, m: Packet, rest: seq<Packet>, kind: Kind, x: int, y: int)
    requires Relative(kind) && KeyOf(m).kind == kind && x == Wraps(r, m, rest, X) && y == Wraps(r, m, rest, Y)
    requires rest != [] && Batch(r, m, rest[0]).Batched?
    ensures Totals(Pass(r, m, rest), kind, true) == Shifted(Totals([m] + rest, kind, true), x, y)
    decreases |rest|, 0
  {
    var s, merged, behind := rest[0], Batch(r, m, rest[0]).merged, rest[1..];
    var x', y' := Wraps(r, merged, behind, X), Wraps(r, merged, behind, Y);
    MergeWraps(r, m, s, X);
    MergeWraps(r, m, s, Y);
    WrapsMore(r, m, rest, X);
    WrapsMore(r, m, rest, Y);
    ScanShifts(r, merged, behind, kind, x', y');
    PassMerges(r, m, rest);
    MergedFirst(m, merged, rest, kind, x - x', y - y', x', y', x, y);
  }

  lemma NoShift(t: seq<Step>)
    ensures Shifted(t, 0, 0) == t
  {
  }

  lemma MergedFirst(m: Packet, merged: Packet, rest: seq<Packet>, kind: Kind, dx: int, dy: int, x': int, y': int,
                    x: int, y: int)
    requires rest != [] && Relative(kind) && KeyOf(m).kind == KeyOf(rest[0]).kind == KeyOf(merged).kind == kind
    requires Along(merged, X) as int == Along(m, X) as int + Along(rest[0], X) as int + 65536 * dx
    requires Along(merged, Y) as int == Along(m, Y) as int + Along(rest[0], Y) as int + 65536 * dy
    requires x == dx + x' && y == dy + y'
    ensures Shifted(Totals([merged] + rest[1..], kind, true), x', y') == Shifted(Totals([m] + rest, kind, true), x, y)
  {
    StepIs(m);
    StepIs(rest[0]);
    StepIs(merged);
    TotalsFirst(m, rest, kind, true);
    TotalsFirst(merged, rest[1..], kind, true);
    StepMerged(Step1(m, kind, true), Step1(rest[0], kind, true), Step1(merged, kind, true),
               Totals(rest[1..], kind, true), dx, dy, x', y', x, y);
  }

  lemma StepMerged(a: Step, b: Step, c: Step, t: seq<Step>, dx: int, dy: int, x': int, y': int, x: int, y: int)
    requires a.Move? && b.Move? && c == Move(a.x + b.x + 65536 * dx, a.y + b.y + 65536 * dy) && x == dx + x'
        && y == dy + y'
    ensures Shifted(Prepend(c, t, true), x', y') == Shifted(Prepend(a, Prepend(b, t, true), true), x, y)
  {
    PrependTwice(a, b, t, true);
    FirstShifted(Merge(a, b, true), c, t, dx, dy, x', y', x, y);
  }

  lemma FirstShifted(sum: Step, c: Step, t: seq<Step>, dx: int, dy: int, x': int, y': int, x: int, y: int)
    requires sum.Move? && c == Move(sum.x + 65536 * dx, sum.y + 65536 * dy) && x == dx + x' && y == dy + y'
    ensures Shifted(Prepend(c, t, true), x', y') == Shifted(Prepend(sum, t, true), x, y)
  {
    var p, p' := Prepend(sum, t, true), Prepend(c, t, true);
    assert p'[1..] == p[1..] && p'[0] == Move(p[0].x + 65536 * dx, p[0].y + 65536 * dy);
  }

  /** Two lists of totals that can only differ in the motion of one stretch. */
  ghost predicate SameBut(t: seq<Step>, t': seq<Step>, j: nat) {
    && j < |t| == |t'| && t[j].Move? && t'[j].Move?
    && forall i :: 0 <= i < |t| && i != j ==> t[i] == t'[i]
  }

  /** Motion added in front does not hide the difference. */
  lemma PrependKeepsDifference(s: Step, t: seq<Step>, t': seq<Step>, j: nat) returns (j': nat)
    requires SameBut(t, t', j)
    ensures SameBut(Prepend(s, t, true), Prepend(s, t', true), j')
    ensures Prepend(s, t, true) == Prepend(s, t', true) <==> t == t'
  {
    j' := if Merges(s, t[0]) then j else j + 1;
    var p, p' := Prepend(s, t, true), Prepend(s, t', true);
    assert t == t' <==> t[j] == t'[j];
    assert p[j'] == p'[j'] <==> t[j] == t'[j];
    assert SameBut(p, p', j');
  }

  lemma {:induction false} TotalsDifference(d: seq<Packet>, q: seq<Packet>, q': seq<Packet>, kind: Kind, j: nat)
      returns (j': nat)
    requires SameBut(Totals(q, kind, true), Totals(q', kind, true), j)
    ensures SameBut(Totals(d + q, kind, true), Totals(d + q', kind, true), j')
    ensures Totals(d + q, kind, true) == Totals(d + q', kind, true) <==> Totals(q, kind, true) == Totals(q', kind, true)
    decreases |d|
  {
    if d == [] {
      assert d + q == q && d + q' == q';
      j' := j;
    } else {
      j' := TotalsDifference(d[1..], q, q', kind, j);
      TotalsHead(d, q, kind, true);
      TotalsHead(d, q', kind, true);
      j' := PrependKeepsDifference(Step1(d[0], kind, true), Totals(d[1..] + q, kind, true),
                                   Totals(d[1..] + q', kind, true), j');
    }
  }

  /** Delivering the next message keeps the exact motion of a relative type exactly when the message is of
      another type, or its merges wrap up as often as down on each axis. */
  lemma ExactIffWrapsCancel(r: Reading, delivered: seq<Packet>, queue: seq<Packet>, kind: Kind)
    requires queue != [] && Relative(kind)
    ensures Totals(delivered + queue, kind, true) == Totals(Delivered(r, delivered, queue), kind, true)
       <==> (KeyOf(queue[0]).kind != kind || (Wraps(r, queue[0], queue[1..], X) == 0
                                              && Wraps(r, queue[0], queue[1..], Y) == 0))
  {
    var m, rest := queue[0], queue[1..];
    assert queue == [m] + rest;
    if KeyOf(m).kind != kind {
      ScanKeepsTotals(r, m, rest, kind, true);
      TotalsPrefix(delivered, queue, Pass(r, m, rest), kind, true);
    } else {
      SameTypeExactIff(r, delivered, m, rest, queue, kind, Wraps(r, m, rest, X), Wraps(r, m, rest, Y));
    }
  }

  lemma SameTypeExactIff(r: Reading, delivered: seq<Packet>, m: Packet, rest: seq<Packet>, queue: seq<Packet>,
                         kind: Kind, x: int, y: int)
    requires queue == [m] + rest && Relative(kind) && KeyOf(m).kind == kind
    requires x == Wraps(r, m, rest, X) && y == Wraps(r, m, rest, Y)
    ensures Totals(delivered + queue, kind, true) == Totals(delivered + Pass(r, m, rest), kind, true) <==> x == y == 0
  {
    ScanShifts(r, m, rest, kind, x, y);
    FirstMoves(m, rest, kind);
    ShiftedDiffers(Totals(queue, kind, true), x, y);
    var _ := TotalsDifference(delivered, queue, Pass(r, m, rest), kind, 0);
  }

  lemma FirstMoves(m: Packet, rest: seq<Packet>, kind: Kind)
    requires Relative(kind) && KeyOf(m).kind == kind
    ensures var t := Totals([m] + rest, kind, true); t != [] && t[0].Move?
  {
    TotalsFirst(m, rest, kind, true);
    StepIs(m);
  }

  lemma ShiftedDiffers(t: seq<Step>, x: int, y: int)
    requires t != [] && t[0].Move?
    ensures SameBut(t, Shifted(t, x, y), 0) && (t == Shifted(t, x, y) <==> x == y == 0)
  {
    assert t == Shifted(t, x, y) ==> t[0] == Shifted(t, x, y)[0];
  }

  /** How many of the messages behind `m` are merged into it, when it is of a relative type. */
  function Taken(r: Reading, m: Packet, rest: seq<Packet>): (n: nat)
    ensures n <= |rest|
    decreases |rest|
  {
    if rest == [] || !Batch(r, m, rest[0]).Batched? then 0 else 1 + Taken(r, Batch(r, m, rest[0]).merged, rest[1..])
  }

  function MotionOf(q: seq<Packet>, a: Axis): int {
    if q == [] then 0 else Along(q[0], a) as int + MotionOf(q[1..], a)
  }

  lemma MotionFirst(p: Packet, q: seq<Packet>, a: Axis)
    ensures MotionOf([p] + q, a) == Along(p, a) as int + MotionOf(q, a)
  {
    assert ([p] + q)[1..] == q;
  }

  /** The wraps of an axis cancel exactly when what is merged adds up to 16 bits on it. */
  lemma WrapsCancelIff(r: Reading, m: Packet, rest: seq<Packet>, a: Axis)
    requires Relative(KeyOf(m).kind)
    ensures Wraps(r, m, rest, a) == 0 <==> -32768 <= MotionOf([m] + rest[..Taken(r, m, rest)], a) < 32768
  {
    WrapsAre(r, m, rest, a);
  }

  lemma {:induction false} WrapsAre(r: Reading, m: Packet, rest: seq<Packet>, a: Axis)
    requires Relative(KeyOf(m).kind)
    ensures Along(Scan(r, m, rest).0, a) as int
         == MotionOf([m] + rest[..Taken(r, m, rest)], a) + 65536 * Wraps(r, m, rest, a)
    decreases |rest|
  {
    var n := Taken(r, m, rest);
    if n == 0 {
      NothingMerged(r, m, rest);
      MotionFirst(m, rest[..0], a);
    } else {
      var merged, behind := Batch(r, m, rest[0]).merged, rest[1..];
      MergeWraps(r, m, rest[0], a);
      WrapsMore(r, m, rest, a);
      WrapsAre(r, merged, behind, a);
      MotionMerged(m, merged, rest, n, a, WrapBy(Along(m, a), Along(rest[0], a)));
    }
  }

  lemma MotionMerged(m: Packet, merged: Packet, rest: seq<Packet>, n: nat, a: Axis, wrap: int)
    requires 0 < n <= |rest| && Along(merged, a) as int == Along(m, a) as int + Along(rest[0], a) as int + 65536 * wrap
    ensures MotionOf([merged] + rest[1..][..n - 1], a) == MotionOf([m] + rest[..n], a) + 65536 * wrap
  {
    MotionFirst(merged, rest[1..][..n - 1], a);
    MotionFirst(m, rest[..n], a);
    MotionFirst(rest[0], rest[1..][..n - 1], a);
    assert rest[..n] == [rest[0]] + rest[1..][..n - 1];
  }
}
