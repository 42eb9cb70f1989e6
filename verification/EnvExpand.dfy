/** Expansion of environment variables in the commands of an app: find_match and parse_env_val of
    src/process.cpp. */
module EnvExpand {
  import opened Wrappers

  /** The text, or the exception for a bracket that never closes. */
  datatype Expansion = Expanded(text: string) | MissingBracket

  type Env = map<string, string>

  /** An unset variable reads as the empty string. */
  function Lookup(env: Env, name: string): string {
    if name in env then env[name] else ""
  }

  function Turn(c: char): int {
    if c == '(' then 1 else if c == ')' then -1 else 0
  }

  /** Where the bracket count, `stack` before position `i`, comes back to zero. */
  function Closing(s: string, i: nat, stack: int): (r: Option<nat>)
    ensures r.Some? ==> i <= r.value < |s|
    decreases |s| - i
  {
    if i >= |s| then None
    else if stack + Turn(s[i]) == 0 then Some(i)
    else Closing(s, i + 1, stack + Turn(s[i]))
  }

  /** Brackets opened and not closed in s[from..upto]. */
  function Level(s: string, from: nat, upto: nat): int
    requires from <= upto <= |s|
    decreases upto - from
  {
    if from == upto then 0 else Level(s, from, upto - 1) + Turn(s[upto - 1])
  }

  lemma {:induction false} ClosingAhead(s: string, b: nat, i: nat, j: nat)
    requires b <= i <= j < |s| && Level(s, b, j + 1) == 0
    requires forall k :: i < k <= j ==> Level(s, b, k) != 0
    ensures Closing(s, i, Level(s, b, i)) == Some(j)
    decreases j - i
  {
    assert Level(s, b, i + 1) == Level(s, b, i) + Turn(s[i]);
    if i < j { ClosingAhead(s, b, i + 1, j); }
  }

  lemma {:induction false} ClosingLevel(s: string, b: nat, i: nat)
    requires b <= i <= |s|
    ensures match Closing(s, i, Level(s, b, i))
            case Some(j) => i <= j < |s| && Level(s, b, j + 1) == 0 && (forall k :: i < k <= j ==> Level(s, b, k) != 0)
            case None => forall k :: i < k <= |s| ==> Level(s, b, k) != 0
    decreases |s| - i
  {
    if i < |s| {
      assert Level(s, b, i + 1) == Level(s, b, i) + Turn(s[i]);
      if Level(s, b, i + 1) != 0 { ClosingLevel(s, b, i + 1); }
    }
  }

  /** The match of a bracket is the first place where as many brackets closed as opened. */
  lemma ClosingIs(s: string, b: nat, j: nat)
    requires b < |s|
    ensures Closing(s, b, 0) == Some(j) <==>
      b <= j < |s| && Level(s, b, j + 1) == 0 && forall k :: b < k <= j ==> Level(s, b, k) != 0
  {
    ClosingLevel(s, b, b);
    if b <= j < |s| && Level(s, b, j + 1) == 0 && forall k :: b < k <= j ==> Level(s, b, k) != 0 {
      ClosingAhead(s, b, b, j);
    }
  }

  /** The loop of find_match, which starts on an opening bracket. The character it reads at the end of the
      text has no effect. */
  method FindMatch(s: string, begin: nat) returns (r: Option<nat>)
    requires begin < |s|
    ensures r == Closing(s, begin, 0)
  {
    var stack, i: nat := 0, begin;
    while i < |s|
      invariant begin <= i <= |s| && (i > begin ==> stack != 0)
      invariant Closing(s, i, stack) == Closing(s, begin, 0)
    {
      match s[i] {
        case '(' => stack := stack + 1;
        case ')' => stack := stack - 1;
        case _ =>
      }
      if stack == 0 {
        return Some(i);
      }
      i := i + 1;
    }
    return None;
  }

  // ---- the meaning

  function Then(before: string, e: Expansion): Expansion {
    if e.Expanded? then Expanded(before + e.text) else e
  }

  /** What the text from position `i` on stands for. */
  function Expand(env: Env, s: string, i: nat): Expansion
    decreases |s| - i
  {
    if i >= |s| then Expanded("")
    else if s[i] != '$' then Then([s[i]], Expand(env, s, i + 1))
    else if i + 1 == |s| then Expanded("$")
    else if s[i + 1] == '$' then Then("$", Expand(env, s, i + 2))
    else if s[i + 1] != '(' then Then("$", Expand(env, s, i + 1))
    else
      match Closing(s, i + 1, 0)
      case None => MissingBracket
      case Some(j) => Then(Lookup(env, s[i + 2..j]), Expand(env, s, j + 1))
  }

  // ---- the loop

  function Find(s: string, from: nat, c: char): (r: nat)
    requires from <= |s|
    ensures from <= r <= |s| && (r < |s| ==> s[r] == c)
    decreases |s| - from
  {
    if from == |s| || s[from] == c then from else Find(s, from + 1, c)
  }

  lemma ThenThen(a: string, b: string, e: Expansion)
    ensures Then(a, Then(b, e)) == Then(a + b, e)
  {
    if e.Expanded? { assert a + (b + e.text) == a + b + e.text; }
  }

  /** Up to the next dollar the text stands for itself. */
  lemma {:induction false} LiteralRun(env: Env, s: string, from: nat)
    requires from <= |s|
    ensures var d := Find(s, from, '$'); Expand(env, s, from) == Then(s[from..d], Expand(env, s, d))
    decreases |s| - from
  {
    var d := Find(s, from, '$');
    if d > from {
      LiteralRun(env, s, from + 1);
      ThenThen([s[from]], s[from + 1..d], Expand(env, s, d));
      assert [s[from]] + s[from + 1..d] == s[from..d];
    } else {
      ThenNothing(Expand(env, s, d));
    }
  }

  lemma ThenNothing(e: Expansion)
    ensures Then("", e) == e
  {
  }

  /** What is written, then what is pending up to the dollar, then what the rest stands for. */
  ghost predicate Progress(env: Env, s: string, written: string, pos: nat, dollar: nat, goal: Expansion) {
    && pos <= dollar <= |s|
    && goal == Then(written + s[pos..dollar], Expand(env, s, dollar))
  }

  /** The text from `next` on is pending from `pos` on. */
  lemma Onward(env: Env, s: string, written: string, pos: nat, next: nat, goal: Expansion)
    requires pos <= next <= |s| && goal == Then(written + s[pos..next], Expand(env, s, next))
    ensures Progress(env, s, written, pos, Find(s, next, '$'), goal)
  {
    var d := Find(s, next, '$');
    LiteralRun(env, s, next);
    ThenThen(written + s[pos..next], s[next..d], Expand(env, s, d));
    assert written + s[pos..next] + s[next..d] == written + s[pos..d];
  }

  lemma AfterDollar(env: Env, s: string, written: string, pos: nat, dollar: nat, next: nat, goal: Expansion)
    requires Progress(env, s, written, pos, dollar, goal) && next == dollar + 1 < |s| && s[dollar] == '$'
        && s[next] == '$'
    ensures Progress(env, s, written + s[pos..next], next + 1, Find(s, next + 1, '$'), goal)
  {
    ThenThen(written + s[pos..dollar], "$", Expand(env, s, dollar + 2));
    assert written + s[pos..dollar] + "$" == written + s[pos..next] + s[next + 1..next + 1];
    Onward(env, s, written + s[pos..next], next + 1, next + 1, goal);
  }

  lemma LooseStep(env: Env, s: string, written: string, pos: nat, dollar: nat, goal: Expansion)
    requires Progress(env, s, written, pos, dollar, goal) && dollar < |s| && s[dollar] == '$'
    requires dollar + 1 < |s| ==> s[dollar + 1] != '$' && s[dollar + 1] != '('
    ensures Progress(env, s, written, pos, dollar + 1, goal)
  {
    ThenThen(written + s[pos..dollar], "$", Expand(env, s, dollar + 1));
    assert written + s[pos..dollar] + "$" == written + s[pos..dollar + 1];
  }

  lemma AfterLoose(env: Env, s: string, written: string, pos: nat, dollar: nat, next: nat, goal: Expansion)
    requires Progress(env, s, written, pos, dollar, goal) && next == dollar + 1 < |s| && s[dollar] == '$'
    requires s[next] != '$' && s[next] != '('
    ensures Progress(env, s, written, pos, Find(s, next, '$'), goal)
  {
    LooseStep(env, s, written, pos, dollar, goal);
    Onward(env, s, written, pos, next, goal);
  }

  lemma AfterVariable(env: Env, s: string, written: string, pos: nat, dollar: nat, next: nat, goal: Expansion, end: nat)
    requires Progress(env, s, written, pos, dollar, goal) && next == dollar + 1 < |s| && s[dollar] == '$'
        && s[next] == '('
    requires Closing(s, next, 0) == Some(end)
    ensures next < end < |s|
    ensures Progress(env, s, written + s[pos..dollar] + Lookup(env, s[next + 1..end]), end + 1, Find(s, end, '$'), goal)
  {
    var after := written + s[pos..dollar] + Lookup(env, s[next + 1..end]);
    ThenThen(written + s[pos..dollar], Lookup(env, s[next + 1..end]), Expand(env, s, end + 1));
    ClosesOnBracket(s, dollar + 2, 1);
    assert after + s[end + 1..end + 1] == after;
    Onward(env, s, after, end + 1, end + 1, goal);
    FindSkips(s, end, '$');
  }

  /** A bracket that never closes spoils the whole text. */
  lemma Spoiled(env: Env, s: string, written: string, pos: nat, dollar: nat, goal: Expansion)
    requires Progress(env, s, written, pos, dollar, goal) && dollar + 1 < |s| && s[dollar] == '$'
        && s[dollar + 1] == '('
    requires Closing(s, dollar + 1, 0) == None
    ensures goal == MissingBracket
  {
  }

  lemma Finished(env: Env, s: string, written: string, pos: nat, goal: Expansion)
    requires Progress(env, s, written, pos, |s|, goal)
    ensures goal == Expanded(written + s[pos..|s|])
  {
  }

  lemma Started(env: Env, s: string)
    ensures Progress(env, s, "", 0, Find(s, 0, '$'), Expand(env, s, 0))
  {
    ThenNothing(Expand(env, s, 0));
    assert "" + s[0..0] == "";
    Onward(env, s, "", 0, 0, Expand(env, s, 0));
  }

  lemma FindSkips(s: string, i: nat, c: char)
    requires i < |s| && s[i] != c
    ensures Find(s, i, c) == Find(s, i + 1, c)
  {
  }

  lemma {:induction false} ClosesOnBracket(s: string, i: nat, stack: int)
    requires stack > 0 && Closing(s, i, stack).Some?
    ensures s[Closing(s, i, stack).value] == ')'
    decreases |s| - i
  {
    if stack + Turn(s[i]) != 0 { ClosesOnBracket(s, i + 1, stack + Turn(s[i])); }
  }

  /** The case of a "$(": the value goes behind what was pending. */
  method ExpandVariable(env: Env, raw: string, ss: string, pos: nat, dollar: nat, next: nat, ghost goal: Expansion)
    returns (ok: bool, ss': string, pos': nat, next': nat)
    requires Progress(env, raw, ss, pos, dollar, goal) && next == dollar + 1 < |raw| && raw[dollar] == '$'
        && raw[next] == '('
    ensures if ok then next < next' < |raw| && Progress(env, raw, ss', pos', Find(raw, next', '$'), goal)
        else goal == MissingBracket
  {
    ok, ss', pos', next' := false, ss, pos, next;
    var end := FindMatch(raw, next);
    if end.None? {
      Spoiled(env, raw, ss, pos, dollar, goal);
      return;
    }
    AfterVariable(env, raw, ss, pos, dollar, next, goal, end.value);
    ok, ss' := true, ss + raw[pos..dollar] + Lookup(env, raw[next + 1..end.value]);
    pos', next' := end.value + 1, end.value;
  }

  /** parse_env_val: two cursors over the text, writing the pending part when something is replaced. */
  method ParseEnvVal(env: Env, raw: string) returns (r: Expansion)
    ensures r == Expand(env, raw, 0)
  {
    var ss := "";
    var pos: nat := 0;
    var dollar := Find(raw, pos, '$');
    ghost var goal := Expand(env, raw, 0);
    Started(env, raw);
    while dollar != |raw|
      invariant Progress(env, raw, ss, pos, dollar, goal)
      invariant dollar < |raw| ==> raw[dollar] == '$'
      decreases |raw| - dollar
    {
      var next := dollar + 1;
      if next != |raw| {
        match raw[next] {
          case '(' =>
            var ok;
            ok, ss, pos, next := ExpandVariable(env, raw, ss, pos, dollar, next, goal);
            if !ok {
              return MissingBracket;
            }
          case '$' =>
            AfterDollar(env, raw, ss, pos, dollar, next, goal);
            ss := ss + raw[pos..next];
            pos := next + 1;
            next := next + 1;
          case _ =>
            AfterLoose(env, raw, ss, pos, dollar, next, goal);
        }
        dollar := Find(raw, next, '$');
      } else {
        LooseStep(env, raw, ss, pos, dollar, goal);
        dollar := next;
      }
    }
    Finished(env, raw, ss, pos, goal);
    return Expanded(ss + raw[pos..dollar]);
  }

  // ---- what a text says, independently of how it is scanned

  /** A character, an escaped dollar, a variable, or a dollar that means nothing special. */
  datatype Token = Literal(c: char) | Dollar | Variable(name: string) | Loose

  function Unparse(toks: seq<Token>): string {
    if toks == [] then "" else Spelled(toks[0]) + Unparse(toks[1..])
  }

  function Spelled(t: Token): string {
    match t
    case Literal(c) => [c]
    case Dollar => "$$"
    case Variable(name) => "$(" + name + ")"
    case Loose => "$"
  }

  function Eval(env: Env, toks: seq<Token>): string {
    if toks == [] then "" else Value(env, toks[0]) + Eval(env, toks[1..])
  }

  function Value(env: Env, t: Token): string {
    match t
    case Literal(c) => [c]
    case Dollar => "$"
    case Variable(name) => if name in env then env[name] else ""
    case Loose => "$"
  }

  /** Every bracket in the name closes in the name. */
  ghost predicate Balanced(name: string) {
    Level(name, 0, |name|) == 0 && forall k :: 0 <= k <= |name| ==> Level(name, 0, k) >= 0
  }

  /** Nothing is left, or a "$(" whose bracket never closes. */
  predicate Ends(tail: string) {
    tail == "" || (|tail| >= 2 && tail[0] == '$' && tail[1] == '(' && Closing(tail, 1, 0) == None)
  }

  ghost predicate Proper(t: Token) {
    (t.Literal? ==> t.c != '$') && (t.Variable? ==> Balanced(t.name))
  }

  /** The tokens can be told apart where they are written one after the other. */
  ghost predicate Readable(toks: seq<Token>, tail: string) {
    toks != [] ==>
      && Readable(toks[1..], tail)
      && Proper(toks[0])
      && (toks[0].Loose? ==> if |toks| == 1 then tail == "" else toks[1].Literal? && toks[1].c != '(')
  }

  /** What a readable text stands for. */
  function Meaning(env: Env, toks: seq<Token>, tail: string): Expansion {
    if tail == "" then Expanded(Eval(env, toks)) else MissingBracket
  }

  lemma {:induction false} ClosingShift(s: string, d: nat, tail: string, j: nat, stack: int)
    requires d <= |s| && s[d..] == tail && j <= |tail|
    ensures Closing(s, d + j, stack) == (match Closing(tail, j, stack) case None => None case Some(k) => Some(d + k))
    decreases |tail| - j
  {
    if j < |tail| {
      assert s[d..][j] == s[d + j];
      ClosingShift(s, d, tail, j + 1, stack + Turn(tail[j]));
    }
  }

  lemma {:induction false} LevelInside(s: string, b: nat, name: string, k: nat)
    requires b + 1 + |name| <= |s| && s[b] == '(' && s[b + 1..b + 1 + |name|] == name && k <= |name|
    ensures Level(s, b, b + 1 + k) == 1 + Level(name, 0, k)
    decreases k
  {
    if k == 0 {
      assert Level(s, b, b + 1) == Level(s, b, b) + Turn(s[b]);
    } else {
      LevelInside(s, b, name, k - 1);
      assert s[b + 1..b + 1 + |name|][k - 1] == s[b + k];
    }
  }

  /** A balanced name ends at its own bracket. */
  lemma NameCloses(s: string, b: nat, name: string)
    requires Balanced(name) && b + 1 + |name| < |s| && s[b] == '(' && s[b + 1..b + 1 + |name|] == name
    requires s[b + 1 + |name|] == ')'
    ensures Closing(s, b, 0) == Some(b + 1 + |name|)
  {
    var j := b + 1 + |name|;
    forall k | b < k <= j ensures Level(s, b, k) != 0 {
      LevelInside(s, b, name, k - b - 1);
    }
    LevelInside(s, b, name, |name|);
    assert Level(s, b, j + 1) == Level(s, b, j) + Turn(s[j]);
    ClosingIs(s, b, j);
  }

  lemma {:induction false} StaysOpen(s: string, b: nat, k: nat)
    requires b < k <= |s| && s[b] == '(' && forall m :: b < m <= k ==> Level(s, b, m) != 0
    ensures Level(s, b, k) > 0
    decreases k
  {
    if k == b + 1 {
      assert Level(s, b, k) == Level(s, b, b) + Turn(s[b]);
    } else {
      StaysOpen(s, b, k - 1);
    }
  }

  /** What stands between a bracket and its match is balanced. */
  lemma NameBalanced(s: string, b: nat, j: nat)
    requires b < |s| && s[b] == '(' && Closing(s, b, 0) == Some(j)
    ensures b < j < |s| && s[j] == ')' && Balanced(s[b + 1..j])
  {
    ClosingIs(s, b, j);
    ClosesOnBracket(s, b + 1, 1);
    var name := s[b + 1..j];
    forall k | 0 <= k <= |name| ensures Level(name, 0, k) >= 0 {
      LevelInside(s, b, name, k);
      StaysOpen(s, b, b + 1 + k);
    }
    LevelInside(s, b, name, |name|);
    assert Level(s, b, j + 1) == Level(s, b, j) + Turn(s[j]);
  }

  lemma SplitAt(s: string, i: nat, text: string, word: string, rest: string, tail: string)
    requires i <= |s| && s[i..] == text + tail && text == word + rest
    ensures i + |word| <= |s| && s[i..i + |word|] == word && s[i + |word|..] == rest + tail
  {
    var all := s[i..];
    assert all == word + (rest + tail);
    assert all[..|word|] == word && all[|word|..] == rest + tail;
    assert s[i..i + |word|] == all[..|word|];
  }

  lemma CharOf(s: string, i: nat, word: string, k: nat)
    requires i + |word| <= |s| && s[i..i + |word|] == word && k < |word|
    ensures s[i + k] == word[k]
  {
    assert s[i..i + |word|][k] == s[i + k];
  }

  lemma SliceOf(s: string, i: nat, j: nat, k: nat, m: nat)
    requires i <= j <= |s| && k <= m <= j - i
    ensures s[i + k..i + m] == s[i..j][k..m]
  {
    var whole, part := s[i..j], s[i + k..i + m];
    assert |part| == m - k && forall x :: 0 <= x < m - k ==> part[x] == s[i + (k + x)] == whole[k + x];
  }

  lemma Front(s: string, i: nat, toks: seq<Token>, tail: string)
    requires i <= |s| && toks != [] && s[i..] == Unparse(toks) + tail
    ensures var word := Spelled(toks[0]);
      && i + |word| <= |s| && s[i..i + |word|] == word && s[i + |word|..] == Unparse(toks[1..]) + tail
  {
    UnparseStep(toks);
    SplitAt(s, i, Unparse(toks), Spelled(toks[0]), Unparse(toks[1..]), tail);
  }

  lemma UnparseStep(toks: seq<Token>)
    requires toks != []
    ensures Unparse(toks) == Spelled(toks[0]) + Unparse(toks[1..])
  {
  }

  /** A dollar that is not special is followed by an ordinary character, or by nothing. */
  lemma LooseFront(s: string, i: nat, toks: seq<Token>, tail: string)
    requires i <= |s| && toks != [] && toks[0].Loose? && Readable(toks, tail) && s[i..] == Unparse(toks) + tail
    ensures i < |s| && s[i] == '$' && (i + 1 < |s| ==> s[i + 1] != '$' && s[i + 1] != '(')
  {
    Front(s, i, toks, tail);
    CharOf(s, i, "$", 0);
    if |toks| > 1 {
      Front(s, i + 1, toks[1..], tail);
      assert toks[1..][0] == toks[1] && Readable(toks[1..], tail);
      CharOf(s, i + 1, Spelled(toks[1]), 0);
    } else {
      assert toks[1..] == [] && s[i + 1..] == "";
    }
  }

  lemma OpenEnd(env: Env, s: string, i: nat)
    requires i <= |s| && Ends(s[i..])
    ensures Expand(env, s, i) == Meaning(env, [], s[i..])
  {
    var tail := s[i..];
    if tail != "" {
      assert s[i] == tail[0] && s[i + 1] == tail[1];
      ClosingShift(s, i, tail, 1, 0);
    }
  }

  /** Expansion gives every readable text its meaning. */
  lemma {:induction false} ExpandsTo(env: Env, s: string, i: nat, toks: seq<Token>, tail: string)
    requires i <= |s| && s[i..] == Unparse(toks) + tail && Readable(toks, tail) && Ends(tail)
    ensures Expand(env, s, i) == Meaning(env, toks, tail)
    decreases |toks|
  {
    if toks == [] {
      assert s[i..] == tail;
      OpenEnd(env, s, i);
    } else {
      var next := FrontReady(s, i, toks, tail);
      ExpandsTo(env, s, next, toks[1..], tail);
      TokenRead(env, s, i, toks[0], next, Meaning(env, toks[1..], tail));
      MeaningStep(env, toks, tail);
    }
  }

  lemma FrontReady(s: string, i: nat, toks: seq<Token>, tail: string) returns (next: nat)
    requires i <= |s| && toks != [] && s[i..] == Unparse(toks) + tail && Readable(toks, tail)
    ensures next == i + |Spelled(toks[0])| <= |s| && s[i..next] == Spelled(toks[0])
        && s[next..] == Unparse(toks[1..]) + tail
    ensures Proper(toks[0]) && Readable(toks[1..], tail)
    ensures toks[0].Loose? ==> i < |s| && s[i] == '$' && (i + 1 < |s| ==> s[i + 1] != '$' && s[i + 1] != '(')
  {
    Front(s, i, toks, tail);
    next := i + |Spelled(toks[0])|;
    if toks[0].Loose? { LooseFront(s, i, toks, tail); }
  }

  /** A token is expanded at its beginning. */
  lemma TokenRead(env: Env, s: string, i: nat, t: Token, next: nat, rest: Expansion)
    requires Proper(t) && next == i + |Spelled(t)| <= |s| && s[i..next] == Spelled(t)
    requires t.Loose? ==> i < |s| && s[i] == '$' && (i + 1 < |s| ==> s[i + 1] != '$' && s[i + 1] != '(')
    requires rest == Expand(env, s, next)
    ensures Expand(env, s, i) == Then(Value(env, t), rest)
  {
    match t
    case Literal(c) => LiteralRead(env, s, i, c);
    case Dollar => DollarRead(env, s, i);
    case Variable(name) => VariableRead(env, s, i, name);
    case Loose => LooseRead(env, s, i);
  }

  lemma LiteralRead(env: Env, s: string, i: nat, c: char)
    requires i + 1 <= |s| && s[i..i + 1] == [c] && c != '$'
    ensures Expand(env, s, i) == Then([c], Expand(env, s, i + 1))
  {
    CharOf(s, i, [c], 0);
  }

  lemma DollarRead(env: Env, s: string, i: nat)
    requires i + 2 <= |s| && s[i..i + 2] == "$$"
    ensures Expand(env, s, i) == Then("$", Expand(env, s, i + 2))
  {
    CharOf(s, i, "$$", 0);
    CharOf(s, i, "$$", 1);
  }

  lemma LooseRead(env: Env, s: string, i: nat)
    requires i < |s| && s[i] == '$' && (i + 1 < |s| ==> s[i + 1] != '$' && s[i + 1] != '(')
    ensures Expand(env, s, i) == Then("$", Expand(env, s, i + 1))
  {
  }

  lemma VariableRead(env: Env, s: string, i: nat, name: string)
    requires Balanced(name) && i + |name| + 3 <= |s| && s[i..i + |name| + 3] == "$(" + name + ")"
    ensures Expand(env, s, i) == Then(Lookup(env, name), Expand(env, s, i + |name| + 3))
  {
    var word := "$(" + name + ")";
    CharOf(s, i, word, 0);
    CharOf(s, i, word, 1);
    CharOf(s, i, word, |name| + 2);
    assert word[2..|name| + 2] == name;
    SliceOf(s, i, i + |word|, 2, |name| + 2);
    NameCloses(s, i + 1, name);
  }

  lemma MeaningStep(env: Env, toks: seq<Token>, tail: string)
    requires toks != []
    ensures Meaning(env, toks, tail) == Then(Value(env, toks[0]), Meaning(env, toks[1..], tail))
  {
  }

  /** Every text is readable, in one way or another. */
  lemma {:induction false} Read(s: string, i: nat) returns (toks: seq<Token>, tail: string)
    requires i <= |s|
    ensures s[i..] == Unparse(toks) + tail && Readable(toks, tail) && Ends(tail)
    ensures i == |s| ==> toks == [] && tail == ""
    ensures i < |s| && s[i] != '$' ==> toks != [] && toks[0] == Literal(s[i])
    decreases |s| - i
  {
    if i == |s| {
      return [], "";
    }
    if s[i] == '$' && i + 1 < |s| && s[i + 1] == '(' && Closing(s, i + 1, 0) == None {
      Stuck(s, i);
      return [], s[i..];
    }
    var t := TokenAt(s, i);
    var next := i + |Spelled(t)|;
    var rest;
    rest, tail := Read(s, next);
    toks := [t] + rest;
    OneMore(t, rest, tail);
    Glue(s, i, next, Spelled(t), Unparse(rest), tail);
  }

  lemma Stuck(s: string, i: nat)
    requires i + 1 < |s| && s[i] == '$' && s[i + 1] == '(' && Closing(s, i + 1, 0) == None
    ensures Ends(s[i..]) && s[i..] == Unparse([]) + s[i..]
  {
    ClosingShift(s, i, s[i..], 1, 0);
  }

  lemma OneMore(t: Token, rest: seq<Token>, tail: string)
    requires Proper(t) && Readable(rest, tail)
    requires t.Loose? ==> if rest == [] then tail == "" else rest[0].Literal? && rest[0].c != '('
    ensures Readable([t] + rest, tail) && Unparse([t] + rest) == Spelled(t) + Unparse(rest)
  {
    assert ([t] + rest)[1..] == rest;
  }

  lemma Glue(s: string, i: nat, next: nat, word: string, rest: string, tail: string)
    requires i <= next <= |s| && s[i..next] == word && s[next..] == rest + tail
    ensures s[i..] == word + rest + tail
  {
    assert s[i..] == s[i..next] + s[next..];
  }

  lemma SpelledVariable(s: string, i: nat, j: nat)
    requires i + 2 <= j < |s| && s[i] == '$' && s[i + 1] == '(' && s[j] == ')'
    ensures s[i..j + 1] == "$(" + s[i + 2..j] + ")"
  {
    assert s[i..j + 1] == s[i..i + 2] + s[i + 2..j] + s[j..j + 1];
  }

  /** The token at a position where no open bracket is. */
  lemma TokenAt(s: string, i: nat) returns (t: Token)
    requires i < |s| && !(s[i] == '$' && i + 1 < |s| && s[i + 1] == '(' && Closing(s, i + 1, 0) == None)
    ensures i + |Spelled(t)| <= |s| && s[i..i + |Spelled(t)|] == Spelled(t)
    ensures s[i] != '$' ==> t == Literal(s[i])
    ensures s[i] == '$' ==> !t.Literal?
    ensures Proper(t)
    ensures t.Loose? && i + 1 < |s| ==> s[i + 1] != '$' && s[i + 1] != '('
  {
    if s[i] != '$' {
      t := Literal(s[i]);
    } else if i + 1 < |s| && s[i + 1] == '$' {
      t := Dollar;
    } else if i + 1 < |s| && s[i + 1] == '(' {
      var j := Closing(s, i + 1, 0).value;
      NameBalanced(s, i + 1, j);
      t := Variable(s[i + 2..j]);
      SpelledVariable(s, i, j);
    } else {
      t := Loose;
    }
  }

  /** The text is these tokens, and then nothing or a bracket that never closes. */
  ghost predicate ReadAs(s: string, toks: seq<Token>, tail: string) {
    s == Unparse(toks) + tail && Readable(toks, tail) && Ends(tail)
  }

  /** However a text is read, its expansion is what the tokens say: two readings cannot disagree. */
  lemma WholeText(env: Env, s: string, toks: seq<Token>, tail: string)
    requires ReadAs(s, toks, tail)
    ensures Expand(env, s, 0) == Meaning(env, toks, tail)
  {
    assert s[0..] == s;
    ExpandsTo(env, s, 0, toks, tail);
  }

  lemma ReadWhole(s: string) returns (toks: seq<Token>, tail: string)
    ensures ReadAs(s, toks, tail)
  {
    toks, tail := Read(s, 0);
    assert s[0..] == s;
  }

  /** An expansion is refused exactly when the text is well formed up to a "$(" that never closes. */
  lemma RefusedIff(env: Env, s: string)
    ensures Expand(env, s, 0) == MissingBracket <==> exists toks, tail :: ReadAs(s, toks, tail) && tail != ""
  {
    var toks, tail := ReadWhole(s);
    WholeText(env, s, toks, tail);
    if toks', tail' :| ReadAs(s, toks', tail') && tail' != "" {
      WholeText(env, s, toks', tail');
    }
  }

  /** Every other text stands for the values of its tokens. */
  lemma AcceptedMeaning(env: Env, s: string) returns (toks: seq<Token>)
    requires Expand(env, s, 0) != MissingBracket
    ensures ReadAs(s, toks, "") && Expand(env, s, 0) == Expanded(Eval(env, toks))
  {
    var tail;
    toks, tail := ReadWhole(s);
    WholeText(env, s, toks, tail);
  }

  function Doubled(s: string): string {
    if s == "" then "" else (if s[0] == '$' then "$$" else [s[0]]) + Doubled(s[1..])
  }

  function Plain(s: string): seq<Token> {
    if s == "" then [] else [if s[0] == '$' then Dollar else Literal(s[0])] + Plain(s[1..])
  }

  lemma {:induction false} PlainTokens(env: Env, s: string)
    ensures Unparse(Plain(s)) == Doubled(s) && Eval(env, Plain(s)) == s && Readable(Plain(s), "")
  {
    if s != "" {
      PlainTokens(env, s[1..]);
      assert Plain(s)[1..] == Plain(s[1..]);
      assert [s[0]] + s[1..] == s;
    }
  }

  /** Doubling every dollar protects a text from expansion. */
  lemma DoublingProtects(env: Env, s: string)
    ensures Expand(env, Doubled(s), 0) == Expanded(s)
  {
    PlainTokens(env, s);
    WholeText(env, Doubled(s), Plain(s), "");
  }
}
