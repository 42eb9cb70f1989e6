/** The text form of the configuration: parse_config of src/config.cpp and the printing loop of saveConfig
    in src/confighttp.cpp. */
module ConfigFile {
  import opened Wrappers

  predicate Endline(ch: char) { ch == '\r' || ch == '\n' }
  predicate SpaceTab(ch: char) { ch == ' ' || ch == '\t' }
  predicate Whitespace(ch: char) { SpaceTab(ch) || Endline(ch) }

  // ---- the searches of the standard library, on positions in the text

  /** std::find_if on [from, to). */
  function FindIf(s: string, from: nat, upto: nat, p: char -> bool): (r: nat)
    requires from <= upto <= |s|
    ensures from <= r <= upto
    decreases |s| - from
  {
    if from == upto || p(s[from]) then from else FindIf(s, from + 1, upto, p)
  }

  function FindIfNot(s: string, from: nat, upto: nat, p: char -> bool): (r: nat)
    requires from <= upto <= |s|
    ensures from <= r <= upto
    decreases |s| - from
  {
    if from == upto || !p(s[from]) then from else FindIfNot(s, from + 1, upto, p)
  }

  function Find(s: string, from: nat, upto: nat, c: char): (r: nat)
    requires from <= upto <= |s|
    ensures from <= r <= upto
    decreases |s| - from
  {
    if from == upto || s[from] == c then from else Find(s, from + 1, upto, c)
  }

  /** The end of [from, to) after dropping trailing characters that satisfy `p`: a search with reverse
      iterators, and base(). */
  function TrimEnd(s: string, from: nat, upto: nat, p: char -> bool): (r: nat)
    requires from <= upto <= |s|
    ensures from <= r <= upto
    decreases upto
  {
    if upto == from || !p(s[upto - 1]) then upto else TrimEnd(s, from, upto - 1, p)
  }

  // What the searches find.

  lemma {:induction false} FindIfIs(s: string, from: nat, upto: nat, p: char -> bool, r: nat)
    requires from <= r <= upto <= |s| && (forall k :: from <= k < r ==> !p(s[k])) && (r < upto ==> p(s[r]))
    ensures FindIf(s, from, upto, p) == r
    decreases r - from
  {
    if from < r { FindIfIs(s, from + 1, upto, p, r); }
  }

  lemma {:induction false} FindIfNotIs(s: string, from: nat, upto: nat, p: char -> bool, r: nat)
    requires from <= r <= upto <= |s| && (forall k :: from <= k < r ==> p(s[k])) && (r < upto ==> !p(s[r]))
    ensures FindIfNot(s, from, upto, p) == r
    decreases r - from
  {
    if from < r { FindIfNotIs(s, from + 1, upto, p, r); }
  }

  lemma {:induction false} FindIs(s: string, from: nat, upto: nat, c: char, r: nat)
    requires from <= r <= upto <= |s| && (forall k :: from <= k < r ==> s[k] != c) && (r < upto ==> s[r] == c)
    ensures Find(s, from, upto, c) == r
    decreases r - from
  {
    if from < r { FindIs(s, from + 1, upto, c, r); }
  }

  /** A character that stays is never trimmed. */
  lemma {:induction false} TrimEndKeeps(s: string, from: nat, upto: nat, p: char -> bool, k: nat)
    requires from <= k < upto <= |s| && !p(s[k])
    ensures TrimEnd(s, from, upto, p) > k
    decreases upto
  {
    if p(s[upto - 1]) { TrimEndKeeps(s, from, upto - 1, p, k); }
  }

  lemma {:induction false} TrimEndIs(s: string, from: nat, upto: nat, p: char -> bool, r: nat)
    requires from <= r <= upto <= |s| && (forall k :: r <= k < upto ==> p(s[k])) && (r > from ==> !p(s[r - 1]))
    ensures TrimEnd(s, from, upto, p) == r
    decreases upto
  {
    if r < upto { TrimEndIs(s, from, upto - 1, p, r); }
  }

  // ---- to_string, skip_list, parse_option and parse_config

  /** Everything but comments, which run from '#' to the end of the line. */
  function WithoutComments(s: string, from: nat, upto: nat): string
    requires from <= upto <= |s|
    decreases |s| - from
  {
    if from == upto then ""
    else
      var comment := Find(s, from, upto, '#');
      s[from..comment] + WithoutComments(s, FindIf(s, comment, upto, Endline), upto)
  }

  lemma Associate(a: string, b: string, c: string)
    ensures a + (b + c) == a + b + c
  {
  }

  lemma CommentAdvances(s: string, from: nat, upto: nat)
    requires from < upto <= |s|
    ensures FindIf(s, Find(s, from, upto, '#'), upto, Endline) > from
  {
  }

  method ToString(s: string, from: nat, upto: nat) returns (result: string)
    requires from <= upto <= |s|
    ensures result == WithoutComments(s, from, upto)
  {
    result := "";
    var pos := from;
    while pos != upto
      invariant from <= pos <= upto
      invariant result + WithoutComments(s, pos, upto) == WithoutComments(s, from, upto)
      decreases upto - pos
    {
      var comment := Find(s, pos, upto, '#');
      var endl := FindIf(s, comment, upto, Endline);
      Associate(result, s[pos..comment], WithoutComments(s, endl, upto));
      CommentAdvances(s, pos, upto);
      result := result + s[pos..comment];
      pos := endl;
    }
  }

  /** A '#' at or before character `i`, on its line, within the range. */
  ghost predicate InComment(s: string, from: nat, i: nat)
    requires i < |s|
  {
    exists j :: from <= j <= i && s[j] == '#' && forall k :: j < k <= i ==> !Endline(s[k])
  }

  /** The characters that are not in a comment. */
  ghost function Kept(s: string, from: nat, upto: nat): string
    requires from <= upto <= |s|
  {
    if from == upto then ""
    else Kept(s, from, upto - 1) + if InComment(s, from, upto - 1) then "" else [s[upto - 1]]
  }

  lemma {:induction false} KeptPlain(s: string, from: nat, upto: nat)
    requires from <= upto <= |s| && forall k :: from <= k < upto ==> s[k] != '#'
    ensures Kept(s, from, upto) == s[from..upto]
  {
    if from < upto { KeptPlain(s, from, upto - 1); }
  }

  lemma {:induction false} KeptComment(s: string, from: nat, comment: nat, upto: nat)
    requires from <= comment < upto <= |s| && s[comment] == '#' && forall k :: comment < k < upto ==> !Endline(s[k])
    ensures Kept(s, from, upto) == Kept(s, from, comment)
  {
    assert InComment(s, from, upto - 1);
    if comment + 1 < upto { KeptComment(s, from, comment, upto - 1); }
  }

  /** A comment does not reach past a line break. */
  lemma {:induction false} KeptBreak(s: string, from: nat, endl: nat, upto: nat)
    requires from <= endl <= upto <= |s| && (endl < upto ==> Endline(s[endl]))
    ensures Kept(s, from, upto) == Kept(s, from, endl) + Kept(s, endl, upto)
    decreases upto
  {
    if endl < upto {
      KeptBreak(s, from, endl, upto - 1);
      assert InComment(s, from, upto - 1) <==> InComment(s, endl, upto - 1);
      Associate(Kept(s, from, endl), Kept(s, endl, upto - 1),
                if InComment(s, from, upto - 1) then "" else [s[upto - 1]]);
    }
  }

  /** What stays of a range: every character with no '#' at or before it on its line, in order. */
  lemma {:induction false} CommentsGone(s: string, from: nat, upto: nat)
    requires from <= upto <= |s|
    ensures WithoutComments(s, from, upto) == Kept(s, from, upto)
    decreases upto - from
  {
    if from < upto {
      var comment := Find(s, from, upto, '#');
      var endl := FindIf(s, comment, upto, Endline);
      CommentAdvances(s, from, upto);
      FindIfFinds(s, comment, upto, Endline);
      FindFinds(s, from, upto, '#');
      KeptPlain(s, from, comment);
      if comment < upto { KeptComment(s, from, comment, endl); }
      KeptBreak(s, from, endl, upto);
      CommentsGone(s, endl, upto);
    }
  }

  lemma {:induction false} FindIfFinds(s: string, from: nat, upto: nat, p: char -> bool)
    requires from <= upto <= |s|
    ensures var r := FindIf(s, from, upto, p); (forall k :: from <= k < r ==> !p(s[k])) && (r < upto ==> p(s[r]))
    decreases upto - from
  {
    if from < upto && !p(s[from]) { FindIfFinds(s, from + 1, upto, p); }
  }

  lemma {:induction false} FindFinds(s: string, from: nat, upto: nat, c: char)
    requires from <= upto <= |s|
    ensures var r := Find(s, from, upto, c); (forall k :: from <= k < r ==> s[k] != c) && (r < upto ==> s[r] == c)
    decreases upto - from
  {
    if from < upto && s[from] != c { FindFinds(s, from + 1, upto, c); }
  }

  /** The position behind the bracket that closes `stack` open ones, or the end. */
  function ListEnd(s: string, from: nat, stack: nat): (r: nat)
    requires from <= |s|
    ensures from <= r <= |s|
    decreases |s| - from
  {
    if from == |s| || stack == 0 then from
    else ListEnd(s, from + 1, if s[from] == '[' then stack + 1 else if s[from] == ']' then stack - 1 else stack)
  }

  method SkipList(s: string, from: nat) returns (skipper: nat)
    requires from <= |s|
    ensures skipper == ListEnd(s, from, 1)
  {
    var stack: nat := 1;
    skipper := from;
    while skipper != |s| && stack != 0
      invariant from <= skipper <= |s|
      invariant ListEnd(s, skipper, stack) == ListEnd(s, from, 1)
      decreases |s| - skipper
    {
      if s[skipper] == '[' {
        stack := stack + 1;
      } else if s[skipper] == ']' {
        stack := stack - 1;
      }
      skipper := skipper + 1;
    }
  }

  /** Where an option is: its line ends at `endl`, and its name and value, if any, are at
      [begin, endName) and [beginVal, endl). */
  datatype Place =
    | Nothing(endl: nat)
    | Setting(begin: nat, endName: nat, beginVal: nat, endl: nat)

  predicate Within(p: Place, from: nat, upto: nat) {
    && from <= p.endl <= upto
    && (p.Setting? ==> p.begin <= p.endName <= p.beginVal <= p.endl)
  }

  function Locate(s: string, from: nat): (r: Place)
    requires from <= |s|
    ensures Within(r, from, |s|)
  {
    var begin := FindIfNot(s, from, |s|, Whitespace);
    var endl := FindIf(s, begin, |s|, Endline);
    var endc := TrimEnd(s, begin, Find(s, begin, endl, '#'), Whitespace);
    var eq := Find(s, begin, endc, '=');
    if eq == endc || eq == begin then Nothing(endl)
    else
      var endName := TrimEnd(s, begin, eq, SpaceTab);
      var beginVal := FindIfNot(s, eq + 1, endc, SpaceTab);
      if beginVal == endl then Nothing(endl)
      else if s[beginVal] == '[' then
        var close := ListEnd(s, beginVal + 1, 1);
        if close == |s| == beginVal + 1 then Nothing(close) else Setting(begin, endName, beginVal, close)
      else Setting(begin, endName, beginVal, endl)
  }

  type Binding = Option<(string, string)>

  /** The name and the value, without their comments. */
  function Bound(s: string, p: Place): Binding
    requires Within(p, 0, |s|)
  {
    match p
    case Nothing(_) => None
    case Setting(begin, endName, beginVal, endl) =>
      Some((WithoutComments(s, begin, endName), WithoutComments(s, beginVal, endl)))
  }

  method ParseOption(s: string, from: nat) returns (endl: nat, option: Binding)
    requires from <= |s|
    ensures endl == Locate(s, from).endl && option == Bound(s, Locate(s, from))
  {
    var begin := FindIfNot(s, from, |s|, Whitespace);
    endl := FindIf(s, begin, |s|, Endline);
    var endc := Find(s, begin, endl, '#');
    endc := TrimEnd(s, begin, endc, Whitespace);
    var eq := Find(s, begin, endc, '=');
    if eq == endc || eq == begin {
      return endl, None;
    }
    var endName := TrimEnd(s, begin, eq, SpaceTab);
    var beginVal := FindIfNot(s, eq + 1, endc, SpaceTab);
    if beginVal == endl {
      return endl, None;
    }
    // a list ends at its bracket, not at the line break
    if s[beginVal] == '[' {
      endl := SkipList(s, beginVal + 1);
      // a lone bracket at the very end binds nothing
      if endl == |s| && |s| == beginVal + 1 {
        return endl, None;
      }
    }
    assert Locate(s, from) == Setting(begin, endName, beginVal, endl);
    var name := ToString(s, begin, endName);
    var value := ToString(s, beginVal, endl);
    return endl, Some((name, value));
  }

  type Vars = map<string, string>

  /** unordered_map::emplace keeps what is there. */
  function Emplace(vars: Vars, k: string, v: string): Vars {
    if k in vars then vars else vars[k := v]
  }

  /** Past the end of a line; a carriage return takes the character after it along, even past the end. */
  function NextLine(s: string, endl: nat): nat
    requires endl <= |s|
  {
    if endl == |s| then endl else endl + if s[endl] == '\r' then 2 else 1
  }

  function With(vars: Vars, b: Binding): Vars {
    if b.Some? then Emplace(vars, b.value.0, b.value.1) else vars
  }

  function VarsFrom(s: string, pos: nat, vars: Vars): Vars
    decreases |s| - pos
  {
    if pos >= |s| then vars
    else
      var p := Locate(s, pos);
      VarsFrom(s, if NextLine(s, p.endl) > pos then NextLine(s, p.endl) else |s|, With(vars, Bound(s, p)))
  }

  lemma VarsStep(s: string, pos: nat, vars: Vars, p: Place, r: Vars)
    requires pos < |s| && p == Locate(s, pos) && r == VarsFrom(s, pos, vars)
    ensures r == VarsFrom(s, NextLine(s, p.endl), With(vars, Bound(s, p)))
  {
    AlwaysAdvances(s, pos);
  }

  /** parse_config; it terminates on every text. */
  method ParseConfig(s: string) returns (vars: Vars)
    ensures vars == VarsFrom(s, 0, map[])
  {
    vars := map[];
    var pos: nat := 0;
    ghost var goal := VarsFrom(s, 0, map[]);
    while pos < |s|
      invariant goal == VarsFrom(s, pos, vars)
      decreases |s| - pos
    {
      var endl, option := ParseOption(s, pos);
      ghost var next, rest := LineRead(s, pos, vars, endl, option, goal);
      pos := endl;
      if pos != |s| {
        pos := pos + if s[pos] == '\r' then 2 else 1;
      }
      if option.Some? {
        vars := Emplace(vars, option.value.0, option.value.1);
      }
      assert pos == next && vars == rest;
    }
  }

  lemma LineRead(s: string, pos: nat, vars: Vars, endl: nat, option: Binding, r: Vars) returns (next: nat, rest: Vars)
    requires pos < |s| && endl == Locate(s, pos).endl && option == Bound(s, Locate(s, pos))
        && r == VarsFrom(s, pos, vars)
    ensures endl <= |s| && next == NextLine(s, endl) && next > pos && rest == With(vars, option)
        && r == VarsFrom(s, next, rest)
  {
    next, rest := NextLine(s, endl), With(vars, option);
    AlwaysAdvances(s, pos);
    VarsStep(s, pos, vars, Locate(s, pos), r);
  }

  lemma AlwaysAdvances(s: string, pos: nat)
    requires pos < |s|
    ensures NextLine(s, Locate(s, pos).endl) > pos
  {
  }

  // ---- printing

  /** A line of a configuration text: a setting, or one that sets nothing. `tail` is a comment behind a scalar. The
      printer writes plain settings; indents, comments and other line ends come from editors. */
  datatype Line =
    | Item(indent: string, key: string, gap: string, gap2: string, value: string, tail: string, eol: string)
    | Idle(indent: string, text: string, eol: string)

  function LineParts(l: Line): seq<string> {
    match l
    case Item(indent, key, gap, gap2, value, tail, eol) => [indent, key, gap, "=", gap2, value, tail, eol]
    case Idle(indent, text, eol) => [indent, text, eol]
  }

  function Joined(parts: seq<string>): string {
    if parts == [] then "" else parts[0] + Joined(parts[1..])
  }

  function LineText(l: Line): string { Joined(LineParts(l)) }

  function Printed(key: string, value: string): Line {
    Item("", key, " ", " ", value, "", "\n")
  }

  function Text(lines: seq<Line>): string {
    if lines == [] then "" else LineText(lines[0]) + Text(lines[1..])
  }

  /** What the front end sends: the dump or the string of each value, or null. */
  datatype JsonValue = Null | Dumped(text: string)

  function Saved(items: seq<(string, JsonValue)>): seq<Line> {
    if items == [] then []
    else
      (if items[0].1.Null? || items[0].1.text == "" then [] else [Printed(items[0].0, items[0].1.text)])
      + Saved(items[1..])
  }

  /** The printing loop of saveConfig. */
  method SaveConfig(items: seq<(string, JsonValue)>) returns (stream: string)
    ensures stream == Text(Saved(items))
  {
    stream := "";
    for i := 0 to |items|
      invariant stream + Text(Saved(items[i..])) == Text(Saved(items))
    {
      var (k, v) := items[i];
      assert items[i..][1..] == items[i + 1..];
      if v.Null? || v.text == "" {
        assert Saved(items[i..]) == Saved(items[i + 1..]);
        continue;
      }
      assert Saved(items[i..]) == [Printed(k, v.text)] + Saved(items[i + 1..]);
      SavedFirst(Printed(k, v.text), Saved(items[i + 1..]));
      PrintedText(k, v.text);
      var line := k + " = " + v.text + "\n";
      Associate(stream, line, Text(Saved(items[i + 1..])));
      stream := stream + line;
    }
  }

  lemma JoinedStep(first: string, rest: seq<string>)
    ensures Joined([first] + rest) == first + Joined(rest)
  {
    assert ([first] + rest)[1..] == rest;
  }

  lemma PrintedText(key: string, value: string)
    ensures LineText(Printed(key, value)) == key + " = " + value + "\n"
  {
    var r7 := ["\n"];
    var r5 := [value] + ([""] + r7);
    var r3 := ["="] + ([" "] + r5);
    var r1 := [key] + ([" "] + r3);
    JoinedStep("\n", []);
    JoinedStep("", r7);
    JoinedStep(value, [""] + r7);
    JoinedStep(" ", r5);
    JoinedStep("=", [" "] + r5);
    JoinedStep(" ", r3);
    JoinedStep(key, [" "] + r3);
    JoinedStep("", r1);
    assert LineParts(Printed(key, value)) == [""] + r1;
    Flatten(key, value, Joined(r7), Joined(r5), Joined(r3), Joined(r1));
  }

  lemma Flatten(key: string, value: string, t7: string, t5: string, t3: string, t1: string)
    requires t7 == "\n" && t5 == value + ("" + t7) && t3 == "=" + (" " + t5) && t1 == key + (" " + t3)
    ensures "" + t1 == key + " = " + value + "\n"
  {
  }

  lemma SavedFirst(l: Line, rest: seq<Line>)
    ensures Text([l] + rest) == LineText(l) + Text(rest)
  {
    assert ([l] + rest)[1..] == rest;
  }

  // ---- what a text means

  predicate Plain(s: string) {
    forall i :: 0 <= i < |s| ==> s[i] != '#' && !Endline(s[i])
  }

  predicate NoHash(v: string) {
    forall i :: 0 <= i < |v| ==> v[i] != '#'
  }

  predicate OneLine(s: string) {
    forall i :: 0 <= i < |s| ==> !Endline(s[i])
  }

  predicate Blank(s: string) {
    forall i :: 0 <= i < |s| ==> SpaceTab(s[i])
  }

  predicate White(s: string) {
    forall i :: 0 <= i < |s| ==> Whitespace(s[i])
  }

  predicate GoodKey(k: string) {
    k != "" && Plain(k) && !SpaceTab(k[0]) && !SpaceTab(k[|k| - 1]) && forall i :: 0 <= i < |k| ==> k[i] != '='
  }

  predicate GoodScalar(v: string) {
    v != "" && Plain(v) && !SpaceTab(v[0]) && v[0] != '['
  }

  predicate Comment(t: string) {
    t == "" || (t[0] == '#' && OneLine(t))
  }

  /** Open brackets after the first `i` characters. */
  function Depth(v: string, i: nat): int
    requires i <= |v|
  {
    if i == 0 then 0
    else Depth(v, i - 1) + if v[i - 1] == '[' then 1 else if v[i - 1] == ']' then -1 else 0
  }

  /** A bracketed value that is closed by its last character and not before; it may span lines and hold comments,
      whose brackets count as well. */
  predicate GoodList(v: string) {
    && |v| >= 2 && v[0] == '['
    && (forall i :: 0 < i < |v| ==> Depth(v, i) > 0)
    && Depth(v, |v|) == 0
  }

  /** A bracketed value that is never closed. */
  predicate OpenList(v: string) {
    v != "" && v[0] == '[' && forall i :: 0 < i <= |v| ==> Depth(v, i) > 0
  }

  /** Behind a list any character but a carriage return ends the line: a comment behind a blank there is a line of its
      own. */
  predicate GoodItem(l: Line)
    requires l.Item?
  {
    && White(l.indent) && GoodKey(l.key) && Blank(l.gap) && Blank(l.gap2)
    && (|| (GoodScalar(l.value) && Comment(l.tail) && l.eol in {"\n", "\r\n", ""})
        // nothing but blanks: all of them are the value
        || (l.gap2 == "" && Blank(l.value) && Comment(l.tail) && l.value + l.tail != "" && l.eol in {"\n", "\r\n", ""})
        || (GoodList(l.value) && l.tail == "" && (l.eol == "\r\n" || l.eol == "" || (|l.eol| == 1 && l.eol[0] != '\r')))
        || (OpenList(l.value) && l.tail == "" && l.eol == ""))
  }

  /** No '=' before a comment, unless it comes first or last. */
  predicate SetsNothing(text: string) {
    && text != "" && OneLine(text) && !SpaceTab(text[0])
    && (text[0] == '='
        || forall i :: 0 <= i < |text| - 1 && text[i] == '=' ==> HashBefore(text, 0, i))
  }

  predicate HashBefore(s: string, from: nat, i: int) {
    exists j :: from <= j < i && j < |s| && s[j] == '#'
  }

  predicate GoodLine(l: Line) {
    match l
    case Item(_, _, _, _, _, _, _) => GoodItem(l)
    case Idle(indent, text, eol) => White(indent) && SetsNothing(text) && eol in {"\n", "\r\n", ""}
  }

  /** Only the last line can be without its end. */
  predicate AllGood(lines: seq<Line>) {
    forall i :: 0 <= i < |lines| ==> GoodLine(lines[i]) && (lines[i].eol == "" ==> i == |lines| - 1)
  }

  lemma GoodRest(lines: seq<Line>)
    requires lines != [] && AllGood(lines)
    ensures AllGood(lines[1..])
  {
    assert forall i :: 0 <= i < |lines| - 1 ==> lines[1..][i] == lines[i + 1];
  }

  /** A setting binds its name to its value, of a list what is not in comments. A lone bracket at the end of the
      text is no value. */
  ghost function LineBinding(l: Line): Binding {
    if l.Idle? || l.value == "[" then None
    else if l.value != "" && l.value[0] == '[' then Some((l.key, Kept(l.value, 0, |l.value|)))
    else Some((l.key, l.value))
  }

  /** The bindings of a text, the first one of a name winning. */
  ghost function Bindings(lines: seq<Line>, vars: Vars): Vars {
    if lines == [] then vars
    else Bindings(lines[1..], With(vars, LineBinding(lines[0])))
  }

  predicate At(s: string, pos: nat, t: string) {
    pos + |t| <= |s| && s[pos..pos + |t|] == t
  }

  lemma CharsAt(s: string, pos: nat, t: string)
    requires At(s, pos, t)
    ensures forall i :: pos <= i < pos + |t| ==> s[i] == t[i - pos]
  {
    var piece := s[pos..pos + |t|];
    assert forall i :: pos <= i < pos + |t| ==> piece[i - pos] == s[i];
  }

  lemma AtSplit(s: string, pos: nat, a: string, b: string)
    requires At(s, pos, a + b)
    ensures At(s, pos, a) && At(s, pos + |a|, b)
  {
    var piece := s[pos..pos + |a + b|];
    assert piece[..|a|] == a && piece[|a|..] == b;
    assert s[pos..pos + |a|] == piece[..|a|];
    assert s[pos + |a|..pos + |a| + |b|] == piece[|a|..];
  }

  /** The parts of a setting, in the text from `from` on. */
  datatype Parts = Parts(begin: nat, nameEnd: nat, eq: nat, val: nat, hash: nat, end: nat)

  function PartsOf(from: nat, l: Line): Parts
    requires l.Item?
  {
    var begin := from + |l.indent|;
    var eq := begin + |l.key| + |l.gap|;
    var val := eq + 1 + |l.gap2|;
    Parts(begin, begin + |l.key|, eq, val, val + |l.value|, val + |l.value| + |l.tail|)
  }

  predicate ItemAt(s: string, from: nat, l: Line, q: Parts)
    requires l.Item?
  {
    && q == PartsOf(from, l) && q.eq < |s|
    && At(s, from, l.indent) && At(s, q.begin, l.key) && At(s, q.nameEnd, l.gap) && s[q.eq] == '='
    && At(s, q.eq + 1, l.gap2) && At(s, q.val, l.value) && At(s, q.hash, l.tail) && At(s, q.end, l.eol)
  }

  lemma ItemParts(s: string, from: nat, l: Line) returns (q: Parts)
    requires l.Item? && At(s, from, LineText(l))
    ensures ItemAt(s, from, l, q) && q.end + |l.eol| == from + |LineText(l)|
  {
    q := PartsOf(from, l);
    var r4 := [l.gap2] + ([l.value] + ([l.tail] + [l.eol]));
    var r2 := [l.gap] + (["="] + r4);
    assert LineParts(l) == [l.indent] + ([l.key] + r2);
    TwoParts(s, from, q.begin, q.nameEnd, l.indent, l.key, r2, LineParts(l));
    TwoParts(s, q.nameEnd, q.eq, q.eq + 1, l.gap, "=", r4, r2);
    CharsAt(s, q.eq, "=");
    ValueParts(s, q.eq + 1, q.val, q.hash, q.end, l.gap2, l.value, l.tail, l.eol, r4);
  }

  lemma TwoParts(s: string, from: nat, mid: nat, end: nat, a: string, b: string, rest: seq<string>, parts: seq<string>)
    requires parts == [a] + ([b] + rest) && At(s, from, Joined(parts)) && mid == from + |a| && end == mid + |b|
    ensures At(s, from, a) && At(s, mid, b) && At(s, end, Joined(rest))
    ensures from + |Joined(parts)| == end + |Joined(rest)|
  {
    PartAt(s, from, a, [b] + rest);
    PartAt(s, mid, b, rest);
  }

  lemma ValueParts(s: string, from: nat, val: nat, hash: nat, end: nat, gap2: string, value: string, tail: string,
                   eol: string, parts: seq<string>)
    requires parts == [gap2] + ([value] + ([tail] + [eol])) && At(s, from, Joined(parts))
    requires val == from + |gap2| && hash == val + |value| && end == hash + |tail|
    ensures At(s, from, gap2) && At(s, val, value) && At(s, hash, tail) && At(s, end, eol)
    ensures from + |Joined(parts)| == end + |eol|
  {
    TwoParts(s, from, val, hash, gap2, value, [tail] + [eol], parts);
    PartAt(s, hash, tail, [eol]);
    assert [eol] + [] == [eol];
    PartAt(s, end, eol, []);
  }

  lemma PartAt(s: string, pos: nat, first: string, rest: seq<string>)
    requires At(s, pos, Joined([first] + rest))
    ensures At(s, pos, first) && At(s, pos + |first|, Joined(rest))
    ensures |Joined([first] + rest)| == |first| + |Joined(rest)|
  {
    JoinedStep(first, rest);
    AtSplit(s, pos, first, Joined(rest));
  }

  // ---- what parse_option finds

  /** From the value on: a list ends at its bracket, anything else with the line. */
  function PlaceFrom(s: string, q: Parts, endl: nat): Place
    requires q.val < |s|
  {
    if s[q.val] != '[' then Setting(q.begin, q.nameEnd, q.val, endl)
    else
      var close := ListEnd(s, q.val + 1, 1);
      if close == |s| == q.val + 1 then Nothing(close) else Setting(q.begin, q.nameEnd, q.val, close)
  }

  /** The name is from the first to the last character that is not blank before '='. The value starts at the first
      such character behind it, or, before a comment or line end, right behind it. */
  lemma NameParsed(s: string, from: nat, q: Parts, hash: nat, endl: nat)
    requires from <= q.begin < q.nameEnd <= q.eq < q.val <= hash <= endl <= |s| && q.val < endl
    requires (forall i :: from <= i < q.begin ==> Whitespace(s[i])) && !Whitespace(s[q.begin])
    requires forall i :: q.begin <= i < q.nameEnd ==> !Endline(s[i]) && s[i] != '#' && s[i] != '='
    requires s[q.eq] == '='
    requires (forall i :: q.val <= i < endl ==> !Endline(s[i])) && (endl < |s| ==> Endline(s[endl]))
    requires (forall i :: q.val <= i < hash ==> s[i] != '#') && (hash < endl ==> s[hash] == '#')
    requires (forall i :: q.nameEnd <= i < q.eq ==> SpaceTab(s[i])) && !SpaceTab(s[q.nameEnd - 1])
    requires forall i :: q.eq < i < q.val ==> SpaceTab(s[i])
    requires if q.val < hash && !Whitespace(s[q.val]) then true
             else q.val == q.eq + 1 && forall i :: q.val <= i < hash ==> SpaceTab(s[i])
    ensures Locate(s, from) == PlaceFrom(s, q, endl)
  {
    assert forall i :: q.begin <= i < q.val ==> i < q.nameEnd || i == q.eq || SpaceTab(s[i]);
    FindIfNotIs(s, from, |s|, Whitespace, q.begin);
    FindIfIs(s, q.begin, |s|, Endline, endl);
    FindIs(s, q.begin, endl, '#', hash);
    var endc := TrimEnd(s, q.begin, hash, Whitespace);
    NameWithin(s, q, hash, endc);
    LocateIs(s, from, q, endl, hash, endc);
  }

  lemma LocateIs(s: string, from: nat, q: Parts, endl: nat, hash: nat, endc: nat)
    requires from <= q.begin < q.eq < endc <= hash <= endl <= |s| && q.val < endl
    requires FindIfNot(s, from, |s|, Whitespace) == q.begin && FindIf(s, q.begin, |s|, Endline) == endl
    requires Find(s, q.begin, endl, '#') == hash && TrimEnd(s, q.begin, hash, Whitespace) == endc
    requires Find(s, q.begin, endc, '=') == q.eq && TrimEnd(s, q.begin, q.eq, SpaceTab) == q.nameEnd
    requires FindIfNot(s, q.eq + 1, endc, SpaceTab) == q.val
    ensures Locate(s, from) == PlaceFrom(s, q, endl)
  {
  }

  lemma NameWithin(s: string, q: Parts, hash: nat, endc: nat)
    requires q.begin < q.nameEnd <= q.eq < q.val <= hash <= |s| && s[q.eq] == '='
    requires endc == TrimEnd(s, q.begin, hash, Whitespace)
    requires forall i :: q.begin <= i < q.nameEnd ==> s[i] != '='
    requires (forall i :: q.nameEnd <= i < q.eq ==> SpaceTab(s[i])) && !SpaceTab(s[q.nameEnd - 1])
    requires forall i :: q.eq < i < q.val ==> SpaceTab(s[i])
    requires if q.val < hash && !Whitespace(s[q.val]) then true
             else q.val == q.eq + 1 && forall i :: q.val <= i < hash ==> SpaceTab(s[i])
    ensures q.eq < endc && Find(s, q.begin, endc, '=') == q.eq && TrimEnd(s, q.begin, q.eq, SpaceTab) == q.nameEnd
    ensures FindIfNot(s, q.eq + 1, endc, SpaceTab) == q.val
  {
    TextEnds(s, q, hash, endc);
    FindIs(s, q.begin, endc, '=', q.eq);
    TrimEndIs(s, q.begin, q.eq, SpaceTab, q.nameEnd);
    FindIfNotIs(s, q.eq + 1, endc, SpaceTab, q.val);
  }

  lemma TextEnds(s: string, q: Parts, hash: nat, endc: nat)
    requires q.begin < q.nameEnd <= q.eq < q.val <= hash <= |s| && s[q.eq] == '='
    requires endc == TrimEnd(s, q.begin, hash, Whitespace)
    requires if q.val < hash && !Whitespace(s[q.val]) then true
             else q.val == q.eq + 1 && forall i :: q.val <= i < hash ==> SpaceTab(s[i])
    ensures if q.val < hash && !Whitespace(s[q.val]) then q.val < endc else endc == q.val
  {
    if q.val < hash && !Whitespace(s[q.val]) {
      TrimEndKeeps(s, q.begin, hash, Whitespace, q.val);
    } else {
      TrimEndIs(s, q.begin, hash, Whitespace, q.val);
    }
  }

  /** Up to the value, character by character. */
  lemma NameChars(s: string, from: nat, l: Line, q: Parts)
    requires l.Item? && GoodItem(l) && ItemAt(s, from, l, q)
    ensures forall i :: from <= i < q.begin ==> Whitespace(s[i])
    ensures forall i :: q.nameEnd <= i < q.eq ==> SpaceTab(s[i])
    ensures forall i :: q.eq < i < q.val ==> SpaceTab(s[i])
    ensures !Whitespace(s[q.begin]) && !SpaceTab(s[q.nameEnd - 1])
    ensures forall i :: q.begin <= i < q.nameEnd ==> !Endline(s[i]) && s[i] != '#' && s[i] != '='
  {
    CharsAt(s, from, l.indent);
    CharsAt(s, q.nameEnd, l.gap);
    CharsAt(s, q.eq + 1, l.gap2);
    KeyChars(s, q.begin, l.key);
  }

  lemma KeyChars(s: string, begin: nat, key: string)
    requires GoodKey(key) && At(s, begin, key)
    ensures !Whitespace(s[begin]) && !SpaceTab(s[begin + |key| - 1])
    ensures forall i :: begin <= i < begin + |key| ==> !Endline(s[i]) && s[i] != '#' && s[i] != '='
  {
    CharsAt(s, begin, key);
    assert s[begin] == key[0] && s[begin + |key| - 1] == key[|key| - 1];
  }

  predicate ScalarItem(l: Line) {
    && l.Item? && GoodItem(l) && (l.value == "" || l.value[0] != '[')
  }

  /** A scalar is found from its first character to the end of the line. */
  lemma ScalarLocated(s: string, from: nat, l: Line, q: Parts)
    requires ScalarItem(l) && ItemAt(s, from, l, q) && (l.eol == "" ==> q.end == |s|)
    ensures Locate(s, from) == Setting(q.begin, q.nameEnd, q.val, q.end)
  {
    NameChars(s, from, l, q);
    ScalarChars(s, from, l, q);
    NameParsed(s, from, q, q.hash, q.end);
  }

  lemma ScalarChars(s: string, from: nat, l: Line, q: Parts)
    requires ScalarItem(l) && ItemAt(s, from, l, q) && (l.eol == "" ==> q.end == |s|)
    ensures forall i :: q.val <= i < q.hash ==> s[i] != '#' && !Endline(s[i])
    ensures forall i :: q.hash <= i < q.end ==> !Endline(s[i])
    ensures q.hash < q.end ==> s[q.hash] == '#'
    ensures q.end < |s| ==> Endline(s[q.end])
    ensures q.val < q.end && s[q.val] != '['
    ensures if q.val < q.hash && !Whitespace(s[q.val]) then true
            else q.val == q.eq + 1 && forall i :: q.val <= i < q.hash ==> SpaceTab(s[i])
  {
    CharsAt(s, q.val, l.value);
    CharsAt(s, q.hash, l.tail);
    CharsAt(s, q.end, l.eol);
    if l.value != "" { assert s[q.val] == l.value[0]; }
    if l.tail != "" { assert s[q.hash] == l.tail[0]; }
    if l.eol != "" { assert s[q.end] == l.eol[0]; }
  }

  lemma {:induction false} ListCloses(s: string, val: nat, v: string, i: nat)
    requires At(s, val, v) && 1 <= i <= |v| && Depth(v, i) >= 0 && (forall k :: 0 < k < |v| ==> Depth(v, k) > 0)
    requires Depth(v, |v|) == 0 || (Depth(v, |v|) > 0 && val + |v| == |s|)
    ensures ListEnd(s, val + i, Depth(v, i)) == val + |v|
    decreases |v| - i
  {
    CharsAt(s, val, v);
    if i < |v| {
      assert Depth(v, i) > 0 && s[val + i] == v[i];
      if i + 1 == |v| { assert Depth(v, i + 1) >= 0; }
      ListCloses(s, val, v, i + 1);
    }
  }

  predicate ListItem(l: Line) {
    l.Item? && GoodItem(l) && (GoodList(l.value) || OpenList(l.value))
  }

  /** A list is found up to the bracket that closes it, over all its lines. */
  lemma ListLocated(s: string, from: nat, l: Line, q: Parts)
    requires ListItem(l) && ItemAt(s, from, l, q) && (OpenList(l.value) ==> q.end == |s|)
    ensures Locate(s, from) == if |l.value| == 1 then Nothing(q.end)
                               else Setting(q.begin, q.nameEnd, q.val, q.end)
  {
    var endl := ListHead(s, from, l, q);
    ListClosed(s, q.val, l.value, q.end);
  }

  lemma ListClosed(s: string, val: nat, v: string, end: nat)
    requires At(s, val, v) && end == val + |v| && (GoodList(v) || (OpenList(v) && end == |s|))
    ensures ListEnd(s, val + 1, 1) == end && (end == |s| == val + 1 <==> |v| == 1)
  {
    assert Depth(v, 1) == 1;
    ListCloses(s, val, v, 1);
  }

  lemma ListHead(s: string, from: nat, l: Line, q: Parts) returns (endl: nat)
    requires ListItem(l) && ItemAt(s, from, l, q)
    ensures q.val < |s| && s[q.val] == '[' && Locate(s, from) == PlaceFrom(s, q, endl)
  {
    NameChars(s, from, l, q);
    CharsAt(s, q.val, l.value);
    assert s[q.val] == l.value[0] == '[';
    endl := FirstBreak(s, q.val);
    var hash := FirstHash(s, q.val, endl);
    NameParsed(s, from, q, hash, endl);
  }

  /** The first line break from `from` on, or the end. */
  lemma FirstBreak(s: string, from: nat) returns (r: nat)
    requires from <= |s|
    ensures from <= r <= |s| && (r < |s| ==> Endline(s[r])) && forall k :: from <= k < r ==> !Endline(s[k])
  {
    r := FindIf(s, from, |s|, Endline);
    FindIfFinds(s, from, |s|, Endline);
  }

  lemma FirstHash(s: string, from: nat, upto: nat) returns (r: nat)
    requires from <= upto <= |s|
    ensures from <= r <= upto && (r < upto ==> s[r] == '#') && forall k :: from <= k < r ==> s[k] != '#'
  {
    r := Find(s, from, upto, '#');
    FindFinds(s, from, upto, '#');
  }

  /** Text without a comment is taken as it stands. */
  lemma Taken(s: string, from: nat, t: string, end: nat)
    requires At(s, from, t) && end == from + |t| && NoHash(t)
    ensures WithoutComments(s, from, end) == Kept(s, from, end) == t
  {
    CharsAt(s, from, t);
    CommentsGone(s, from, end);
    KeptPlain(s, from, end);
  }

  /** Of a text with a comment behind it, the comment alone is dropped. */
  lemma TakenBefore(s: string, from: nat, t: string, hash: nat, comment: string, end: nat)
    requires At(s, from, t) && hash == from + |t| && At(s, hash, comment) && end == hash + |comment| && Comment(comment)
    requires NoHash(t)
    ensures WithoutComments(s, from, end) == t
  {
    Taken(s, from, t, hash);
    if comment != "" {
      CommentsGone(s, from, end);
      CharsAt(s, hash, comment);
      assert s[hash] == comment[0];
      KeptComment(s, from, hash, end);
    }
  }

  /** Whether a character is in a comment is seen within the value. */
  lemma {:induction false} TakenWithin(s: string, from: nat, t: string, n: nat, end: nat)
    requires At(s, from, t) && n <= |t| && end == from + n
    ensures Kept(s, from, end) == Kept(t, 0, n)
  {
    CharsAt(s, from, t);
    if n > 0 {
      TakenWithin(s, from, t, n - 1, end - 1);
      SameComment(s, from, t, n - 1);
    }
  }

  lemma SameComment(s: string, from: nat, t: string, i: nat)
    requires from + |t| <= |s| && i < |t| && forall k :: from <= k < from + |t| ==> s[k] == t[k - from]
    ensures InComment(s, from, from + i) <==> InComment(t, 0, i)
  {
    if InComment(s, from, from + i) {
      var j :| from <= j <= from + i && s[j] == '#' && forall k :: j < k <= from + i ==> !Endline(s[k]);
      assert t[j - from] == '#' && forall k :: j - from < k <= i ==> t[k] == s[k + from];
    }
    if InComment(t, 0, i) {
      var j :| 0 <= j <= i && t[j] == '#' && forall k :: j < k <= i ==> !Endline(t[k]);
      assert s[j + from] == '#' && forall k :: j + from < k <= from + i ==> s[k] == t[k - from];
    }
  }

  lemma ScalarBound(s: string, from: nat, l: Line, q: Parts, p: Place)
    requires ScalarItem(l) && ItemAt(s, from, l, q) && p == Setting(q.begin, q.nameEnd, q.val, q.end)
    ensures Within(p, 0, |s|) && Bound(s, p) == LineBinding(l)
  {
    ScalarTaken(s, q, l.key, l.value, l.tail);
  }

  lemma ScalarTaken(s: string, q: Parts, key: string, value: string, tail: string)
    requires NoHash(key) && NoHash(value) && Comment(tail)
    requires At(s, q.begin, key) && q.nameEnd == q.begin + |key| && At(s, q.val, value) && q.hash == q.val + |value|
    requires At(s, q.hash, tail) && q.end == q.hash + |tail|
    ensures WithoutComments(s, q.begin, q.nameEnd) == key && WithoutComments(s, q.val, q.end) == value
  {
    Taken(s, q.begin, key, q.nameEnd);
    TakenBefore(s, q.val, value, q.hash, tail, q.end);
  }

  lemma ListBound(s: string, from: nat, l: Line, q: Parts, p: Place)
    requires ListItem(l) && ItemAt(s, from, l, q)
    requires p == if |l.value| == 1 then Nothing(q.end) else Setting(q.begin, q.nameEnd, q.val, q.end)
    ensures Within(p, 0, |s|) && Bound(s, p) == LineBinding(l)
  {
    ListTaken(s, q, l.key, l.value);
  }

  lemma ListTaken(s: string, q: Parts, key: string, value: string)
    requires NoHash(key) && At(s, q.begin, key) && q.nameEnd == q.begin + |key|
    requires At(s, q.val, value) && q.end == q.val + |value|
    ensures WithoutComments(s, q.begin, q.nameEnd) == key
    ensures WithoutComments(s, q.val, q.end) == Kept(value, 0, |value|)
  {
    Taken(s, q.begin, key, q.nameEnd);
    ValueTaken(s, q.val, value, q.end);
  }

  lemma ValueTaken(s: string, val: nat, value: string, end: nat)
    requires At(s, val, value) && end == val + |value|
    ensures WithoutComments(s, val, end) == Kept(value, 0, |value|)
  {
    CommentsGone(s, val, end);
    TakenWithin(s, val, value, |value|, end);
  }

  /** What parse_option finds at the start of a line is the binding of the line, and it goes on at the next line. */
  lemma LineLocated(s: string, from: nat, l: Line) returns (p: Place)
    requires GoodLine(l) && At(s, from, LineText(l)) && (l.eol == "" ==> from + |LineText(l)| == |s|)
    ensures from < |s| && p == Locate(s, from) && NextLine(s, p.endl) == from + |LineText(l)|
    ensures Bound(s, p) == LineBinding(l)
  {
    match l
    case Item(_, _, _, _, _, _, _) => p := ItemLocated(s, from, l);
    case Idle(_, _, _) => p := IdleLocated(s, from, l);
  }

  lemma ItemLocated(s: string, from: nat, l: Line) returns (p: Place)
    requires l.Item? && GoodItem(l) && At(s, from, LineText(l)) && (l.eol == "" ==> from + |LineText(l)| == |s|)
    ensures from < |s| && p == Locate(s, from) && NextLine(s, p.endl) == from + |LineText(l)|
    ensures Bound(s, p) == LineBinding(l)
  {
    var q := ItemParts(s, from, l);
    if l.value != "" && l.value[0] == '[' {
      ListLocated(s, from, l, q);
      ListBound(s, from, l, q, Locate(s, from));
    } else {
      ScalarLocated(s, from, l, q);
      ScalarBound(s, from, l, q, Locate(s, from));
    }
    p := Locate(s, from);
    LineEnds(s, q.end, l.eol);
  }

  lemma LineEnds(s: string, end: nat, eol: string)
    requires At(s, end, eol) && (eol == "\r\n" || eol == "" || (|eol| == 1 && eol[0] != '\r'))
    requires eol == "" ==> end == |s|
    ensures NextLine(s, end) == end + |eol|
  {
    CharsAt(s, end, eol);
    if eol != "" { assert s[end] == eol[0]; }
  }

  /** A line without '=' before a comment, with nothing before '=' or with nothing behind it sets nothing. */
  lemma IdleLocated(s: string, from: nat, l: Line) returns (p: Place)
    requires l.Idle? && GoodLine(l) && At(s, from, LineText(l)) && (l.eol == "" ==> from + |LineText(l)| == |s|)
    ensures from < |s| && p == Locate(s, from) == Nothing(p.endl) && NextLine(s, p.endl) == from + |LineText(l)|
  {
    var begin := from + |l.indent|;
    var end := begin + |l.text|;
    assert LineParts(l) == [l.indent] + ([l.text] + ([l.eol] + []));
    PartAt(s, from, l.indent, [l.text] + ([l.eol] + []));
    PartAt(s, begin, l.text, [l.eol] + []);
    PartAt(s, end, l.eol, []);
    LineEnds(s, end, l.eol);
    IdleChars(s, from, l, begin, end);
    FindIfNotIs(s, from, |s|, Whitespace, begin);
    FindIfIs(s, begin, |s|, Endline, end);
    NothingSet(s, begin, end);
    p := Nothing(end);
  }

  lemma IdleChars(s: string, from: nat, l: Line, begin: nat, end: nat)
    requires l.Idle? && GoodLine(l) && begin == from + |l.indent| && end == begin + |l.text|
    requires At(s, from, l.indent) && At(s, begin, l.text) && At(s, end, l.eol) && (l.eol == "" ==> end == |s|)
    ensures (forall i :: from <= i < begin ==> Whitespace(s[i])) && !Whitespace(s[begin])
    ensures (forall i :: begin <= i < end ==> !Endline(s[i])) && (end < |s| ==> Endline(s[end]))
    ensures s[begin] == '=' || forall i :: begin <= i < end - 1 && s[i] == '=' ==> HashBefore(s, begin, i)
  {
    CharsAt(s, from, l.indent);
    CharsAt(s, begin, l.text);
    CharsAt(s, end, l.eol);
    assert s[begin] == l.text[0];
    if l.eol != "" { assert s[end] == l.eol[0]; }
    if s[begin] != '=' {
      forall i | begin <= i < end - 1 && s[i] == '=' ensures HashBefore(s, begin, i) {
        assert l.text[i - begin] == '=' && HashBefore(l.text, 0, i - begin);
        var j :| 0 <= j < i - begin && l.text[j] == '#';
        assert s[j + begin] == '#';
      }
    }
  }

  lemma NothingSet(s: string, begin: nat, end: nat)
    requires begin < end <= |s|
    requires s[begin] == '=' || forall i :: begin <= i < end - 1 && s[i] == '=' ==> HashBefore(s, begin, i)
    ensures var endc := TrimEnd(s, begin, Find(s, begin, end, '#'), Whitespace);
            var eq := Find(s, begin, endc, '=');
            eq == endc || eq == begin || (eq + 1 == endc == end)
  {
    var hash := Find(s, begin, end, '#');
    FindFinds(s, begin, end, '#');
    var endc := TrimEnd(s, begin, hash, Whitespace);
    FindFinds(s, begin, endc, '=');
  }

  lemma TextFront(s: string, pos: nat, t: string, behind: string, text: string, rest: string)
    requires pos <= |s| && s[pos..] == text + rest && text == t + behind
    ensures At(s, pos, t) && pos + |t| <= |s| && s[pos + |t|..] == behind + rest
  {
    Associate(t, behind, rest);
    Front(s, pos, t, behind + rest);
  }

  lemma Front(s: string, pos: nat, t: string, rest: string)
    requires pos <= |s| && s[pos..] == t + rest
    ensures At(s, pos, t) && pos + |t| <= |s| && s[pos + |t|..] == rest
  {
    var all := s[pos..];
    assert all[..|t|] == t && all[|t|..] == rest;
    assert s[pos..pos + |t|] == all[..|t|] && s[pos + |t|..] == all[|t|..];
  }

  lemma NothingLeft(s: string, pos: nat, vars: Vars)
    requires pos <= |s| && White(s[pos..])
    ensures VarsFrom(s, pos, vars) == vars
  {
    if pos < |s| {
      assert forall k :: pos <= k < |s| ==> s[k] == s[pos..][k - pos];
      FindIfNotIs(s, pos, |s|, Whitespace, |s|);
    }
  }

  lemma LastLine(s: string, end: nat, lines: seq<Line>, rest: string)
    requires |lines| == 1 && rest == "" && end <= |s| && s[end..] == Text(lines[1..]) + rest
    ensures end == |s|
  {
    assert lines[1..] == [];
    assert |s[end..]| == 0;
  }

  lemma FirstParsed(s: string, pos: nat, l: Line, lines: seq<Line>, rest: string, vars: Vars) returns (next: nat)
    requires lines != [] && l == lines[0] && GoodLine(l) && (l.eol == "" ==> |lines| == 1 && rest == "")
    requires pos <= |s| && s[pos..] == Text(lines) + rest
    ensures next <= |s| && s[next..] == Text(lines[1..]) + rest
    ensures VarsFrom(s, pos, vars) == VarsFrom(s, next, With(vars, LineBinding(l)))
  {
    TextFront(s, pos, LineText(l), Text(lines[1..]), Text(lines), rest);
    next := pos + |LineText(l)|;
    if l.eol == "" { LastLine(s, next, lines, rest); }
    LineParsed(s, pos, l, LineText(l), vars, next);
  }

  lemma LineParsed(s: string, pos: nat, l: Line, t: string, vars: Vars, next: nat)
    requires GoodLine(l) && t == LineText(l) && At(s, pos, t) && next == pos + |t| && (l.eol == "" ==> next == |s|)
    ensures VarsFrom(s, pos, vars) == VarsFrom(s, next, With(vars, LineBinding(l)))
  {
    var p := LineLocated(s, pos, l);
    StepTo(s, pos, vars, p, LineBinding(l), next);
  }

  lemma StepTo(s: string, pos: nat, vars: Vars, p: Place, b: Binding, next: nat)
    requires pos < |s| && p == Locate(s, pos) && b == Bound(s, p) && next == NextLine(s, p.endl)
    ensures VarsFrom(s, pos, vars) == VarsFrom(s, next, With(vars, b))
  {
    VarsStep(s, pos, vars, p, VarsFrom(s, pos, vars));
  }

  lemma {:induction false} LinesParsed(s: string, pos: nat, lines: seq<Line>, rest: string, vars: Vars)
    requires AllGood(lines) && White(rest) && (lines != [] && lines[|lines| - 1].eol == "" ==> rest == "")
    requires pos <= |s| && s[pos..] == Text(lines) + rest
    ensures VarsFrom(s, pos, vars) == Bindings(lines, vars)
    decreases |lines|
  {
    if lines == [] {
      NothingLeft(s, pos, vars);
    } else {
      var next := FirstParsed(s, pos, lines[0], lines, rest, vars);
      GoodRest(lines);
      LinesParsed(s, next, lines[1..], rest, With(vars, LineBinding(lines[0])));
    }
  }

  /** Any well-formed text, with comments, indents and either line ending, parses to its bindings. */
  lemma ParsedText(lines: seq<Line>, rest: string)
    requires AllGood(lines) && White(rest) && (lines != [] && lines[|lines| - 1].eol == "" ==> rest == "")
    ensures VarsFrom(Text(lines) + rest, 0, map[]) == Bindings(lines, map[])
  {
    var s := Text(lines) + rest;
    assert s[0..] == s;
    LinesParsed(s, 0, lines, rest, map[]);
  }

  /** Line `i` is the first that binds `k`. */
  ghost predicate FirstOf(lines: seq<Line>, i: int, k: string) {
    && 0 <= i < |lines| && LineBinding(lines[i]).Some? && LineBinding(lines[i]).value.0 == k
    && forall j :: 0 <= j < i ==> LineBinding(lines[j]).None? || LineBinding(lines[j]).value.0 != k
  }

  /** Of a name set more than once the first line counts, and nothing is bound that no line sets. */
  lemma FirstWins(lines: seq<Line>, rest: string)
    requires AllGood(lines) && White(rest) && (lines != [] && lines[|lines| - 1].eol == "" ==> rest == "")
    ensures var vars := VarsFrom(Text(lines) + rest, 0, map[]);
      && (forall i, k :: FirstOf(lines, i, k) ==> k in vars && LineBinding(lines[i]) == Some((k, vars[k])))
      && (forall k <- vars :: exists i :: FirstOf(lines, i, k))
  {
    ParsedText(lines, rest);
    FirstBinds(lines, map[]);
  }

  lemma {:induction false} FirstBinds(lines: seq<Line>, vars: Vars)
    ensures var r := Bindings(lines, vars);
      && (forall k <- vars :: k in r && r[k] == vars[k])
      && (forall i, k :: FirstOf(lines, i, k) && k !in vars ==> k in r && LineBinding(lines[i]) == Some((k, r[k])))
      && (forall k <- r :: k in vars || exists i :: FirstOf(lines, i, k))
    decreases |lines|
  {
    if lines != [] {
      var b, more := LineBinding(lines[0]), lines[1..];
      var vars' := With(vars, b);
      FirstBinds(more, vars');
      var r := Bindings(lines, vars);
      forall i, k | FirstOf(lines, i, k) && k !in vars ensures k in r && LineBinding(lines[i]) == Some((k, r[k])) {
        if i > 0 {
          FirstBehind(lines, more, i, k);
          assert k !in vars' && FirstOf(more, i - 1, k);
        } else {
          assert b == Some((k, vars'[k])) && r[k] == vars'[k];
        }
      }
      forall k <- r | k !in vars ensures exists i :: FirstOf(lines, i, k) {
        if k in vars' {
          assert FirstOf(lines, 0, k);
        } else {
          var i :| FirstOf(more, i, k);
          FirstBefore(lines, more, i, k);
        }
      }
    }
  }

  lemma FirstBehind(lines: seq<Line>, more: seq<Line>, i: int, k: string)
    requires FirstOf(lines, i, k) && i > 0 && more == lines[1..]
    ensures FirstOf(more, i - 1, k) && LineBinding(more[i - 1]) == LineBinding(lines[i])
  {
    assert forall j :: 0 <= j < i ==> more[j] == lines[j + 1];
  }

  lemma FirstBefore(lines: seq<Line>, more: seq<Line>, i: int, k: string)
    requires lines != [] && more == lines[1..] && FirstOf(more, i, k)
    requires LineBinding(lines[0]).None? || LineBinding(lines[0]).value.0 != k
    ensures FirstOf(lines, i + 1, k)
  {
    assert forall j :: 0 <= j <= i ==> more[j] == lines[j + 1];
  }

  /** A '#' right behind the bracket of a list starts no comment: the setting behind it counts. */
  lemma CommentBehindList(l: Line, l2: Line)
    requires l.Item? && GoodItem(l) && GoodList(l.value) && l.eol == "#"
    requires GoodLine(l2) && LineBinding(l2).Some? && LineBinding(l2).value.0 != l.key
    ensures var vars := VarsFrom(LineText(l) + LineText(l2), 0, map[]); var (k, v) := LineBinding(l2).value;
            k in vars && vars[k] == v
  {
    var lines := [l, l2];
    assert lines[1..] == [l2] && [l2][1..] == [];
    assert Text([l2]) == LineText(l2) + "" == LineText(l2);
    assert Text(lines) + "" == LineText(l) + LineText(l2);
    FirstWins(lines, "");
    assert FirstOf(lines, 1, LineBinding(l2).value.0);
  }

  // ---- the round trip

  /** An item without a value is not printed; the others have a name and a value that a line can hold. */
  predicate Savable(items: seq<(string, JsonValue)>) {
    forall i :: 0 <= i < |items| ==>
      || items[i].1.Null? || items[i].1.text == ""
      || (GoodKey(items[i].0)
          && (GoodScalar(items[i].1.text) || (GoodList(items[i].1.text) && NoHash(items[i].1.text))))
  }

  lemma PrintedBinding(key: string, value: string)
    requires GoodKey(key) && (GoodScalar(value) || (GoodList(value) && NoHash(value)))
    ensures GoodLine(Printed(key, value)) && LineBinding(Printed(key, value)) == Some((key, value))
  {
    if GoodList(value) {
      KeptPlain(value, 0, |value|);
      assert value[0..|value|] == value;
    }
  }

  /** What is saved is what is loaded: every item with a value, and nothing else. */
  lemma RoundTrip(items: seq<(string, JsonValue)>)
    requires forall i, j :: 0 <= i < j < |items| ==> items[i].0 != items[j].0
    requires Savable(items)
    ensures var vars := VarsFrom(Text(Saved(items)), 0, map[]);
      && (forall i :: 0 <= i < |items| && items[i].1.Dumped? && items[i].1.text != "" ==>
            items[i].0 in vars && vars[items[i].0] == items[i].1.text)
      && (forall k <- vars :: exists i :: 0 <= i < |items| && items[i] == (k, Dumped(vars[k])) && vars[k] != "")
  {
    SavedGood(items);
    ParsedText(Saved(items), "");
    assert Text(Saved(items)) + "" == Text(Saved(items));
    SavedBindings(items, map[]);
    SavedOnly(items, map[]);
  }

  lemma {:induction false} SavedGood(items: seq<(string, JsonValue)>)
    requires Savable(items)
    ensures AllGood(Saved(items)) && forall l <- Saved(items) :: l.eol == "\n"
  {
    if items != [] {
      SavedGood(items[1..]);
      if items[0].1.Dumped? && items[0].1.text != "" { PrintedBinding(items[0].0, items[0].1.text); }
    }
  }

  /** Each item with a value is bound to it, if its name was free. */
  lemma {:induction false} SavedBindings(items: seq<(string, JsonValue)>, vars: Vars)
    requires Savable(items)
    requires forall i, j :: 0 <= i < j < |items| ==> items[i].0 != items[j].0
    requires forall i :: 0 <= i < |items| ==> items[i].0 !in vars
    ensures var r := Bindings(Saved(items), vars);
      && (forall k <- vars :: k in r && r[k] == vars[k])
      && (forall i :: 0 <= i < |items| && items[i].1.Dumped? && items[i].1.text != "" ==>
            items[i].0 in r && r[items[i].0] == items[i].1.text)
    decreases |items|
  {
    if items != [] {
      SavedBindings(items[1..], WithItem(items[0], vars));
      SavedStep(items, vars);
    }
  }

  function WithItem(item: (string, JsonValue), vars: Vars): Vars {
    if item.1.Null? || item.1.text == "" then vars else vars[item.0 := item.1.text]
  }

  lemma SavedStep(items: seq<(string, JsonValue)>, vars: Vars)
    requires items != [] && items[0].0 !in vars && Savable(items)
    ensures Bindings(Saved(items), vars) == Bindings(Saved(items[1..]), WithItem(items[0], vars))
  {
    if WithItem(items[0], vars) == vars {
      assert Saved(items) == Saved(items[1..]);
    } else {
      PrintedBinding(items[0].0, items[0].1.text);
      assert Saved(items)[1..] == Saved(items[1..]);
    }
  }

  /** Nothing else is bound. */
  lemma {:induction false} SavedOnly(items: seq<(string, JsonValue)>, vars: Vars)
    requires Savable(items)
    requires forall i, j :: 0 <= i < j < |items| ==> items[i].0 != items[j].0
    requires forall i :: 0 <= i < |items| ==> items[i].0 !in vars
    ensures var r := Bindings(Saved(items), vars);
      forall k <- r :: k in vars || exists i :: 0 <= i < |items| && items[i] == (k, Dumped(r[k])) && r[k] != ""
    decreases |items|
  {
    if items != [] {
      var rest, vars' := items[1..], WithItem(items[0], vars);
      SavedStep(items, vars);
      SavedBindings(rest, vars');
      SavedOnly(rest, vars');
      var r := Bindings(Saved(items), vars);
      forall k <- r | k !in vars ensures exists i :: 0 <= i < |items| && items[i] == (k, Dumped(r[k])) && r[k] != "" {
        if k in vars' {
          assert items[0] == (k, Dumped(r[k]));
        } else {
          var i :| 0 <= i < |rest| && rest[i] == (k, Dumped(r[k])) && r[k] != "";
          assert items[i + 1] == rest[i];
        }
      }
    }
  }
}
