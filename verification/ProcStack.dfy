/** The life of an app: execute, running and terminate of src/process.cpp, with the stack of prep commands. */
module ProcStack {
  import opened Wrappers

  datatype PrepCmd = PrepCmd(doCmd: string, undoCmd: string)

  datatype App = App(id: int, cmd: string, prepCmds: seq<PrepCmd>, detached: seq<string>, autoDetach: bool,
                     waitAll: bool)

  datatype LaunchError = NoError | PermissionDenied | OtherError

  /** What the system makes of one command: the launch, the wait and the exit code. */
  datatype Outcome = Outcome(launch: LaunchError, waitFailed: bool, exitCode: int)

  /** What happened: a do command passed (an empty one passes without running) or failed, an undo had its
      turn (an empty one without running), a detached or main command was launched. */
  datatype Event = Passed(cmd: PrepCmd) | Failed(cmd: PrepCmd) | Undone(cmd: PrepCmd) | Launched(text: string)

  // ---- the meaning of a run

  /** The commands passed and not undone after `n` events, oldest first; nothing when an undo did not fit
      the stack. */
  function StackAt(trace: seq<Event>, n: nat): Option<seq<PrepCmd>>
    requires n <= |trace|
  {
    if n == 0 then Some([]) else After(StackAt(trace, n - 1), trace[n - 1])
  }

  function Stack(trace: seq<Event>): Option<seq<PrepCmd>> {
    StackAt(trace, |trace|)
  }

  lemma {:induction false} SamePast(trace: seq<Event>, e: Event, n: nat)
    requires n <= |trace|
    ensures StackAt(trace + [e], n) == StackAt(trace, n)
  {
    if n > 0 { SamePast(trace, e, n - 1); }
  }

  function After(stack: Option<seq<PrepCmd>>, e: Event): Option<seq<PrepCmd>> {
    if stack.None? then None
    else
      match e
      case Passed(cmd) => Some(stack.value + [cmd])
      case Undone(cmd) =>
        var n := |stack.value|;
        if n > 0 && stack.value[n - 1] == cmd then Some(stack.value[..n - 1]) else None
      case _ => stack
  }

  /** The command lines given to the system. */
  function Lines(trace: seq<Event>): seq<string> {
    if trace == [] then [] else Lines(trace[..|trace| - 1]) + LineOf(trace[|trace| - 1])
  }

  function LineOf(e: Event): seq<string> {
    match e
    case Passed(cmd) => if cmd.doCmd == "" then [] else [cmd.doCmd]
    case Failed(cmd) => [cmd.doCmd]
    case Undone(cmd) => if cmd.undoCmd == "" then [] else [cmd.undoCmd]
    case Launched(text) => [text]
  }

  lemma OneMore(trace: seq<Event>, e: Event)
    ensures Stack(trace + [e]) == After(Stack(trace), e) && Lines(trace + [e]) == Lines(trace) + LineOf(e)
  {
    assert (trace + [e])[..|trace|] == trace;
    SamePast(trace, e, |trace|);
  }

  lemma {:induction false} LinesJoin(a: seq<Event>, b: seq<Event>)
    ensures Lines(a + b) == Lines(a) + Lines(b)
    decreases |b|
  {
    if b == [] {
      assert a + b == a;
    } else {
      var n := |b| - 1;
      Regroup(a, b[..n], [b[n]]);
      assert b == b[..n] + [b[n]];
      LinesJoin(a, b[..n]);
      OneMore(a + b[..n], b[n]);
    }
  }

  /** The undo commands that are not empty, last first. */
  function UndoLines(cmds: seq<PrepCmd>): seq<string> {
    if cmds == [] then []
    else
      var n := |cmds| - 1;
      (if cmds[n].undoCmd == "" then [] else [cmds[n].undoCmd]) + UndoLines(cmds[..n])
  }

  /** The do commands that are not empty, in order. */
  function DoLines(cmds: seq<PrepCmd>): seq<string> {
    if cmds == [] then []
    else
      var n := |cmds| - 1;
      DoLines(cmds[..n]) + if cmds[n].doCmd == "" then [] else [cmds[n].doCmd]
  }

  /** Line `j` is the undo command of the prep command `at[j]`, from the last prep command to the first, and only
      empty ones are left out. */
  ghost predicate LastFirst(cmds: seq<PrepCmd>, lines: seq<string>, at: seq<nat>) {
    && |at| == |lines|
    && (forall j :: 0 <= j < |at| ==> at[j] < |cmds| && lines[j] == cmds[at[j]].undoCmd)
    && (forall j, k :: 0 <= j < k < |at| ==> at[k] < at[j])
    && (forall i :: 0 <= i < |cmds| ==> (i in at <==> cmds[i].undoCmd != ""))
  }

  lemma {:induction false} UndoLinesAre(cmds: seq<PrepCmd>) returns (at: seq<nat>)
    ensures LastFirst(cmds, UndoLines(cmds), at)
  {
    at := [];
    if cmds != [] {
      var n := |cmds| - 1;
      at := UndoLinesAre(cmds[..n]);
      at := LastFirstStep(cmds[..n], cmds[n], cmds, UndoLines(cmds[..n]), at, UndoLines(cmds));
    }
  }

  lemma LastFirstStep(cmds: seq<PrepCmd>, cmd: PrepCmd, cmds': seq<PrepCmd>, lines: seq<string>, at: seq<nat>,
                      lines': seq<string>)
    returns (at': seq<nat>)
    requires LastFirst(cmds, lines, at) && cmds' == cmds + [cmd]
    requires lines' == (if cmd.undoCmd == "" then [] else [cmd.undoCmd]) + lines
    ensures LastFirst(cmds', lines', at')
  {
    at' := at;
    if cmd.undoCmd != "" {
      at' := [|cmds|] + at;
      LinesShift(cmds, cmd, cmds', lines, at, lines', at');
    }
  }

  lemma LinesShift(cmds: seq<PrepCmd>, cmd: PrepCmd, cmds': seq<PrepCmd>, lines: seq<string>, at: seq<nat>,
                   lines': seq<string>, at': seq<nat>)
    requires LastFirst(cmds, lines, at) && cmds' == cmds + [cmd] && cmd.undoCmd != ""
    requires lines' == [cmd.undoCmd] + lines && at' == [|cmds|] + at
    ensures LastFirst(cmds', lines', at')
  {
    forall j | 0 <= j < |at'|
      ensures at'[j] < |cmds'| && lines'[j] == cmds'[at'[j]].undoCmd && (j > 0 ==> at'[j] == at[j - 1] < |cmds|)
    {
    }
    forall i | 0 <= i < |cmds'| ensures i in at' <==> cmds'[i].undoCmd != "" {
      if i in at {
        var j :| 0 <= j < |at| && at[j] == i;
        assert at'[j + 1] == i;
      }
      if i == |cmds| { assert at'[0] == i; }
    }
  }

  /** Line `j` is the do command of the prep command `at[j]`, from the first to the last, and only empty ones are
      left out. */
  ghost predicate FirstFirst(cmds: seq<PrepCmd>, lines: seq<string>, at: seq<nat>) {
    && |at| == |lines|
    && (forall j :: 0 <= j < |at| ==> at[j] < |cmds| && lines[j] == cmds[at[j]].doCmd)
    && (forall j, k :: 0 <= j < k < |at| ==> at[j] < at[k])
    && (forall i :: 0 <= i < |cmds| ==> (i in at <==> cmds[i].doCmd != ""))
  }

  lemma {:induction false} DoLinesAre(cmds: seq<PrepCmd>) returns (at: seq<nat>)
    ensures FirstFirst(cmds, DoLines(cmds), at)
  {
    at := [];
    if cmds != [] {
      var n := |cmds| - 1;
      at := DoLinesAre(cmds[..n]);
      at := FirstFirstStep(cmds[..n], cmds[n], cmds, DoLines(cmds[..n]), at, DoLines(cmds));
    }
  }

  lemma FirstFirstStep(cmds: seq<PrepCmd>, cmd: PrepCmd, cmds': seq<PrepCmd>, lines: seq<string>, at: seq<nat>,
                       lines': seq<string>)
    returns (at': seq<nat>)
    requires FirstFirst(cmds, lines, at) && cmds' == cmds + [cmd]
    requires lines' == lines + if cmd.doCmd == "" then [] else [cmd.doCmd]
    ensures FirstFirst(cmds', lines', at')
  {
    at' := at;
    if cmd.doCmd != "" {
      at' := at + [|cmds|];
      LinesGrow(cmds, cmd, cmds', lines, at, lines', at');
    }
  }

  lemma LinesGrow(cmds: seq<PrepCmd>, cmd: PrepCmd, cmds': seq<PrepCmd>, lines: seq<string>, at: seq<nat>,
                  lines': seq<string>, at': seq<nat>)
    requires FirstFirst(cmds, lines, at) && cmds' == cmds + [cmd] && cmd.doCmd != ""
    requires lines' == lines + [cmd.doCmd] && at' == at + [|cmds|]
    ensures FirstFirst(cmds', lines', at')
  {
    forall j | 0 <= j < |at'|
      ensures at'[j] < |cmds'| && lines'[j] == cmds'[at'[j]].doCmd && (j < |at| ==> at'[j] == at[j] < |cmds|)
    {
    }
    forall i | 0 <= i < |cmds'| ensures i in at' <==> cmds'[i].doCmd != "" {
      if i in at {
        var j :| 0 <= j < |at| && at[j] == i;
        assert at'[j] == i;
      }
      if i == |cmds| { assert at'[|at|] == i; }
    }
  }

  lemma {:induction false} LinesOfUndos(cmds: seq<PrepCmd>)
    ensures Lines(Undos(cmds)) == UndoLines(cmds)
  {
    if cmds != [] {
      var n := |cmds| - 1;
      assert Undos(cmds) == [Undone(cmds[n])] + Undos(cmds[..n]);
      LinesOfUndos(cmds[..n]);
      LinesJoin([Undone(cmds[n])], Undos(cmds[..n]));
      OneMore([], Undone(cmds[n]));
    }
  }

  lemma {:induction false} LinesOfPasses(cmds: seq<PrepCmd>)
    ensures Lines(Passes(cmds)) == DoLines(cmds)
  {
    if cmds != [] {
      var n := |cmds| - 1;
      assert Passes(cmds) == Passes(cmds[..n]) + [Passed(cmds[n])];
      LinesOfPasses(cmds[..n]);
      OneMore(Passes(cmds[..n]), Passed(cmds[n]));
    }
  }

  lemma {:induction false} LinesOfLaunches(texts: seq<string>)
    ensures Lines(Launches(texts)) == texts
  {
    if texts != [] {
      var n := |texts| - 1;
      assert Launches(texts) == Launches(texts[..n]) + [Launched(texts[n])];
      LinesOfLaunches(texts[..n]);
      OneMore(Launches(texts[..n]), Launched(texts[n]));
      assert texts == texts[..n] + [texts[n]];
    }
  }

  function Passes(cmds: seq<PrepCmd>): seq<Event> {
    seq(|cmds|, i requires 0 <= i < |cmds| => Passed(cmds[i]))
  }

  /** Undone in reverse. */
  function Undos(cmds: seq<PrepCmd>): seq<Event> {
    seq(|cmds|, i requires 0 <= i < |cmds| => Undone(cmds[|cmds| - 1 - i]))
  }

  function Launches(texts: seq<string>): seq<Event> {
    seq(|texts|, i requires 0 <= i < |texts| => Launched(texts[i]))
  }

  lemma UndoNext(trace: seq<Event>, cmds: seq<PrepCmd>, n: nat)
    requires n < |cmds|
    ensures trace + Undos(cmds[..n + 1]) == trace + [Undone(cmds[n])] + Undos(cmds[..n])
  {
    assert Undos(cmds[..n + 1]) == [Undone(cmds[n])] + Undos(cmds[..n]);
    Regroup(trace, [Undone(cmds[n])], Undos(cmds[..n]));
  }

  lemma NoUndo(trace: seq<Event>, cmds: seq<PrepCmd>)
    ensures trace + Undos(cmds[..0]) == trace
  {
  }

  lemma NextPass(cmds: seq<PrepCmd>, n: nat)
    requires n < |cmds|
    ensures Passes(cmds[..n + 1]) == Passes(cmds[..n]) + [Passed(cmds[n])]
  {
  }

  lemma NextLaunch(texts: seq<string>, n: nat)
    requires n < |texts|
    ensures Launches(texts[..n + 1]) == Launches(texts[..n]) + [Launched(texts[n])]
  {
  }

  lemma UndoTop(cmds: seq<PrepCmd>, n: nat)
    requires n < |cmds|
    ensures After(Some(cmds[..n + 1]), Undone(cmds[n])) == Some(cmds[..n])
  {
    assert cmds[..n + 1][..n] == cmds[..n];
  }

  lemma PassPush(cmds: seq<PrepCmd>, n: nat)
    requires n < |cmds|
    ensures After(Some(cmds[..n]), Passed(cmds[n])) == Some(cmds[..n + 1])
  {
    assert cmds[..n] + [cmds[n]] == cmds[..n + 1];
  }

  lemma Regroup(a: seq<Event>, b: seq<Event>, c: seq<Event>)
    ensures a + (b + c) == a + b + c
  {
  }

  // ---- what a stack says about its trace

  lemma {:induction false} Prefixes(trace: seq<Event>, n: nat)
    requires n <= |trace| && Stack(trace).Some?
    ensures StackAt(trace, n).Some?
    decreases |trace| - n
  {
    if n < |trace| { Prefixes(trace, n + 1); }
  }

  function Height(trace: seq<Event>, n: nat): nat
    requires n <= |trace|
  {
    if StackAt(trace, n).Some? then |StackAt(trace, n).value| else 0
  }

  /** Event `i` passed `cmd`, and up to event `n` nothing below it was undone. */
  ghost predicate Matches(trace: seq<Event>, i: nat, n: nat, cmd: PrepCmd) {
    i < n <= |trace| && trace[i] == Passed(cmd) && forall k :: i < k <= n ==> Height(trace, k) > Height(trace, i)
  }

  /** What the stack was before an event, from what it is after it. */
  lemma Before(stack: Option<seq<PrepCmd>>, e: Event, s: seq<PrepCmd>, cmd: PrepCmd)
    requires After(stack, e) == Some(s + [cmd])
    ensures match e
            case Passed(c) => stack == Some(s) && c == cmd
            case Undone(c) => stack == Some(s + [cmd] + [c])
            case _ => stack == Some(s + [cmd])
  {
    var st := stack.value;
    match e
    case Passed(c) => assert st == (st + [c])[..|st|] && s == (s + [cmd])[..|s|];
    case Undone(c) => assert st == st[..|st| - 1] + [c];
    case _ =>
  }

  /** The top of the stack was put there by the last pass that is not undone. */
  lemma {:induction false} TopPassed(trace: seq<Event>, n: nat, s: seq<PrepCmd>, cmd: PrepCmd) returns (i: nat)
    requires n <= |trace| && StackAt(trace, n) == Some(s + [cmd])
    ensures Matches(trace, i, n, cmd) && StackAt(trace, i) == Some(s)
    decreases n
  {
    assert n > 0;
    Before(StackAt(trace, n - 1), trace[n - 1], s, cmd);
    match trace[n - 1]
    case Passed(_) =>
      i := n - 1;
      MatchesNow(trace, i, cmd);
    case Undone(c) =>
      var below := TopPassed(trace, n - 1, s + [cmd], c);
      i := TopPassed(trace, below, s, cmd);
      MatchesOn(trace, i, below, n - 1, cmd, c);
    case _ =>
      i := TopPassed(trace, n - 1, s, cmd);
      MatchesStill(trace, i, n - 1, cmd);
  }

  lemma MatchesNow(trace: seq<Event>, n: nat, cmd: PrepCmd)
    requires n < |trace| && trace[n] == Passed(cmd) && Height(trace, n + 1) > Height(trace, n)
    ensures Matches(trace, n, n + 1, cmd)
  {
  }

  lemma MatchesStill(trace: seq<Event>, i: nat, n: nat, cmd: PrepCmd)
    requires n < |trace| && Matches(trace, i, n, cmd) && Height(trace, n + 1) == Height(trace, n)
    ensures Matches(trace, i, n + 1, cmd)
  {
  }

  lemma MatchesOn(trace: seq<Event>, i: nat, below: nat, n: nat, cmd: PrepCmd, undone: PrepCmd)
    requires n < |trace| && Matches(trace, i, below, cmd) && Matches(trace, below, n, undone)
    requires Height(trace, n + 1) == Height(trace, below)
    ensures Matches(trace, i, n + 1, cmd)
  {
  }

  /** Every undo undoes the latest pass not yet undone: it is of the same command, everything passed since
      has been undone, and the stack is back where it was before that pass. */
  lemma LastInFirstOut(trace: seq<Event>, j: nat) returns (i: nat)
    requires Stack(trace).Some? && j < |trace| && trace[j].Undone?
    ensures Matches(trace, i, j, trace[j].cmd) && StackAt(trace, i) == StackAt(trace, j + 1)
  {
    Prefixes(trace, j);
    Prefixes(trace, j + 1);
    var s := StackAt(trace, j).value;
    assert s == s[..|s| - 1] + [trace[j].cmd];
    i := TopPassed(trace, j, s[..|s| - 1], trace[j].cmd);
  }

  /** Nothing is undone more often than it passed; the difference is what is on the stack. A command that
      only ever failed is never undone. */
  lemma {:induction false} Conserved(trace: seq<Event>, cmd: PrepCmd)
    requires Stack(trace).Some?
    ensures multiset(trace)[Passed(cmd)] == multiset(trace)[Undone(cmd)] + multiset(Stack(trace).value)[cmd]
    decreases |trace|
  {
    if trace != [] {
      var n := |trace| - 1;
      assert trace == trace[..n] + [trace[n]];
      OneMore(trace[..n], trace[n]);
      Conserved(trace[..n], cmd);
      Balance(Stack(trace[..n]).value, trace[n], cmd);
    }
  }

  lemma Balance(stack: seq<PrepCmd>, e: Event, cmd: PrepCmd)
    requires After(Some(stack), e).Some?
    ensures multiset(After(Some(stack), e).value)[cmd] + (if e == Undone(cmd) then 1 else 0)
         == multiset(stack)[cmd] + (if e == Passed(cmd) then 1 else 0)
  {
    if e.Undone? { assert stack == After(Some(stack), e).value + [e.cmd]; }
  }

  /** A do command stops the launch. A permission error is let through for the desktop. */
  predicate Stops(cmd: PrepCmd, outcome: Outcome, desktop: bool) {
    && cmd.doCmd != ""
    && ((outcome.launch != NoError && !(desktop && outcome.launch == PermissionDenied))
        || outcome.waitFailed || outcome.exitCode != 0)
  }

  /** The first do command from `i` on that stops the launch. */
  function FirstStop(app: App, outcomes: nat -> Outcome, i: nat): (r: nat)
    requires i <= |app.prepCmds|
    ensures i <= r <= |app.prepCmds|
    ensures r < |app.prepCmds| ==> Stops(app.prepCmds[r], outcomes(r), app.cmd == "")
    ensures forall k :: i <= k < r ==> !Stops(app.prepCmds[k], outcomes(k), app.cmd == "")
    decreases |app.prepCmds| - i
  {
    if i == |app.prepCmds| || Stops(app.prepCmds[i], outcomes(i), app.cmd == "") then i
    else FirstStop(app, outcomes, i + 1)
  }

  /** std::find_if over the apps. */
  function FindApp(apps: seq<App>, id: int): (r: nat)
    ensures r <= |apps| && (r < |apps| ==> apps[r].id == id) && forall k :: 0 <= k < r ==> apps[k].id != id
    decreases |apps|
  {
    if apps == [] || apps[0].id == id then 0
    else
      var rest := FindApp(apps[1..], id);
      assert forall k :: 1 <= k < rest + 1 ==> apps[k] == apps[1..][k - 1];
      rest + 1
  }

  /** The do commands of an execution. */
  function Preparation(app: App, outcomes: nat -> Outcome): seq<Event> {
    var stop := FirstStop(app, outcomes, 0);
    Passes(app.prepCmds[..stop]) + if stop < |app.prepCmds| then [Failed(app.prepCmds[stop])] else []
  }

  lemma Stopped(app: App, outcomes: nat -> Outcome, i: nat)
    requires i < |app.prepCmds| && FirstStop(app, outcomes, i) == FirstStop(app, outcomes, 0)
    requires Stops(app.prepCmds[i], outcomes(i), app.cmd == "")
    ensures FirstStop(app, outcomes, 0) == i
    ensures Preparation(app, outcomes) == Passes(app.prepCmds[..i]) + [Failed(app.prepCmds[i])]
  {
  }

  lemma AllPass(app: App, outcomes: nat -> Outcome)
    requires FirstStop(app, outcomes, 0) == |app.prepCmds|
    ensures Preparation(app, outcomes) == Passes(app.prepCmds[..|app.prepCmds|])
  {
  }

  /** What follows them: the launches and, when something failed, the undo commands. */
  function Conclusion(app: App, outcomes: nat -> Outcome, mainFails: bool): seq<Event> {
    var stop := FirstStop(app, outcomes, 0);
    if stop < |app.prepCmds| then Undos(app.prepCmds[..stop])
    else if app.cmd == "" then Launches(app.detached)
    else Launches(app.detached) + ([Launched(app.cmd)] + if mainFails then Undos(app.prepCmds) else [])
  }

  lemma ConclusionIs(before: seq<Event>, app: App, outcomes: nat -> Outcome, mainFails: bool)
    requires FirstStop(app, outcomes, 0) == |app.prepCmds| && app.cmd != ""
    ensures var up := before + Launches(app.detached) + [Launched(app.cmd)];
      before + Conclusion(app, outcomes, mainFails)
      == if mainFails then up + Undos(app.prepCmds[..|app.prepCmds|]) else up
  {
    var launched, main := Launches(app.detached), [Launched(app.cmd)];
    var undos := if mainFails then Undos(app.prepCmds) else [];
    assert app.prepCmds[..|app.prepCmds|] == app.prepCmds;
    Regroup(launched, main, undos);
    Regroup(before, launched + main, undos);
    Regroup(before, launched, main);
    assert before + launched + main + [] == before + launched + main;
  }

  /** The command lines of an execution: the do commands, also the one that stops it; then, if none did, the
      detached commands and the main one; and the undo commands of what passed, if anything failed. */
  function ExecutionLines(app: App, outcomes: nat -> Outcome, mainFails: bool): seq<string> {
    var stop := FirstStop(app, outcomes, 0);
    if stop < |app.prepCmds| then DoLines(app.prepCmds[..stop + 1]) + UndoLines(app.prepCmds[..stop])
    else
      DoLines(app.prepCmds) + app.detached
      + (if app.cmd == "" then [] else [app.cmd])
      + if app.cmd != "" && mainFails then UndoLines(app.prepCmds) else []
  }

  lemma LinesOfExecution(app: App, outcomes: nat -> Outcome, mainFails: bool)
    ensures Lines(Preparation(app, outcomes) + Conclusion(app, outcomes, mainFails))
         == ExecutionLines(app, outcomes, mainFails)
  {
    var stop := FirstStop(app, outcomes, 0);
    LinesJoin(Preparation(app, outcomes), Conclusion(app, outcomes, mainFails));
    if stop < |app.prepCmds| {
      LinesOfStop(app, outcomes, stop);
      LinesOfUndos(app.prepCmds[..stop]);
    } else {
      AllPass(app, outcomes);
      assert app.prepCmds[..|app.prepCmds|] == app.prepCmds;
      LinesOfPasses(app.prepCmds);
      LinesOfConclusion(app, outcomes, mainFails);
      RegroupMore(DoLines(app.prepCmds), app.detached, if app.cmd == "" then [] else [app.cmd],
                  if app.cmd != "" && mainFails then UndoLines(app.prepCmds) else []);
    }
  }

  lemma LinesOfRun(before: seq<Event>, app: App, outcomes: nat -> Outcome, mainFails: bool)
    ensures Lines(before + Preparation(app, outcomes) + Conclusion(app, outcomes, mainFails))
         == Lines(before) + ExecutionLines(app, outcomes, mainFails)
  {
    Regroup(before, Preparation(app, outcomes), Conclusion(app, outcomes, mainFails));
    LinesJoin(before, Preparation(app, outcomes) + Conclusion(app, outcomes, mainFails));
    LinesOfExecution(app, outcomes, mainFails);
  }

  lemma LinesOfStop(app: App, outcomes: nat -> Outcome, stop: nat)
    requires stop == FirstStop(app, outcomes, 0) < |app.prepCmds|
    ensures Lines(Preparation(app, outcomes)) == DoLines(app.prepCmds[..stop + 1])
  {
    LinesOfPasses(app.prepCmds[..stop]);
    OneMore(Passes(app.prepCmds[..stop]), Failed(app.prepCmds[stop]));
    assert app.prepCmds[..stop + 1][..stop] == app.prepCmds[..stop];
  }

  lemma LinesOfConclusion(app: App, outcomes: nat -> Outcome, mainFails: bool)
    requires FirstStop(app, outcomes, 0) == |app.prepCmds|
    ensures Lines(Conclusion(app, outcomes, mainFails)) == app.detached + (if app.cmd == "" then [] else [app.cmd])
      + if app.cmd != "" && mainFails then UndoLines(app.prepCmds) else []
  {
    LinesOfLaunches(app.detached);
    if app.cmd == "" {
      NoMore(app.detached);
    } else {
      var undos := if mainFails then Undos(app.prepCmds) else [];
      LinesOfUndos(app.prepCmds);
      LinesOfMain(app, undos);
    }
  }

  lemma LinesOfMain(app: App, undos: seq<Event>)
    ensures Lines(Launches(app.detached) + ([Launched(app.cmd)] + undos)) == app.detached + [app.cmd] + Lines(undos)
  {
    LinesOfLaunches(app.detached);
    LinesJoin(Launches(app.detached), [Launched(app.cmd)] + undos);
    LinesJoin([Launched(app.cmd)], undos);
    OneMore([], Launched(app.cmd));
    RegroupLines(app.detached, [app.cmd], Lines(undos));
  }

  lemma RegroupMore(a: seq<string>, b: seq<string>, c: seq<string>, d: seq<string>)
    ensures a + (b + c + d) == a + b + c + d
  {
  }

  lemma NoMore(a: seq<string>)
    ensures a + [] + [] == a
  {
  }

  lemma RegroupLines(a: seq<string>, b: seq<string>, c: seq<string>)
    ensures a + (b + c) == a + b + c
  {
  }

  predicate Starts(app: App, outcomes: nat -> Outcome, mainFails: bool) {
    FirstStop(app, outcomes, 0) == |app.prepCmds| && (app.cmd != "" ==> !mainFails)
  }

  class Proc {
    const apps: seq<App>
    var appId: int
    var app: App
    var prepIt: nat
    var placebo: bool
    /** A main process was started and not yet let go. */
    var process: bool
    /** Every command line given to the system. */
    var ran: seq<string>
    ghost var trace: seq<Event>

    /** In every state the commands passed but not undone are the prep commands before `prepIt`, and there
        are none unless an app is live. */
    ghost predicate Valid()
      reads this
    {
      && prepIt <= |app.prepCmds|
      && Stack(trace) == Some(app.prepCmds[..prepIt])
      && ran == Lines(trace)
    }

    ghost predicate Idle()
      reads this
    {
      prepIt == 0 && !placebo && !process
    }

    ghost predicate Settled()
      reads this
    {
      Valid() && (Idle() || (prepIt == |app.prepCmds| && (placebo || process)))
    }

    constructor (apps: seq<App>)
      ensures Settled() && Idle() && this.apps == apps && trace == []
    {
      this.apps := apps;
      appId, app, prepIt, placebo, process := 0, App(0, "", [], [], false, false), 0, false, false;
      ran, trace := [], [];
    }

    /** Notes what the line just given to the system, if any, was for. */
    ghost method Note(e: Event)
      requires ran == Lines(trace) + LineOf(e)
      modifies `trace
      ensures trace == old(trace) + [e] && ran == Lines(trace) && Stack(trace) == After(old(Stack(trace)), e)
    {
      OneMore(trace, e);
      trace := trace + [e];
    }

    method UndoOne()
      requires Valid() && prepIt > 0
      modifies `prepIt, `ran, `trace
      ensures Valid() && prepIt == old(prepIt) - 1 && trace == old(trace) + [Undone(app.prepCmds[prepIt])]
    {
      UndoTop(app.prepCmds, prepIt - 1);
      var cmd := app.prepCmds[prepIt - 1];
      if cmd.undoCmd != "" {
        ran := ran + [cmd.undoCmd];
      }
      Note(Undone(cmd));
      prepIt := prepIt - 1;
    }

    /** The undo commands in reverse. */
    method UndoAll()
      requires Valid()
      modifies `prepIt, `ran, `trace
      ensures Valid() && prepIt == 0 && trace == old(trace + Undos(app.prepCmds[..prepIt]))
      ensures ran == old(ran + UndoLines(app.prepCmds[..prepIt]))
    {
      ghost var goal := trace + Undos(app.prepCmds[..prepIt]);
      while prepIt != 0
        invariant Valid()
        invariant trace + Undos(app.prepCmds[..prepIt]) == goal
      {
        UndoNext(trace, app.prepCmds, prepIt - 1);
        UndoOne();
      }
      NoUndo(trace, app.prepCmds);
      LinesJoin(old(trace), old(Undos(app.prepCmds[..prepIt])));
      LinesOfUndos(old(app.prepCmds[..prepIt]));
    }

    /** The process goes first, then what its prep commands did. */
    method Terminate()
      requires Valid()
      modifies `appId, `prepIt, `placebo, `process, `ran, `trace
      ensures Settled() && Idle() && appId == -1
      ensures ran == old(ran + UndoLines(app.prepCmds[..prepIt]))
      ensures trace == old(trace + Undos(app.prepCmds[..prepIt]))
    {
      placebo, process := false, false;
      UndoAll();
      appId := -1;
    }

    /** One turn of the loop over the prep commands: a failing one keeps its place. */
    method RunPrepCmd(outcome: Outcome) returns (ok: bool)
      requires Valid() && prepIt < |app.prepCmds|
      modifies `prepIt, `ran, `trace
      ensures Valid() && ok == !Stops(app.prepCmds[old(prepIt)], outcome, app.cmd == "")
      ensures var did := outcome.launch == NoError || (outcome.launch == PermissionDenied && app.cmd == "");
        ok <==> app.prepCmds[old(prepIt)].doCmd == "" || (did && !outcome.waitFailed && outcome.exitCode == 0)
      ensures ran == old(ran) + var line := app.prepCmds[old(prepIt)].doCmd; if line == "" then [] else [line]
      ensures prepIt == old(prepIt) + (if ok then 1 else 0)
      ensures trace == old(trace) + [if ok then Passed(app.prepCmds[old(prepIt)])
                                     else Failed(app.prepCmds[old(prepIt)])]
    {
      var cmd := app.prepCmds[prepIt];
      if cmd.doCmd != "" {
        ran := ran + [cmd.doCmd];
        if outcome.launch != NoError && !(app.cmd == "" && outcome.launch == PermissionDenied) {
          Note(Failed(cmd));
          return false;
        }
        if outcome.waitFailed || outcome.exitCode != 0 {
          Note(Failed(cmd));
          return false;
        }
      }
      PassPush(app.prepCmds, prepIt);
      Note(Passed(cmd));
      prepIt := prepIt + 1;
      return true;
    }

    /** The do commands from the first on, up to one that stops. */
    method RunPrepCmds(outcomes: nat -> Outcome) returns (ok: bool)
      requires Valid() && prepIt == 0
      modifies `prepIt, `ran, `trace
      ensures Valid() && prepIt == FirstStop(app, outcomes, 0) && ok == (prepIt == |app.prepCmds|)
      ensures trace == old(trace) + Preparation(app, outcomes)
    {
      while prepIt != |app.prepCmds|
        invariant Valid() && FirstStop(app, outcomes, prepIt) == FirstStop(app, outcomes, 0)
        invariant trace == old(trace) + Passes(app.prepCmds[..prepIt])
        decreases |app.prepCmds| - prepIt
      {
        ghost var i, done := prepIt, Passes(app.prepCmds[..prepIt]);
        ok := RunPrepCmd(outcomes(prepIt));
        if !ok {
          Stopped(app, outcomes, i);
          Regroup(old(trace), done, [Failed(app.prepCmds[i])]);
          return;
        }
        NextPass(app.prepCmds, i);
        Regroup(old(trace), done, [Passed(app.prepCmds[i])]);
      }
      AllPass(app, outcomes);
      return true;
    }

    method LaunchDetached()
      requires Valid()
      modifies `ran, `trace
      ensures Valid() && trace == old(trace) + Launches(app.detached)
    {
      for i := 0 to |app.detached|
        invariant Valid() && trace == old(trace) + Launches(app.detached[..i])
      {
        NextLaunch(app.detached, i);
        Regroup(old(trace), Launches(app.detached[..i]), [Launched(app.detached[i])]);
        ran := ran + [app.detached[i]];
        Note(Launched(app.detached[i]));
      }
      assert app.detached[..|app.detached|] == app.detached;
    }

    method Execute(id: int, outcomes: nat -> Outcome, mainFails: bool) returns (r: int)
      requires Valid()
      modifies this
      ensures Settled()
      ensures var a := FindApp(apps, id);
        var cleared := old(trace + Undos(app.prepCmds[..prepIt]));
        if a == |apps| then
          r == 404 && Idle() && trace == cleared && ran == old(ran + UndoLines(app.prepCmds[..prepIt]))
        else
          && app == apps[a]
          && ran == old(ran + UndoLines(app.prepCmds[..prepIt])) + ExecutionLines(app, outcomes, mainFails)
          && trace == cleared + Preparation(app, outcomes) + Conclusion(app, outcomes, mainFails)
          && (Starts(app, outcomes, mainFails) ==>
                r == 0 && appId == id && prepIt == |app.prepCmds| && placebo == (app.cmd == "")
                  && process == (app.cmd != ""))
          && (!Starts(app, outcomes, mainFails) ==> r == -1 && Idle())
    {
      Terminate();
      var iter := FindApp(apps, id);
      if iter == |apps| {
        return 404;
      }
      appId, app, prepIt := id, apps[iter], 0;
      var ok := Launch(outcomes, mainFails);
      return if ok then 0 else -1;
    }

    method Launch(outcomes: nat -> Outcome, mainFails: bool) returns (ok: bool)
      requires Valid() && Idle()
      modifies `appId, `prepIt, `placebo, `process, `ran, `trace
      ensures Settled() && trace == old(trace) + Preparation(app, outcomes) + Conclusion(app, outcomes, mainFails)
      ensures ran == old(ran) + ExecutionLines(app, outcomes, mainFails)
      ensures ok == Starts(app, outcomes, mainFails)
      ensures ok ==>
        appId == old(appId) && prepIt == |app.prepCmds| && placebo == (app.cmd == "") && process == !placebo
      ensures !ok ==> Idle()
    {
      ok := RunPrepCmds(outcomes);
      if ok {
        ok := LaunchApp(outcomes, mainFails);
      } else {
        Terminate();
      }
      LinesOfRun(old(trace), app, outcomes, mainFails);
    }

    /** The detached commands, and then the main one, if there is one. */
    method LaunchApp(outcomes: nat -> Outcome, mainFails: bool) returns (ok: bool)
      requires Valid() && !placebo && !process && prepIt == |app.prepCmds| == FirstStop(app, outcomes, 0)
      modifies `appId, `prepIt, `placebo, `process, `ran, `trace
      ensures Settled() && trace == old(trace) + Conclusion(app, outcomes, mainFails)
      ensures ok == (app.cmd != "" ==> !mainFails)
      ensures ok ==>
        appId == old(appId) && prepIt == |app.prepCmds| && placebo == (app.cmd == "") && process == !placebo
      ensures !ok ==> Idle()
    {
      LaunchDetached();
      if app.cmd == "" {
        placebo := true;
        return true;
      }
      ConclusionIs(old(trace), app, outcomes, mainFails);
      LaunchMain(mainFails);
      return !mainFails;
    }

    method LaunchMain(fails: bool)
      requires Valid() && !placebo && !process && prepIt == |app.prepCmds|
      modifies `appId, `prepIt, `placebo, `process, `ran, `trace
      ensures var up := old(trace) + [Launched(app.cmd)];
        if fails then Settled() && Idle() && trace == up + Undos(app.prepCmds[..|app.prepCmds|])
        else Valid() && process && !placebo && prepIt == old(prepIt) && appId == old(appId) && trace == up
    {
      ran := ran + [app.cmd];
      Note(Launched(app.cmd));
      process := true;
      if fails {
        Terminate();
      }
    }

    /** Whether the app is still there, from what the system says of its process; cleans up when it is not. */
    method Running(groupRunning: bool, childRunning: bool, exitedWell: bool) returns (r: int)
      requires Settled()
      modifies this
      ensures Settled() && app == old(app)
      ensures var there := old(placebo) || (old(process)
                                            && ((app.waitAll && groupRunning) || childRunning
                                                || (app.autoDetach && exitedWell)));
        if there then r == appId == old(appId) && ran == old(ran) && trace == old(trace) && prepIt == old(prepIt)
        else
          r == 0 && Idle() && ran == old(ran + UndoLines(app.prepCmds[..prepIt]))
          && trace == old(trace + Undos(app.prepCmds[..prepIt]))
    {
      if placebo {
        return appId;
      } else if app.waitAll && process && groupRunning {
        return appId;
      } else if process && childRunning {
        return appId;
      } else if app.autoDetach && process && exitedWell {
        placebo := true;
        return appId;
      }
      if process {
        Terminate();
      }
      return 0;
    }
  }
}
