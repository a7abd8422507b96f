/** The line executor of kernel.c with the micro-shell of microshell.c behind it: what one call runs when
    its line has been cut off from a longer text, and what a whole program runs. */
module ShellPrograms {
  import opened Text
  import opened ShellCuts
  import opened ShellSyntax
  import opened Shell
  import opened ShellRuns
  import opened Executor
  import Tokenizer

  // ---------- One call ----------

  predicate IsLine(s: string, line: Tokenizer.Run) {
    line.start <= line.end <= |s|
  }

  /** The text when a call is made on one of its lines: the newline behind the line has become a NUL. */
  function Cut(s: string, line: Tokenizer.Run): string
    requires IsLine(s, line)
  {
    if line.end < |s| then s[line.end := NUL] else s
  }

  /** `msh_execute` on a line: a run from its first character, in the text as it stands then. */
  function Call(s: string, line: Tokenizer.Run, m: Memory): RunResult
    requires IsLine(s, line)
  {
    Run(Cut(s, line), line.start, m)
  }

  lemma CutParts(s: string, line: Tokenizer.Run)
    requires IsLine(s, line)
    ensures
      Cut(s, line) ==
        s[..line.start] +
        if line.end < |s| then Followed(TextAt(s, line), s[line.end + 1..]) else TextAt(s, line)
  {
  }

  /** The line ends in a newline and has a statement head with only blanks behind it. */
  predicate Leaves(s: string, line: Tokenizer.Run)
    requires IsLine(s, line)
  {
    line.end < |s| && HeadBeforeBlanks(TextAt(s, line), 0)
  }

  /** A call runs its line alone, unless the line leaves itself and no assignment before that fails: then all
      that is left of the text runs in it as one program. */
  lemma CallReaches(s: string, line: Tokenizer.Run, m: Memory)
    requires IsLine(s, line)
    ensures
      var text := TextAt(s, line);
      Call(s, line, m) ==
        if Leaves(s, line) && AllAssign(text, 0, m)
        then Moved(Run(s[line.end + 1..], 0, Run(text, 0, m).mem), line.end + 1)
        else Moved(Run(text, 0, m), line.start)
  {
    hide Run, HeadBeforeBlanks, AllAssign, Cut, Followed;
    var pre, text := s[..line.start], TextAt(s, line);
    CutParts(s, line);
    RunStops(text, 0, m);
    if line.end < |s| {
      RunInside(pre, text, s[line.end + 1..], m);
    } else {
      RunMoved(pre, text, 0, m);
    }
  }

  // ---------- All calls of a program ----------

  /** The texts the shell was called with, how the calls ended, and what they left in memory. */
  datatype Ran = Ran(calls: seq<string>, exits: seq<Exit>, mem: Memory)

  /** One call a line; a line that fails and ends in a newline is called once more. */
  function RunLines(s: string, lines: seq<Tokenizer.Run>, m: Memory): (r: Ran)
    requires AreLines(s, lines)
    ensures |r.exits| == |r.calls|
    decreases |lines|
  {
    if lines == [] then Ran([], [], m)
    else
      var text, r := TextAt(s, lines[0]), Call(s, lines[0], m);
      if r.exit == Returned(true) then
        var rest := RunLines(s, lines[1..], r.mem);
        Ran([text] + rest.calls, [r.exit] + rest.exits, rest.mem)
      else if r.exit == Returned(false) && lines[0].end < |s| then
        var again := Call(s, lines[0], r.mem);
        Ran([text, text], [r.exit, again.exit], again.mem)
      else Ran([text], [r.exit], r.mem)
  }

  predicate AreLines(s: string, lines: seq<Tokenizer.Run>) {
    forall k :: 0 <= k < |lines| ==> IsLine(s, lines[k])
  }

  /** The lines of a text are lines. */
  lemma LinesOf(s: string)
    ensures AreLines(s, Lines(s, 0))
  {
    hide Tokenizer.Runs;
    Tokenizer.RunsAreMaximal(s, 0, "\n");
    forall k | 0 <= k < |Lines(s, 0)|
      ensures IsLine(s, Lines(s, 0)[k])
    {
      assert Lines(s, 0)[k] in Tokenizer.Runs(s, 0, "\n");
    }
  }

  predicate AllReturn(exits: seq<Exit>) {
    forall j :: 0 <= j < |exits| ==> exits[j].Returned?
  }

  predicate AllSucceed(exits: seq<Exit>) {
    forall j :: 0 <= j < |exits| ==> exits[j] == Returned(true)
  }

  predicate NeverOverran(exits: seq<Exit>) {
    forall j :: 0 <= j < |exits| ==> exits[j] != Overran
  }

  lemma OneMoreExit(exit: Exit, rest: seq<Exit>)
    ensures AllSucceed([exit] + rest) <==> exit == Returned(true) && AllSucceed(rest)
    ensures AllReturn([exit] + rest) <==> exit.Returned? && AllReturn(rest)
    ensures NeverOverran([exit] + rest) <==> exit != Overran && NeverOverran(rest)
  {
    var exits := [exit] + rest;
    assert exits[0] == exit;
    forall j | 0 <= j < |rest|
      ensures exits[j + 1] == rest[j]
    {
    }
    assert forall j :: 0 < j < |exits| ==> exits[j] == rest[j - 1];
  }

  lemma NoExit()
    ensures AllSucceed([]) && AllReturn([]) && NeverOverran([])
  {
  }

  lemma TwoExits(first: Exit, second: Exit)
    ensures AllSucceed([first, second]) ==> first == Returned(true)
    ensures AllReturn([first, second]) <==> first.Returned? && second.Returned?
    ensures NeverOverran([first, second]) <==> first != Overran && second != Overran
  {
    assert [first, second][0] == first && [first, second][1] == second;
  }

  lemma OneExit(exit: Exit)
    ensures AllSucceed([exit]) <==> exit == Returned(true)
    ensures AllReturn([exit]) <==> exit.Returned?
    ensures NeverOverran([exit]) <==> exit != Overran
  {
    assert [exit][0] == exit;
  }

  /** From the k-th call on the verdicts are those of the shell, for the calls that return at all. */
  predicate Verdicts(exits: seq<Exit>, k: nat, verdict: nat -> bool) {
    forall j :: 0 <= j < |exits| && exits[j].Returned? ==> verdict(k + j) == exits[j].ok
  }

  /** The executor over the shell's own verdicts makes these calls, one after the other, up to one that does
      not return; if all return it makes no others, and its result is whether all of them succeed. */
  lemma {:induction false} PlanIsRun(s: string, lines: seq<Tokenizer.Run>, m: Memory, k: nat, verdict: nat -> bool)
    requires AreLines(s, lines) && Verdicts(RunLines(s, lines, m).exits, k, verdict)
    ensures
      var plan, r := Plan(s, lines, k, verdict), RunLines(s, lines, m);
      && r.calls <= plan.calls
      && (AllReturn(r.exits) ==> plan.calls == r.calls && (plan.ok <==> AllSucceed(r.exits)))
    decreases |lines|
  {
    hide Call, AllReturn, AllSucceed;
    if lines != [] {
      var r := Call(s, lines[0], m);
      var exits := RunLines(s, lines, m).exits;
      assert exits[0] == r.exit && (r.exit.Returned? ==> verdict(k + 0) == exits[0].ok);
      if r.exit == Returned(true) {
        var rest := RunLines(s, lines[1..], r.mem).exits;
        LaterVerdicts(r.exit, rest, k, verdict);
        PlanIsRun(s, lines[1..], r.mem, k + 1, verdict);
        OneMoreExit(r.exit, rest);
      } else if r.exit == Returned(false) && lines[0].end < |s| {
        TwoExits(r.exit, Call(s, lines[0], r.mem).exit);
      } else {
        OneExit(r.exit);
      }
    } else {
      NoExit();
    }
  }

  lemma LaterVerdicts(exit: Exit, rest: seq<Exit>, k: nat, verdict: nat -> bool)
    requires Verdicts([exit] + rest, k, verdict)
    ensures Verdicts(rest, k + 1, verdict)
  {
    var exits := [exit] + rest;
    forall j | 0 <= j < |rest| && rest[j].Returned?
      ensures verdict(k + 1 + j) == rest[j].ok
    {
      assert exits[j + 1] == rest[j] && verdict(k + (j + 1)) == exits[j + 1].ok;
    }
  }

  // ---------- Programs whose lines stand alone ----------

  /** No line of the program has a statement head with only blanks behind it. */
  predicate StandAlone(s: string, lines: seq<Tokenizer.Run>) {
    forall k :: 0 <= k < |lines| ==> !HeadBeforeBlanks(TextAt(s, lines[k]), 0)
  }

  lemma {:induction false} SessionHead(p: string, ps: seq<string>, m: Memory)
    ensures Session([p] + ps, m) == Session(ps, Run(p, 0, m).mem)
    decreases |ps|
  {
    hide Run;
    var all := [p] + ps;
    if ps == [] {
      assert all[..|all| - 1] == [];
    } else {
      assert all[..|all| - 1] == [p] + ps[..|ps| - 1];
      SessionHead(p, ps[..|ps| - 1], m);
    }
  }

  /** Then no call leaves its line, and a program that succeeds is the session of its lines. */
  lemma {:induction false} LinesStandAlone(s: string, lines: seq<Tokenizer.Run>, m: Memory)
    requires AreLines(s, lines) && StandAlone(s, lines)
    ensures
      var r := RunLines(s, lines, m);
      && NeverOverran(r.exits)
      && (AllSucceed(r.exits) ==> r.calls == Texts(s, lines) && r.mem == Session(Texts(s, lines), m))
    decreases |lines|
  {
    hide Call, HeadBeforeBlanks, TextAt, Session, AllSucceed, NeverOverran;
    if lines != [] {
      var line, text := lines[0], TextAt(s, lines[0]);
      var r := Call(s, line, m);
      StaysInLine(s, line, m);
      if r.exit == Returned(true) {
        var rest := RunLines(s, lines[1..], r.mem);
        LinesStandAlone(s, lines[1..], r.mem);
        SessionHead(text, Texts(s, lines[1..]), m);
        OneMoreExit(r.exit, rest.exits);
      } else if r.exit == Returned(false) && line.end < |s| {
        StaysInLine(s, line, r.mem);
        TwoExits(r.exit, Call(s, line, r.mem).exit);
      } else {
        OneExit(r.exit);
      }
    } else {
      NothingRun(m);
    }
  }

  lemma NothingRun(m: Memory)
    ensures NeverOverran([]) && Session([], m) == m
  {
  }

  lemma StaysInLine(s: string, line: Tokenizer.Run, m: Memory)
    requires IsLine(s, line) && !HeadBeforeBlanks(TextAt(s, line), 0)
    ensures Call(s, line, m) == Moved(Run(TextAt(s, line), 0, m), line.start) && Call(s, line, m).exit != Overran
  {
    hide Run, HeadBeforeBlanks, AllAssign, Call, TextAt;
    CallReaches(s, line, m);
    RunStops(TextAt(s, line), 0, m);
  }

  // ---------- Successful programs ----------

  /** What a call that succeeds has run: its line, and all that is left of the text iff the line leaves itself. */
  lemma SuccessfulCall(s: string, line: Tokenizer.Run, m: Memory)
    requires IsLine(s, line) && Call(s, line, m).exit == Returned(true)
    ensures
      var text, c := TextAt(s, line), Call(s, line, m);
      var r := Run(text, 0, m);
      && Completes(r.exit) && (HeadBeforeBlanks(text, 0) ==> line.end < |s|)
      && (Leaves(s, line) <==> c.pc > line.end)
      && if Leaves(s, line) then
           var rest := Run(s[line.end + 1..], 0, r.mem);
           rest.exit == Returned(true) && c.mem == rest.mem
         else c.mem == r.mem
  {
    hide Run, HeadBeforeBlanks, AllAssign, Call;
    var text := TextAt(s, line);
    CallReaches(s, line, m);
    RunStops(text, 0, m);
    if Leaves(s, line) {
      RunStops(s[line.end + 1..], 0, Run(text, 0, m).mem);
    }
  }

  /** Some call of the program comes to a position behind its line. */
  predicate SomeCallLeaves(s: string, lines: seq<Tokenizer.Run>, m: Memory)
    requires AreLines(s, lines)
    decreases |lines|
  {
    lines != [] &&
    var c := Call(s, lines[0], m);
    c.pc > lines[0].end || SomeCallLeaves(s, lines[1..], c.mem)
  }

  predicate SomeLineLeaves(s: string, lines: seq<Tokenizer.Run>)
    requires AreLines(s, lines)
  {
    exists k :: 0 <= k < |lines| && Leaves(s, lines[k])
  }

  lemma LeavesFirstOrLater(s: string, lines: seq<Tokenizer.Run>)
    requires AreLines(s, lines) && lines != []
    ensures SomeLineLeaves(s, lines) <==> Leaves(s, lines[0]) || SomeLineLeaves(s, lines[1..])
  {
    hide Leaves;
    if k :| 0 <= k < |lines| && Leaves(s, lines[k]) {
      assert k > 0 ==> Leaves(s, lines[1..][k - 1]);
    }
    if k :| 0 <= k < |lines[1..]| && Leaves(s, lines[1..][k]) {
      assert Leaves(s, lines[k + 1]);
    }
  }

  /** In a program that succeeds some call leaves its line iff some line that ends in a newline has a
      statement head with only blanks behind it. */
  lemma {:induction false} CallsLeave(s: string, lines: seq<Tokenizer.Run>, m: Memory)
    requires AreLines(s, lines) && AllSucceed(RunLines(s, lines, m).exits)
    ensures SomeCallLeaves(s, lines, m) <==> SomeLineLeaves(s, lines)
    decreases |lines|
  {
    hide Call, Leaves, SomeLineLeaves, AllSucceed;
    if lines != [] {
      var c := FirstSucceeds(s, lines, m);
      SuccessfulCall(s, lines[0], m);
      CallsLeave(s, lines[1..], c.mem);
      LeavesFirstOrLater(s, lines);
    } else {
      NothingLeaves(s);
    }
  }

  lemma NothingLeaves(s: string)
    ensures !SomeLineLeaves(s, [])
  {
  }

  lemma FirstSucceeds(s: string, lines: seq<Tokenizer.Run>, m: Memory) returns (c: RunResult)
    requires AreLines(s, lines) && lines != [] && AllSucceed(RunLines(s, lines, m).exits)
    ensures c == Call(s, lines[0], m) && c.exit == Returned(true)
    ensures AllSucceed(RunLines(s, lines[1..], c.mem).exits)
    ensures RunLines(s, lines, m).mem == RunLines(s, lines[1..], c.mem).mem
  {
    hide Call, AllSucceed;
    c := Call(s, lines[0], m);
    if c.exit == Returned(true) {
      OneMoreExit(c.exit, RunLines(s, lines[1..], c.mem).exits);
    } else if c.exit == Returned(false) && lines[0].end < |s| {
      TwoExits(c.exit, Call(s, lines[0], c.mem).exit);
    } else {
      OneExit(c.exit);
    }
  }

  /** The assignments of the lines, each line by itself. */
  function Own(s: string, lines: seq<Tokenizer.Run>): nat {
    if lines == [] then 0 else Assignments(TextAt(s, lines[0]), 0) + Own(s, lines[1..])
  }

  /** The assignments of all that is left of the text, when the line leaves itself. */
  function Repeated(s: string, line: Tokenizer.Run): nat
    requires IsLine(s, line)
  {
    if Leaves(s, line) then Assignments(s[line.end + 1..], 0) else 0
  }

  function Extra(s: string, lines: seq<Tokenizer.Run>): nat
    requires AreLines(s, lines)
  {
    if lines == [] then 0 else Repeated(s, lines[0]) + Extra(s, lines[1..])
  }

  lemma CallStaysReachable(s: string, line: Tokenizer.Run, m: Memory)
    requires IsLine(s, line) && Reachable(m)
    ensures Reachable(Call(s, line, m).mem)
  {
    hide Run, Reachable;
    RunReachable(Cut(s, line), line.start, m);
  }

  lemma CallAddsSlots(s: string, line: Tokenizer.Run, m: Memory)
    requires IsLine(s, line) && Reachable(m) && Call(s, line, m).exit == Returned(true)
    ensures |Call(s, line, m).mem.vars| == |m.vars| + Assignments(TextAt(s, line), 0) + Repeated(s, line)
    ensures Repeated(s, line) == 0 ==> Call(s, line, m).mem.vars == Run(TextAt(s, line), 0, m).mem.vars
  {
    hide Run, HeadBeforeBlanks, Call, Reachable, Assignments;
    var text := TextAt(s, line);
    SuccessfulCall(s, line, m);
    RunAddsSlots(text, 0, m);
    if Leaves(s, line) {
      RunReachable(text, 0, m);
      RunAddsSlots(s[line.end + 1..], 0, Run(text, 0, m).mem);
    }
  }

  /** The slots a program takes: one for each of its lines' assignments, and again one for each assignment
      behind a line that leaves itself. */
  lemma {:induction false} ProgramAddsSlots(s: string, lines: seq<Tokenizer.Run>, m: Memory)
    requires AreLines(s, lines) && Reachable(m)
    ensures Reachable(RunLines(s, lines, m).mem)
    ensures AllSucceed(RunLines(s, lines, m).exits) ==>
              |RunLines(s, lines, m).mem.vars| == |m.vars| + Own(s, lines) + Extra(s, lines)
    decreases |lines|
  {
    hide Call, Reachable, Repeated, Assignments, AllSucceed;
    if lines != [] {
      var c := Call(s, lines[0], m);
      CallStaysReachable(s, lines[0], m);
      CallStaysReachable(s, lines[0], c.mem);
      if AllSucceed(RunLines(s, lines, m).exits) {
        var c' := FirstSucceeds(s, lines, m);
      }
      if c.exit == Returned(true) {
        CallAddsSlots(s, lines[0], m);
        ProgramAddsSlots(s, lines[1..], c.mem);
      }
    }
  }

  /** A line that completes over some table completes over a smaller one as well. */
  lemma CompletesWithMore(text: string, m: Memory, n: Memory)
    requires Reachable(m) && Reachable(n) && |n.vars| <= |m.vars| && Completes(Run(text, 0, m).exit)
    ensures Completes(Run(text, 0, n).exit) && Reachable(Run(text, 0, n).mem)
    ensures |Run(text, 0, n).mem.vars| == |n.vars| + Assignments(text, 0)
  {
    hide Run, AllAssign, EveryValueStands, HeadBeforeBlanks, Assignments, Anonymous;
    RunStops(text, 0, m);
    RunStops(text, 0, n);
    TextDecides(text, 0, m);
    TextDecides(text, 0, n);
    if AllAssign(text, 0, m) {
      MoreFree(text, 0, MAX_VARS - |m.vars|, MAX_VARS - |n.vars|);
    }
    RunAddsSlots(text, 0, n);
    RunReachable(text, 0, n);
  }

  /** The session of the lines of a program that succeeds, from a table that is no fuller. */
  lemma {:induction false} SessionAddsSlots(s: string, lines: seq<Tokenizer.Run>, m: Memory, n: Memory)
    requires AreLines(s, lines) && AllSucceed(RunLines(s, lines, m).exits)
    requires Reachable(m) && Reachable(n) && |n.vars| <= |m.vars|
    ensures |Session(Texts(s, lines), n).vars| == |n.vars| + Own(s, lines)
    decreases |lines|
  {
    hide Call, Run, Reachable, Assignments, AllSucceed, Session, TextAt, Repeated;
    if lines != [] {
      var text := TextAt(s, lines[0]);
      var c := FirstSucceeds(s, lines, m);
      SuccessfulCall(s, lines[0], m);
      CallStaysReachable(s, lines[0], m);
      CallAddsSlots(s, lines[0], m);
      CompletesWithMore(text, m, n);
      SessionAddsSlots(s, lines[1..], c.mem, Run(text, 0, n).mem);
      SessionHead(text, Texts(s, lines[1..]), n);
    } else {
      EmptySession(n);
    }
  }

  lemma EmptySession(m: Memory)
    ensures Session([], m) == m
  {
  }

  /** When nothing is repeated the program leaves the variables of the session of its lines. */
  lemma {:induction false} NothingRepeated(s: string, lines: seq<Tokenizer.Run>, m: Memory, n: Memory)
    requires AreLines(s, lines) && AllSucceed(RunLines(s, lines, m).exits)
    requires Reachable(m) && m.vars == n.vars && Extra(s, lines) == 0
    ensures RunLines(s, lines, m).mem.vars == Session(Texts(s, lines), n).vars
    decreases |lines|
  {
    hide Call, Run, Reachable, Assignments, AllSucceed, Session, TextAt, Repeated;
    if lines != [] {
      var text := TextAt(s, lines[0]);
      var c := FirstSucceeds(s, lines, m);
      CallStaysReachable(s, lines[0], m);
      CallAddsSlots(s, lines[0], m);
      KeyIsForgotten(text, 0, m, n);
      NothingRepeated(s, lines[1..], c.mem, Run(text, 0, n).mem);
      SessionHead(text, Texts(s, lines[1..]), n);
    } else {
      EmptySession(n);
    }
  }

  /** A program that succeeds makes each assignment once, and so leaves the variables of the session of its
      lines, exactly when no line that leaves itself has an assignment behind it: a test on the text alone. */
  lemma AssignsOnceIff(s: string, lines: seq<Tokenizer.Run>, m: Memory)
    requires AreLines(s, lines) && Reachable(m) && AllSucceed(RunLines(s, lines, m).exits)
    ensures |RunLines(s, lines, m).mem.vars| == |m.vars| + Own(s, lines) <==> Extra(s, lines) == 0
    ensures RunLines(s, lines, m).mem.vars == Session(Texts(s, lines), m).vars <==> Extra(s, lines) == 0
  {
    hide RunLines, Session, Reachable, Own, Extra;
    ProgramAddsSlots(s, lines, m);
    SessionAddsSlots(s, lines, m, m);
    if Extra(s, lines) == 0 {
      NothingRepeated(s, lines, m, m);
    }
  }

  // ---------- Whether a program succeeds ----------

  /** All calls succeed with `free` slots left: a test on the text alone. */
  predicate Succeeds(s: string, lines: seq<Tokenizer.Run>, free: int)
    requires AreLines(s, lines)
    decreases |lines|
  {
    lines == [] ||
    var text := TextAt(s, lines[0]);
    var after := free - Assignments(text, 0);
    && after >= 0 && EveryValueStands(text, 0, free)
    && if !HeadBeforeBlanks(text, 0) then Succeeds(s, lines[1..], after)
       else
         && lines[0].end < |s|
         && var rest := s[lines[0].end + 1..];
            && EveryValueStands(rest, 0, after) && !HeadBeforeBlanks(rest, 0)
            && Succeeds(s, lines[1..], after - Assignments(rest, 0))
  }

  /** A run completes iff every value stands, and then there was a slot for every assignment. */
  lemma CompletesIff(text: string, m: Memory)
    requires Reachable(m)
    ensures
      var r, free := Run(text, 0, m), MAX_VARS - |m.vars|;
      && free >= 0 && Reachable(r.mem)
      && (Completes(r.exit) <==> EveryValueStands(text, 0, free))
      && (r.exit == Overran <==> EveryValueStands(text, 0, free) && HeadBeforeBlanks(text, 0))
      && (Completes(r.exit) ==> MAX_VARS - |r.mem.vars| == free - Assignments(text, 0))
  {
    hide Run, AllAssign, EveryValueStands, HeadBeforeBlanks, Assignments, Anonymous;
    RunStops(text, 0, m);
    TextDecides(text, 0, m);
    RunAddsSlots(text, 0, m);
    RunReachable(text, 0, m);
  }

  lemma CallSucceedsIff(s: string, line: Tokenizer.Run, m: Memory)
    requires IsLine(s, line) && Reachable(m)
    ensures
      var text, free := TextAt(s, line), MAX_VARS - |m.vars|;
      var after := free - Assignments(text, 0);
      && free >= 0 && (EveryValueStands(text, 0, free) ==> after >= 0)
      && (Call(s, line, m).exit == Returned(true)
          <==> && EveryValueStands(text, 0, free)
               && (HeadBeforeBlanks(text, 0) ==>
                     && line.end < |s|
                     && var rest := s[line.end + 1..];
                        EveryValueStands(rest, 0, after) && !HeadBeforeBlanks(rest, 0)))
  {
    hide Run, AllAssign, EveryValueStands, HeadBeforeBlanks, Assignments, Reachable, Call, TextAt;
    var text := TextAt(s, line);
    var r := Run(text, 0, m);
    CompletesIff(text, m);
    CompletesIff(text, r.mem);
    RunStops(text, 0, m);
    CallReaches(s, line, m);
    if line.end < |s| {
      CompletesIff(s[line.end + 1..], r.mem);
    }
  }

  /** Whether a program succeeds is decided by its text and the number of free slots. */
  lemma {:induction false} ProgramDecides(s: string, lines: seq<Tokenizer.Run>, m: Memory)
    requires AreLines(s, lines) && Reachable(m)
    ensures AllSucceed(RunLines(s, lines, m).exits) <==> Succeeds(s, lines, MAX_VARS - |m.vars|)
    decreases |lines|
  {
    hide Run, EveryValueStands, HeadBeforeBlanks, Assignments, Reachable, Call, TextAt, AllSucceed;
    if lines != [] {
      var c := Call(s, lines[0], m);
      CallSucceedsIff(s, lines[0], m);
      if AllSucceed(RunLines(s, lines, m).exits) {
        var c' := FirstSucceeds(s, lines, m);
      }
      if c.exit == Returned(true) {
        OneMoreExit(c.exit, RunLines(s, lines[1..], c.mem).exits);
        CallStaysReachable(s, lines[0], m);
        CallAddsSlots(s, lines[0], m);
        ProgramDecides(s, lines[1..], c.mem);
      }
    } else {
      NoExit();
    }
  }

  /** Any program after any session: its text and the number of free slots say whether it succeeds, and its
      text alone whether it then leaves the variables of the session of its lines. */
  lemma AnyProgram(programs: seq<string>, s: string)
    ensures AreLines(s, Lines(s, 0))
    ensures
      var m, lines := Session(programs, INITIAL), Lines(s, 0);
      var r := RunLines(s, lines, m);
      && |m.vars| <= MAX_VARS
      && (AllSucceed(r.exits) <==> Succeeds(s, lines, MAX_VARS - |m.vars|))
      && (AllSucceed(r.exits) ==>
            (r.mem.vars == Session(Texts(s, lines), m).vars <==> Extra(s, lines) == 0))
  {
    hide RunLines, Succeeds, Extra, Lines, Session, AllSucceed;
    var m := Session(programs, INITIAL);
    LinesOf(s);
    SessionReachable(programs);
    ProgramDecides(s, Lines(s, 0), m);
    if AllSucceed(RunLines(s, Lines(s, 0), m).exits) {
      AssignsOnceIff(s, Lines(s, 0), m);
    }
  }

  // ---------- A program that runs a line twice ----------

  const TWO_LINES: string := "5 \nx=1"

  lemma FirstLineOverruns(m: Memory)
    ensures Run("5 ", 0, m) == RunResult(Overran, 3, m)
  {
    var s := "5 ";
    SpanIs(s, 0, Blank, 0);
    SpanIs(s, 1, Blank, 2);
    assert Run(s, 1, m) == RunResult(Overran, 3, m);
  }

  lemma ReadOne()
    ensures ChainAt("x=1", 2) == Last(Num("1")) && ChainEnd("x=1", 2) == 3
  {
    var s := "x=1";
    SpanIs(s, 2, Blank, 2);
    SpanIs(s, 2, Digit, 3);
    SpanIs(s, 3, Blank, 3);
    assert s[2..3] == "1";
    assert FirstEnd(s, 2) == 3;
  }

  lemma AssignsOnce(m: Memory)
    requires Reachable(m) && |m.vars| < MAX_VARS
    ensures
      var r := Run("x=1", 0, m);
      r.exit == Returned(true) && Reachable(r.mem) && |r.mem.vars| == |m.vars| + 1
  {
    var s := "x=1";
    SpanIs(s, 0, Blank, 0);
    SpanIs(s, 0, Word, 1);
    SpanIs(s, 1, Blank, 1);
    ReadOne();
    var named := Memory(m.vars, Key(s[0..1]));
    AssignReachable(s, 2, named);
    assert Statement(s, 0, m) == Assign(s, 2, named);
    assert Assign(s, 2, named).Next? && Assign(s, 2, named).pc == 3;
    assert Run(s, 3, Assign(s, 2, named).mem).exit == Returned(true);
  }

  lemma TheTwoLines()
    ensures Lines(TWO_LINES, 0) == [Tokenizer.Run(0, 2), Tokenizer.Run(3, 6)]
  {
    hide Lines;
    var s := TWO_LINES;
    assert |s| == 6 && s[2] == '\n';
    assert s[0] == '5' && s[1] == ' ' && s[3] == 'x' && s[4] == '=' && s[5] == '1';
    FullLine(s, 0, 2);
    FullLine(s, 3, 6);
    assert [Tokenizer.Run(3, 6)] + [] == [Tokenizer.Run(3, 6)];
  }

  /** A digit and a blank in front of a line with one assignment: the program succeeds, but the assignment
      has been made twice. */
  lemma RunsTwice(m: Memory)
    requires Reachable(m) && |m.vars| + 2 <= MAX_VARS
    ensures
      var r := RunLines(TWO_LINES, [Tokenizer.Run(0, 2), Tokenizer.Run(3, 6)], m);
      && Lines(TWO_LINES, 0) == [Tokenizer.Run(0, 2), Tokenizer.Run(3, 6)]
      && r.calls == ["5 ", "x=1"] && AllSucceed(r.exits) && |r.mem.vars| == |m.vars| + 2
  {
    hide Run, Reachable, Lines, Call, HeadBeforeBlanks, AllAssign;
    TheTwoLines();
    var lines := [Tokenizer.Run(0, 2), Tokenizer.Run(3, 6)];
    assert TextAt(TWO_LINES, lines[0]) == "5 " && TextAt(TWO_LINES, lines[1]) == "x=1";
    assert TWO_LINES[3..] == "x=1" && lines[1..] == [lines[1]] && lines[1..][1..] == [];
    FirstLineOverruns(m);
    AssignsOnce(m);
    var once := Run("x=1", 0, m).mem;
    AssignsOnce(once);
    RunStops("5 ", 0, m);
    CallReaches(TWO_LINES, lines[0], m);
    CallReaches(TWO_LINES, lines[1], once);
    assert RunLines(TWO_LINES, lines[1..], once).calls == ["x=1"];
  }
}
