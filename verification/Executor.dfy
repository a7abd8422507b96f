/** The line executor of kernel.c, over any behaviour of the shell it calls. */
module Executor {
  import opened Text
  import opened Wrappers
  import Tokenizer

  const EDITOR_BUFFER_SIZE: nat := 4096

  /** The nonempty lines of a text are its maximal runs without a newline. */
  function Lines(s: string, i: nat): seq<Tokenizer.Run>
    requires i <= |s|
  {
    Tokenizer.Runs(s, i, "\n")
  }

  function TextAt(s: string, r: Tokenizer.Run): string {
    if r.start <= r.end <= |s| then s[r.start..r.end] else ""
  }

  /** The texts handed to the shell, the overall result, and where the buffer is left cut. */
  datatype Outcome = Outcome(calls: seq<string>, ok: bool, cut: Option<nat>)

  /** From the k-th call on: the n-th call ever made succeeds iff `verdict(n)`. */
  function Plan(s: string, lines: seq<Tokenizer.Run>, k: nat, verdict: nat -> bool): Outcome {
    if lines == [] then Outcome([], true, None)
    else
      var line := TextAt(s, lines[0]);
      if verdict(k) then
        var rest := Plan(s, lines[1..], k + 1, verdict);
        rest.(calls := [line] + rest.calls)
      else if lines[0].end < |s| then Outcome([line, line], false, Some(lines[0].end))
      else Outcome([line], false, None)
  }

  // ---------- What the plan means ----------

  function Texts(s: string, lines: seq<Tokenizer.Run>): (texts: seq<string>)
    ensures |texts| == |lines|
  {
    if lines == [] then [] else [TextAt(s, lines[0])] + Texts(s, lines[1..])
  }

  /** The first line that fails, or the number of lines. */
  function FirstFailure(n: nat, k: nat, verdict: nat -> bool): (f: nat)
    ensures f <= n
    ensures f < n ==> !verdict(k + f)
    ensures forall j :: k <= j < k + f ==> verdict(j)
  {
    if n == 0 || !verdict(k) then 0 else 1 + FirstFailure(n - 1, k + 1, verdict)
  }

  /** Success means every line's call succeeded, and then each line ran once, in order, and the text is whole.
      Otherwise the lines up to the first failing one ran; if that one ends in a newline the buffer stays cut
      there and the line runs a second time. */
  lemma {:induction false} PlanRunsLines(s: string, lines: seq<Tokenizer.Run>, k: nat, verdict: nat -> bool)
    ensures
      var o := Plan(s, lines, k, verdict);
      var f := FirstFailure(|lines|, k, verdict);
      var texts := Texts(s, lines);
      && (o.ok <==> forall j :: k <= j < k + |lines| ==> verdict(j))
      && (o.ok ==> o.calls == texts && o.cut == None)
      && (!o.ok ==> f < |lines| && o.cut == if lines[f].end < |s| then Some(lines[f].end) else None)
      && (!o.ok ==> o.calls == texts[..f + 1] + if o.cut.Some? then [texts[f]] else [])
    decreases |lines|
  {
    if lines != [] {
      hide TextAt;
      if verdict(k) {
        PlanRunsLines(s, lines[1..], k + 1, verdict);
        var f := FirstFailure(|lines| - 1, k + 1, verdict);
        if f < |lines| - 1 {
          var texts, cut := Texts(s, lines[1..]), Plan(s, lines[1..], k + 1, verdict).cut;
          OneMoreCall(TextAt(s, lines[0]), texts, f, if cut.Some? then [texts[f]] else []);
        }
      }
    }
  }

  lemma OneMoreCall(t: string, texts: seq<string>, f: nat, again: seq<string>)
    requires f < |texts|
    ensures ([t] + texts)[f + 1] == texts[f]
    ensures [t] + (texts[..f + 1] + again) == ([t] + texts)[..f + 2] + again
  {
  }

  /** A newline at the head of a line is skipped. */
  lemma EmptyLine(s: string, i: nat)
    requires i < |s| && s[i] == '\n'
    ensures Lines(s, i) == Lines(s, i + 1)
  {
    assert Tokenizer.IsDelim(s[i], "\n");
    assert Tokenizer.Scan(s, i, "\n", false) == Tokenizer.Scan(s, i + 1, "\n", false);
    hide Tokenizer.Scan;
  }

  /** A line that starts at `i` and ends at `e` is the first of the lines from `i` on. */
  lemma FullLine(s: string, i: nat, e: nat)
    requires i < e <= |s| && forall x :: i <= x < e ==> s[x] != '\n'
    requires e < |s| ==> s[e] == '\n'
    ensures Lines(s, i) == [Tokenizer.Run(i, e)] + if e < |s| then Lines(s, e + 1) else []
  {
    hide Tokenizer.Runs, Tokenizer.Scan;
    var a, b := Tokenizer.FirstRun(s, i, "\n");
    assert Tokenizer.IsDelim(s[i], "\n") == (s[i] == '\n');
    assert b < |s| ==> Tokenizer.IsDelim(s[b], "\n") && s[b] == '\n';
    assert e < |s| ==> Tokenizer.IsDelim(s[e], "\n");
  }

  // ---------- The executor ----------

  class LineExecutor {
    const editorBuffer: array<char>
    const verdict: nat -> bool  // the result of each call of the shell, in the order of the calls
    var editorBufferPos: nat
    var log: seq<string>        // the texts the shell was called with

    constructor (behaviour: nat -> bool)
      ensures Valid() && fresh(editorBuffer) && verdict == behaviour && log == []
    {
      editorBuffer := new char[EDITOR_BUFFER_SIZE](_ => NUL);
      verdict, editorBufferPos, log := behaviour, 0, [];
    }

    ghost predicate Valid()
      reads this
    {
      editorBuffer.Length == EDITOR_BUFFER_SIZE
    }

    method MshExecute(line: string) returns (ok: bool)
      modifies this`log
      ensures log == old(log) + [line] && ok == verdict(|old(log)|)
    {
      ok := verdict(|log|);
      log := log + [line];
    }

    /** Where the program text ends: at `editor_buffer_pos` at the latest. */
    ghost function TextEnd(): (n: nat)
      requires Valid()
      reads this, editorBuffer
      ensures n <= editorBufferPos && n < 4096 && forall i :: 0 <= i < n ==> editorBuffer[i] != '\0'
      ensures n == editorBufferPos || n == 4095 || editorBuffer[n] == '\0'
    {
      var len := if editorBufferPos < EDITOR_BUFFER_SIZE then editorBufferPos else EDITOR_BUFFER_SIZE - 1;
      FirstNulIs(editorBuffer[..len]);
      assert forall i :: 0 <= i < len ==> editorBuffer[..len][i] == editorBuffer[i];
      assert forall i :: 0 <= i < FirstNul(editorBuffer[..len]) ==>
               editorBuffer[..len][..FirstNul(editorBuffer[..len])][i] == editorBuffer[i];
      FirstNul(editorBuffer[..len])
    }

    /** `execute_buffer`, without what it writes to the screen. */
    method ExecuteBuffer() returns (overallSuccess: bool)
      requires Valid()
      modifies this`log, editorBuffer
      ensures
        var s := old(editorBuffer[..TextEnd()]);
        var plan := Plan(s, Lines(s, 0), |old(log)|, verdict);
        && log == old(log) + plan.calls
        && overallSuccess == plan.ok
        && editorBuffer[..|s|] == (if plan.cut.Some? && plan.cut.value < |s| then s[plan.cut.value := NUL] else s)
        && editorBuffer[|s|] == NUL
    {
      var execLen := editorBufferPos;
      if execLen >= EDITOR_BUFFER_SIZE {
        execLen := EDITOR_BUFFER_SIZE - 1;
      }
      ghost var n := TextEnd();
      FirstNulIs(editorBuffer[..execLen]);
      assert editorBuffer[..execLen][..n] == editorBuffer[..n];
      hide FirstNul, Plan;
      editorBuffer[execLen] := NUL;
      overallSuccess := RunLines(n);
    }

    /** The newline branch: cut the line off, run it unless it is empty, and mend the text unless it failed. */
    method EndLine(lineStart: nat, current: nat) returns (ok: bool)
      requires Valid() && lineStart <= current < EDITOR_BUFFER_SIZE && editorBuffer[current] == '\n'
      modifies this`log, editorBuffer
      ensures ok == (lineStart == current || verdict(|old(log)|))
      ensures log == old(log) + if lineStart < current then [old(editorBuffer[lineStart..current])] else []
      ensures forall x :: 0 <= x < EDITOR_BUFFER_SIZE ==>
                editorBuffer[x] == if x == current && !ok then NUL else old(editorBuffer[x])
    {
      editorBuffer[current] := NUL;
      ok := true;
      if lineStart < current {
        assert editorBuffer[lineStart..current] == old(editorBuffer[lineStart..current]);
        ok := MshExecute(editorBuffer[lineStart..current]);
        if !ok {
          return;
        }
      }
      editorBuffer[current] := '\n';
    }

    /** The loop over the characters, on a program that ends at `n`: it stops at the end or at a failed line. */
    method RunEndedLines(ghost n: nat) returns (overallSuccess: bool, lineStart: nat, current: nat)
      requires Valid() && n < EDITOR_BUFFER_SIZE && editorBuffer[n] == NUL && IsText(editorBuffer[..n])
      modifies this`log, editorBuffer
      ensures lineStart <= current <= n && editorBuffer[n] == NUL
      ensures |old(log)| <= |log| && log[..|old(log)|] == old(log)
      ensures
        var s := old(editorBuffer[..n]);
        var plan := Plan(s, Lines(s, 0), |old(log)|, verdict);
        var done := log[|old(log)|..];
        && s[lineStart..current] == editorBuffer[lineStart..current]
        && (forall x :: lineStart <= x < current ==> s[x] != '\n')
        && if overallSuccess then
             && current == n && editorBuffer[..n] == s
             && PlanFrom(plan, done, Plan(s, Lines(s, lineStart), |log|, verdict))
           else
             && lineStart < current < n && editorBuffer[..n] == s[current := NUL]
             && plan == Outcome(done + [s[lineStart..current]], false, Some(current))
    {
      hide FirstNul, Plan, PlanFrom, TextAt, Lines;
      ghost var s := editorBuffer[..n];
      ghost var plan := Plan(s, Lines(s, 0), |log|, verdict);
      NothingDone(plan);
      overallSuccess, current, lineStart := true, 0, 0;
      ghost var done: seq<string> := [];
      while editorBuffer[current] != NUL
        invariant lineStart <= current <= n && |s| == n && IsText(s)
        invariant editorBuffer[n] == NUL && forall x :: 0 <= x < n ==> editorBuffer[x] == s[x]
        invariant forall x :: lineStart <= x < current ==> s[x] != '\n'
        invariant overallSuccess && log == old(log) + done && done == log[|old(log)|..]
        invariant PlanFrom(plan, done, Plan(s, Lines(s, lineStart), |log|, verdict))
        decreases n - current
      {
        assert s[current] != NUL;
        if editorBuffer[current] == '\n' {
          if lineStart < current {
            EndedLine(plan, done, s, lineStart, current, |log|, verdict);
            done := done + [s[lineStart..current]];
          } else {
            EmptyLine(s, lineStart);
          }
          assert editorBuffer[lineStart..current] == s[lineStart..current];
          var ok := EndLine(lineStart, current);
          overallSuccess := overallSuccess && ok;
          assert log[|old(log)|..] == done;
          if !ok {
            assert editorBuffer[..n] == s[current := NUL];
            return;
          }
          lineStart := current + 1;
        }
        current := current + 1;
      }
      assert editorBuffer[..n] == s && editorBuffer[lineStart..current] == s[lineStart..current];
    }

    /** The line-by-line part, and the last line: the rest of the text, or the failed line once more. */
    method RunLines(ghost n: nat) returns (overallSuccess: bool)
      requires Valid() && n < EDITOR_BUFFER_SIZE && editorBuffer[n] == NUL && IsText(editorBuffer[..n])
      modifies this`log, editorBuffer
      ensures
        var s := old(editorBuffer[..n]);
        var plan := Plan(s, Lines(s, 0), |old(log)|, verdict);
        && log == old(log) + plan.calls
        && overallSuccess == plan.ok
        && editorBuffer[..n] == (if plan.cut.Some? && plan.cut.value < n then s[plan.cut.value := NUL] else s)
        && editorBuffer[n] == NUL
    {
      hide FirstNul, Plan, TextAt, Lines;
      ghost var s := editorBuffer[..n];
      var current, lineStart;
      overallSuccess, lineStart, current := RunEndedLines(n);
      if overallSuccess {
        if lineStart < current {
          NextLine(s, lineStart, current, |log|, verdict);
        } else {
          NoLine(s, |log|, verdict);
        }
      }
      if lineStart < current {
        var last := MshExecute(editorBuffer[lineStart..current]);
        overallSuccess := last && overallSuccess;
      }
    }
  }

  /** `plan` is: first the calls already made, and then `rest`. */
  predicate PlanFrom(plan: Outcome, done: seq<string>, rest: Outcome) {
    plan == Outcome(done + rest.calls, rest.ok, rest.cut)
  }

  lemma NothingDone(plan: Outcome)
    ensures PlanFrom(plan, [], plan)
  {
    assert [] + plan.calls == plan.calls;
  }

  /** A line that ends at `e` in the middle of a run: what has been called by then, and what is left. */
  lemma EndedLine(plan: Outcome, done: seq<string>, s: string, i: nat, e: nat, k: nat, verdict: nat -> bool)
    requires i < e < |s| && s[e] == '\n' && forall x :: i <= x < e ==> s[x] != '\n'
    requires PlanFrom(plan, done, Plan(s, Lines(s, i), k, verdict))
    ensures verdict(k) ==> PlanFrom(plan, done + [s[i..e]], Plan(s, Lines(s, e + 1), k + 1, verdict))
    ensures !verdict(k) ==> plan == Outcome(done + [s[i..e]] + [s[i..e]], false, Some(e))
  {
    hide Plan, Lines;
    NextLine(s, i, e, k, verdict);
    var line, rest := s[i..e], Plan(s, Lines(s, e + 1), k + 1, verdict);
    assert done + ([line] + rest.calls) == done + [line] + rest.calls;
    assert done + [line, line] == done + [line] + [line];
  }

  function FirstNul(s: string): (n: nat)
    ensures n <= |s|
  {
    if s == "" || s[0] == NUL then 0 else 1 + FirstNul(s[1..])
  }

  lemma {:induction false} FirstNulIs(s: string)
    ensures FirstNul(s) < |s| ==> s[FirstNul(s)] == NUL
    ensures IsText(s[..FirstNul(s)])
  {
    if s != "" && s[0] != NUL {
      FirstNulIs(s[1..]);
      assert s[..FirstNul(s)] == [s[0]] + s[1..][..FirstNul(s[1..])];
    }
  }

  lemma NoLine(s: string, k: nat, verdict: nat -> bool)
    ensures Plan(s, Lines(s, |s|), k, verdict) == Outcome([], true, None)
  {
  }

  /** The plan from a line's first character on, once the line's end is known. */
  lemma NextLine(s: string, i: nat, e: nat, k: nat, verdict: nat -> bool)
    requires i < e <= |s| && forall x :: i <= x < e ==> s[x] != '\n'
    requires e < |s| ==> s[e] == '\n'
    ensures
      var line := s[i..e];
      Plan(s, Lines(s, i), k, verdict) ==
        if e == |s| then Outcome([line], verdict(k), None)
        else if verdict(k) then PlanAfter(line, Plan(s, Lines(s, e + 1), k + 1, verdict))
        else Outcome([line, line], false, Some(e))
  {
    FullLine(s, i, e);
    hide Lines;
    assert e < |s| ==> Lines(s, i)[1..] == Lines(s, e + 1);
  }

  function PlanAfter(line: string, rest: Outcome): Outcome {
    rest.(calls := [line] + rest.calls)
  }
}
