/** The micro-shell in the middle of a longer memory: where a program stands does not matter, and what a
    terminator in front of more text does to a run. */
module ShellCuts {
  import opened Text
  import opened ShellSyntax
  import opened ShellMeaning
  import opened Shell

  function MovedStep(t: Step, d: nat): Step {
    match t
    case Next(pc, mem) => Next(pc + d, mem)
    case Stop(r) => Stop(Moved(r, d))
  }

  function Moved(r: RunResult, d: nat): RunResult {
    r.(pc := r.pc + d)
  }

  // ---------- Text in front ----------

  lemma AtMoved(pre: string, t: string, i: nat)
    requires i <= |t|
    ensures At(pre + t, |pre| + i) == At(t, i)
  {
  }

  lemma SliceMoved(pre: string, t: string, i: nat, j: nat)
    requires i <= j <= |t|
    ensures (pre + t)[|pre| + i..|pre| + j] == t[i..j]
  {
  }

  lemma {:induction false} SpanMoved(pre: string, t: string, i: nat, k: CharClass)
    requires i <= |t|
    ensures SpanEnd(pre + t, |pre| + i, k) == |pre| + SpanEnd(t, i, k)
    decreases |t| - i
  {
    hide SpanEnd;
    SpanStep(t, i, k);
    SpanStep(pre + t, |pre| + i, k);
    if i < |t| && In(t[i], k) {
      SpanMoved(pre, t, i + 1, k);
    }
  }

  lemma OperandMoved(pre: string, t: string, i: nat)
    requires i <= |t|
    ensures OperandAt(pre + t, |pre| + i) == OperandAt(t, i)
    ensures OperandEnd(pre + t, |pre| + i) == |pre| + OperandEnd(t, i)
  {
    hide SpanEnd;
    AtMoved(pre, t, i);
    if At(t, i) == '"' {
      var q := SpanEnd(t, i + 1, NotQuote);
      SpanMoved(pre, t, i + 1, NotQuote);
      AtMoved(pre, t, q);
      SliceMoved(pre, t, i + 1, q);
    } else {
      SpanMoved(pre, t, i, Digit);
      SpanMoved(pre, t, i, Word);
      SliceMoved(pre, t, i, SpanEnd(t, i, Digit));
      SliceMoved(pre, t, i, SpanEnd(t, i, Word));
    }
  }

  lemma FirstMoved(pre: string, t: string, i: nat)
    requires i <= |t|
    ensures FirstAt(pre + t, |pre| + i) == FirstAt(t, i)
    ensures FirstEnd(pre + t, |pre| + i) == |pre| + FirstEnd(t, i)
  {
    hide SpanEnd, OperandAt, OperandEnd;
    var j := SpanEnd(t, i, Blank);
    SpanMoved(pre, t, i, Blank);
    OperandMoved(pre, t, j);
    SpanMoved(pre, t, OperandEnd(t, j), Blank);
  }

  lemma {:induction false} ChainMoved(pre: string, t: string, i: nat)
    requires i <= |t|
    ensures ChainAt(pre + t, |pre| + i) == ChainAt(t, i)
    ensures ChainEnd(pre + t, |pre| + i) == |pre| + ChainEnd(t, i)
    decreases |t| - i
  {
    hide ChainAt, ChainEnd, FirstAt, FirstEnd;
    var k := FirstEnd(t, i);
    FirstMoved(pre, t, i);
    ChainCases(t, i);
    ChainCases(pre + t, |pre| + i);
    AtMoved(pre, t, k);
    if IsOp(At(t, k)) {
      ChainMoved(pre, t, k + 1);
    }
  }

  lemma AssignMoved(pre: string, t: string, k: nat, m: Memory)
    requires k <= |t|
    ensures Assign(pre + t, |pre| + k, m) == MovedStep(Assign(t, k, m), |pre|)
  {
    hide ChainAt, ChainEnd, Denote, LastKey, ResultName, Store, Bound;
    ChainMoved(pre, t, k);
  }

  lemma StatementMoved(pre: string, t: string, j: nat, m: Memory)
    requires j < |t| && IsAlpha(t[j])
    ensures Statement(pre + t, |pre| + j, m) == MovedStep(Statement(t, j, m), |pre|)
  {
    hide Assign, SpanEnd, Key;
    SpanMoved(pre, t, j, Word);
    var n := SpanEnd(t, j, Word);
    SliceMoved(pre, t, j, n);
    SpanMoved(pre, t, n, Blank);
    var k := SpanEnd(t, n, Blank);
    AtMoved(pre, t, k);
    if At(t, k) == '=' {
      AssignMoved(pre, t, k + 1, Memory(m.vars, Key(t[j..n])));
    }
  }

  /** What stands before a program has no influence on its run. */
  lemma {:induction false} RunMoved(pre: string, t: string, i: nat, m: Memory)
    requires i <= |t|
    ensures Run(pre + t, |pre| + i, m) == Moved(Run(t, i, m), |pre|)
    decreases |t| - i
  {
    hide Statement, SpanEnd;
    AtMoved(pre, t, i);
    SpanMoved(pre, t, i, Blank);
    var j := SpanEnd(t, i, Blank);
    if At(t, i) == NUL || j == |t| {
    } else if !IsAlpha(t[j]) {
      RunMoved(pre, t, j + 1, m);
    } else {
      StatementMoved(pre, t, j, m);
      var step := Statement(t, j, m);
      if step.Next? {
        RunMoved(pre, t, step.pc, step.mem);
      }
    }
  }

  // ---------- A terminator behind ----------

  /** `a` with its terminator, and more memory behind it. */
  function Followed(a: string, b: string): string {
    a + [NUL] + b
  }

  lemma AtCut(a: string, b: string, i: nat)
    requires i <= |a|
    ensures At(Followed(a, b), i) == At(a, i)
  {
  }

  lemma SliceCut(a: string, b: string, i: nat, j: nat)
    requires i <= j <= |a|
    ensures Followed(a, b)[i..j] == a[i..j]
  {
  }

  /** No run of characters of one class goes over a terminator. */
  lemma {:induction false} SpanCut(a: string, b: string, i: nat, k: CharClass)
    requires i <= |a|
    ensures SpanEnd(Followed(a, b), i, k) == SpanEnd(a, i, k)
    decreases |a| - i
  {
    hide SpanEnd;
    SpanStep(a, i, k);
    SpanStep(Followed(a, b), i, k);
    if i < |a| && In(a[i], k) {
      SpanCut(a, b, i + 1, k);
    }
  }

  lemma OperandCut(a: string, b: string, i: nat)
    requires i <= |a|
    ensures OperandAt(Followed(a, b), i) == OperandAt(a, i)
    ensures OperandEnd(Followed(a, b), i) == OperandEnd(a, i)
  {
    hide SpanEnd, Followed;
    AtCut(a, b, i);
    if At(a, i) == '"' {
      var q := SpanEnd(a, i + 1, NotQuote);
      SpanCut(a, b, i + 1, NotQuote);
      AtCut(a, b, q);
      SliceCut(a, b, i + 1, q);
    } else {
      SpanCut(a, b, i, Digit);
      SpanCut(a, b, i, Word);
      SliceCut(a, b, i, SpanEnd(a, i, Digit));
      SliceCut(a, b, i, SpanEnd(a, i, Word));
    }
  }

  lemma FirstCut(a: string, b: string, i: nat)
    requires i <= |a|
    ensures FirstAt(Followed(a, b), i) == FirstAt(a, i) && FirstEnd(Followed(a, b), i) == FirstEnd(a, i)
  {
    hide SpanEnd, OperandAt, OperandEnd;
    var j := SpanEnd(a, i, Blank);
    SpanCut(a, b, i, Blank);
    OperandCut(a, b, j);
    SpanCut(a, b, OperandEnd(a, j), Blank);
  }

  lemma {:induction false} ChainCut(a: string, b: string, i: nat)
    requires i <= |a|
    ensures ChainAt(Followed(a, b), i) == ChainAt(a, i) && ChainEnd(Followed(a, b), i) == ChainEnd(a, i)
    decreases |a| - i
  {
    hide ChainAt, ChainEnd, FirstAt, FirstEnd;
    var k := FirstEnd(a, i);
    FirstCut(a, b, i);
    ChainCases(a, i);
    ChainCases(Followed(a, b), i);
    AtCut(a, b, k);
    if IsOp(At(a, k)) {
      ChainCut(a, b, k + 1);
    }
  }

  lemma AssignCut(a: string, b: string, k: nat, m: Memory)
    requires k <= |a|
    ensures Assign(Followed(a, b), k, m) == Assign(a, k, m)
  {
    hide ChainAt, ChainEnd, Denote, LastKey, ResultName, Store, Bound;
    ChainCut(a, b, k);
  }

  lemma StatementCut(a: string, b: string, j: nat, m: Memory)
    requires j < |a| && IsAlpha(a[j])
    ensures Statement(Followed(a, b), j, m) == Statement(a, j, m)
  {
    hide Assign, SpanEnd, Key;
    SpanCut(a, b, j, Word);
    var n := SpanEnd(a, j, Word);
    SliceCut(a, b, j, n);
    SpanCut(a, b, n, Blank);
    var k := SpanEnd(a, n, Blank);
    AtCut(a, b, k);
    if At(a, k) == '=' {
      AssignCut(a, b, k + 1, Memory(m.vars, Key(a[j..n])));
    }
  }

  /** A run in front of more memory is the run of its own text, and if that steps over its terminator, the
      run goes on right behind it. */
  lemma {:induction false} RunCut(a: string, b: string, i: nat, m: Memory)
    requires i <= |a|
    ensures
      var r := Run(a, i, m);
      Run(Followed(a, b), i, m) == if r.exit == Overran then Run(Followed(a, b), |a| + 1, r.mem) else r
    decreases |a| - i
  {
    hide Statement, SpanEnd;
    AtCut(a, b, i);
    SpanCut(a, b, i, Blank);
    var j := SpanEnd(a, i, Blank);
    if At(a, i) == NUL {
    } else if j == |a| {
      assert Followed(a, b)[|a|] == NUL;
    } else if !IsAlpha(a[j]) {
      RunCut(a, b, j + 1, m);
    } else {
      StatementCut(a, b, j, m);
      var step := Statement(a, j, m);
      if step.Next? {
        RunCut(a, b, step.pc, step.mem);
      }
    }
  }

  /** Both together: a program in the middle of a memory, with its terminator and more text behind it. */
  lemma RunInside(pre: string, a: string, b: string, m: Memory)
    ensures
      var r := Run(a, 0, m);
      Run(pre + Followed(a, b), |pre|, m) ==
        if r.exit == Overran then Moved(Run(b, 0, r.mem), |pre| + |a| + 1) else Moved(r, |pre|)
  {
    hide Run;
    RunMoved(pre, Followed(a, b), 0, m);
    RunCut(a, b, 0, m);
    var r := Run(a, 0, m);
    if r.exit == Overran {
      RunMoved(a + [NUL], b, 0, r.mem);
    }
  }
}
