/** The micro-shell's evaluator and line executor (microshell.c), working on its context in place. */
module Shell {
  import opened CInt
  import opened Text
  import opened ShellSyntax
  import opened ShellMeaning
  import Numbers

  const MAX_VARS: nat := 64

  datatype Exit =
    | Returned(ok: bool)
    | Crashed  // stopped at a read through a null string or at a division that traps
    | Overran  // stepped over the last terminator of the memory

  // ---------- Specification of msh_execute ----------

  /** What one call can see and change: the used slots and the name buffer. */
  datatype Memory = Memory(vars: seq<MshVar>, key: string)

  datatype RunResult = RunResult(exit: Exit, pc: nat, mem: Memory)

  /** `*var = value` replaces the whole slot, its name included; the slot is looked up by the shared buffer. */
  function Store(vars: seq<MshVar>, key: string, value: MshVar): seq<MshVar>
    requires Bound(vars, key) || |vars| < MAX_VARS
  {
    if Bound(vars, key) then vars[Find(vars, key) := value] else vars + [value]
  }

  datatype Step =
    | Stop(r: RunResult)
    | Next(pc: nat, mem: Memory)

  /** What happens after the `=` of an assignment: the value goes wherever the name buffer points by then. */
  function Assign(s: string, k: nat, m: Memory): (r: Step)
    requires k <= |s|
    ensures r.Next? ==> k <= r.pc <= |s|
    ensures r.Stop? ==> k <= r.r.pc <= |s| && (r.r.exit == Crashed || r.r.exit == Returned(false))
  {
    var c, e := ChainAt(s, k), ChainEnd(s, k);
    var last := LastKey(c, m.key);
    match Denote(c, m.vars)
    case Fault => Stop(RunResult(Crashed, e, m))
    case Err(_) => Stop(RunResult(Returned(false), e, Memory(m.vars, last)))
    case Ok(v) =>
      if Bound(m.vars, last) || |m.vars| < MAX_VARS then
        Next(e, Memory(Store(m.vars, last, MshVar(ResultName(c, m.vars), v)), last))
      else Stop(RunResult(Returned(false), e, Memory(m.vars, last)))
  }

  /** A statement that begins with a letter: an assignment, or a word that is passed over. */
  function Statement(s: string, j: nat, m: Memory): (r: Step)
    requires j < |s| && IsAlpha(s[j])
    ensures r.Next? ==> j < r.pc <= |s|
    ensures r.Stop? ==> j < r.r.pc <= |s| && (r.r.exit == Crashed || r.r.exit == Returned(false))
  {
    var n := SpanEnd(s, j, Word);
    var k := SpanEnd(s, n, Blank);
    assert n > j;
    if At(s, k) == '=' then Assign(s, k + 1, Memory(m.vars, Key(s[j..n])))
    else Next(k, Memory(m.vars, Key(s[j..n])))
  }

  /** The program from position `i` on, at the head of the statement loop. `s` is the memory it stands in, up
      to the last terminator that is known: the loop ends at the first NUL it looks at, but a NUL that it
      comes to behind blanks is stepped over like any other character, and the run goes on behind it. */
  function Run(s: string, i: nat, m: Memory): RunResult
    requires i <= |s|
    decreases |s| - i
  {
    var j := SpanEnd(s, i, Blank);
    if At(s, i) == NUL then RunResult(Returned(true), i, m)
    else if j == |s| then RunResult(Overran, j + 1, m)
    else if !IsAlpha(s[j]) then Run(s, j + 1, m)
    else
      match Statement(s, j, m)
      case Stop(r) => r
      case Next(k, m') => Run(s, k, m')
  }

  // ---------- The context ----------

  class MicroShell {
    const vars: array<MshVar>
    var varCount: nat
    var code: string
    var pc: nat
    var hadError: bool
    var identBuf: string

    ghost predicate Valid()
      reads this
    {
      vars.Length == MAX_VARS && varCount <= MAX_VARS && pc <= |code|
    }

    ghost function Vars(): seq<MshVar>
      requires varCount <= vars.Length
      reads this, vars
    {
      vars[..varCount]
    }

    /** `msh_init`. */
    constructor ()
      ensures Valid() && fresh(vars) && Vars() == []
    {
      vars := new MshVar[MAX_VARS](_ => MshVar("", NoneV));
      varCount, code, pc, hadError, identBuf := 0, "", 0, false, "";
    }

    method SkipWhitespace()
      requires Valid()
      modifies this`pc
      ensures Valid() && pc == SpanEnd(code, old(pc), Blank)
    {
      hide SpanEnd;
      while IsSpace(At(code, pc))
        invariant pc <= |code|
        invariant SpanEnd(code, pc, Blank) == SpanEnd(code, old(pc), Blank)
        decreases |code| - pc
      {
        SpanStep(code, pc, Blank);
        pc := pc + 1;
      }
      SpanStep(code, pc, Blank);
    }

    method ParseIdent()
      requires Valid()
      modifies this`pc, this`identBuf
      ensures Valid()
      ensures
        var start := SpanEnd(code, old(pc), Blank);
        pc == SpanEnd(code, start, Word) && identBuf == Key(code[start..pc])
    {
      hide SpanEnd, Key;
      SkipWhitespace();
      ghost var start := pc;
      identBuf := "";
      EmptyKey(code, start);
      while In(At(code, pc), Word)
        invariant start <= pc <= |code|
        invariant SpanEnd(code, pc, Word) == SpanEnd(code, start, Word)
        invariant identBuf == Key(code[start..pc])
        decreases |code| - pc
      {
        KeyStep(code, start, pc);
        SpanStep(code, pc, Word);
        if |identBuf| < 31 {
          identBuf := identBuf + [code[pc]];
        }
        pc := pc + 1;
      }
      SpanStep(code, pc, Word);
    }

    method FindVar(name: string) returns (i: nat)
      requires Valid()
      ensures i == Find(Vars(), name)
    {
      i := 0;
      while i < varCount
        invariant i <= varCount
        invariant forall j :: 0 <= j < i ==> vars[j].name != name
      {
        if vars[i].name == name {
          break;
        }
        i := i + 1;
      }
      FindIs(Vars(), name, i);
    }

    /** The digit loop of a number literal. */
    method EvalNumber() returns (value: Int32)
      requires Valid()
      modifies this`pc
      ensures Valid() && pc == SpanEnd(code, old(pc), Digit)
      ensures value == Wrap32(Numbers.Decimal(code[old(pc)..pc]))
    {
      hide SpanEnd, Numbers.Decimal, Wrap32;
      ghost var start := pc;
      value := 0;
      Numbers.DecimalNone(code, start);
      while IsDigit(At(code, pc))
        invariant start <= pc <= |code|
        invariant SpanEnd(code, pc, Digit) == SpanEnd(code, start, Digit)
        invariant value == Wrap32(Numbers.Decimal(code[start..pc]))
        decreases |code| - pc
      {
        Numbers.DecimalStep(code, start, pc);
        SpanStep(code, pc, Digit);
        value := Wrap32(value * 10 + Numbers.DigitValue(code[pc]));
        pc := pc + 1;
      }
      SpanStep(code, pc, Digit);
    }

    /** A string literal; without a closing quote, all of the text is consumed. */
    method EvalLiteral() returns (body: string, closed: bool)
      requires Valid() && At(code, pc) == '"'
      modifies this`pc
      ensures Valid()
      ensures
        var q := SpanEnd(code, old(pc) + 1, NotQuote);
        && (closed <==> At(code, q) == '"')
        && pc == (if closed then q + 1 else q)
        && (closed ==> body == code[old(pc) + 1..q])
    {
      hide SpanEnd;
      pc := pc + 1;
      ghost var start := pc;
      body := "";
      while At(code, pc) != '"' && At(code, pc) != NUL
        invariant start <= pc <= |code|
        invariant SpanEnd(code, pc, NotQuote) == SpanEnd(code, start, NotQuote)
        invariant body == code[start..pc]
        decreases |code| - pc
      {
        SpanStep(code, pc, NotQuote);
        SliceStep(code, start, pc);
        body := body + [code[pc]];
        pc := pc + 1;
      }
      SpanStep(code, pc, NotQuote);
      closed := At(code, pc) == '"';
      if closed {
        pc := pc + 1;
      }
    }

    /** The operand branches of `eval_expr`; `early` is its return from inside a branch. */
    method EvalOperand() returns (left: MshVar, early: bool)
      requires Valid()
      modifies this`pc, this`hadError, this`identBuf
      ensures Valid()
      ensures
        var o := OperandAt(code, old(pc));
        var meaning := OperandValue(o, Vars());
        && pc == OperandEnd(code, old(pc))
        && identBuf == LastKey(Last(o), old(identBuf))
        && left.name == ResultName(Last(o), Vars())
        && early == o.Unterminated?
        && hadError == (old(hadError) || meaning.Err?)
        && left.val == meaning.v
    {
      left, early := MshVar("", NoneV), false;
      if IsDigit(At(code, pc)) {
        var value := EvalNumber();
        left := MshVar("", IntV(value));
      } else if At(code, pc) == '"' {
        var body, closed := EvalLiteral();
        if !closed {
          hadError := true;
          return left, true;
        }
        left := MshVar("", StrV(body));
      } else if IsAlpha(At(code, pc)) {
        SpanIs(code, pc, Blank, pc);
        ParseIdent();
        var i := FindVar(identBuf);
        if i < varCount {
          left := vars[i];
        } else {
          hadError := true;
        }
      } else {
        // The branches for "True", "False", "inw(", "outw(" and "input(" begin with a letter.
        assert forall word :: word in ["True", "False", "inw(", "outw(", "input("] ==> At(code, pc) != word[0];
      }
    }

    /** Bringing two operands to a common type. */
    static method Balance(first: Value, second: Value) returns (left: Value, right: Value, common: Kind)
      ensures common == CommonKind(KindOf(first), KindOf(second))
      ensures common == IntK ==> IntField(left) == IntField(ConvertVar(first, IntK))
      ensures common == IntK ==> IntField(right) == IntField(ConvertVar(second, IntK))
      ensures common == FloatK ==> FloatField(left) == FloatField(ConvertVar(first, FloatK))
      ensures common == FloatK ==> FloatField(right) == FloatField(ConvertVar(second, FloatK))
      ensures common != IntK && common != FloatK ==> left == first && right == second
    {
      hide Wrap32, Numbers.AtoiExact, Atof, Truncate;
      left, right, common := first, second, KindOf(first);
      if KindOf(left) != KindOf(right) {
        if left.FloatV? || right.FloatV? {
          common := FloatK;
          left := ConvertVar(left, FloatK);
          right := ConvertVar(right, FloatK);
        } else if left.IntV? || right.IntV? {
          common := IntK;
          left := ConvertVar(left, IntK);
          right := ConvertVar(right, IntK);
        }
      }
    }

    /** The operator part of `eval_expr`, on operands that are already there. */
    method ApplyOperator(op: char, first: Value, second: Value) returns (result: Value, fault: bool)
      requires IsOp(op)
      modifies this`hadError
      ensures fault == Apply(op, first, second).Fault?
      ensures !fault ==> result == Apply(op, first, second).v
      ensures !fault ==> hadError == (old(hadError) || Apply(op, first, second).Err?)
    {
      hide Wrap32, CDiv, ConvertVar;
      var left, right, common := Balance(first, second);
      fault := false;
      result := Stale(first, common);
      if op == '+' {
        if common == IntK {
          result := IntV(Wrap32(IntField(left) + IntField(right)));
        } else if common == FloatK {
          result := FloatV(FloatField(left) + FloatField(right));
        } else if common == StrK {
          if !right.StrV? {
            return result, true;
          }
          result := StrV(left.s + right.s);
        }
      } else if op == '-' {
        if common == IntK {
          result := IntV(Wrap32(IntField(left) - IntField(right)));
        } else if common == FloatK {
          result := FloatV(FloatField(left) - FloatField(right));
        }
      } else if op == '*' {
        if common == IntK {
          result := IntV(Wrap32(IntField(left) * IntField(right)));
        } else if common == FloatK {
          result := FloatV(FloatField(left) * FloatField(right));
        }
      } else {
        if common == IntK && IntField(right) != 0 {
          if IntField(left) == INT_MIN && IntField(right) == -1 {
            return result, true;
          }
          result := IntV(Wrap32(CDiv(IntField(left), IntField(right))));
        } else if common == FloatK && FloatField(right) != 0.0 {
          result := FloatV(FloatField(left) / FloatField(right));
        } else {
          hadError := true;
        }
      }
    }

    /** `eval_expr`: parsing and evaluating in one pass gives what the chain in the text denotes. */
    method EvalExpr() returns (result: MshVar, fault: bool)
      requires Valid()
      modifies this`pc, this`hadError, this`identBuf
      ensures Valid()
      ensures fault == Denote(ChainAt(code, old(pc)), Vars()).Fault?
      ensures !fault ==>
                var c := ChainAt(code, old(pc));
                var meaning := Denote(c, Vars());
                && pc == ChainEnd(code, old(pc))
                && identBuf == LastKey(c, old(identBuf))
                && result.name == ResultName(c, Vars())
                && hadError == (old(hadError) || meaning.Err?)
                && result.val == meaning.v
      decreases |code| - pc
    {
      hide SpanEnd, FirstAt, FirstEnd, ChainAt, ChainEnd, OperandAt, OperandEnd, OperandValue, Denote, Combine;
      hide ResultName, LastKey, Find, Apply, Key, CommonKind, Faults;
      ghost var start := pc;
      FirstParts(code, pc);
      SkipWhitespace();
      var left, early := EvalOperand();
      if early {
        EarlyReturn(code, start, Vars(), old(identBuf));
        return left, false;
      }
      SkipWhitespace();
      var op := At(code, pc);
      if IsOp(op) {
        ghost var o, k := FirstAt(code, start), pc;
        pc := pc + 1;
        var right, rightFault := EvalExpr();
        LinkMeaning(code, start, Vars(), old(identBuf));
        CombineMeaning(op, OperandValue(o, Vars()), Denote(ChainAt(code, k + 1), Vars()));
        if rightFault {
          return left, true;
        }
        var value;
        value, fault := ApplyOperator(op, left.val, right.val);
        result := MshVar(left.name, value);
      } else {
        LastMeaning(code, start, Vars());
        result, fault := left, false;
      }
    }

    /** The letter branch of the statement loop. */
    method RunStatement() returns (fault: bool)
      requires Valid() && !hadError && IsAlpha(At(code, pc))
      modifies this`pc, this`hadError, this`identBuf, this`varCount, vars
      ensures Valid()
      ensures
        match Statement(code, old(pc), old(Memory(Vars(), identBuf)))
        case Next(k, m) => !fault && !hadError && pc == k && Memory(Vars(), identBuf) == m
        case Stop(r) =>
          if fault then r.exit == Crashed && Vars() == r.mem.vars
          else hadError && r == RunResult(Returned(false), pc, Memory(Vars(), identBuf))
    {
      hide Denote, ChainAt, ChainEnd, Key, ResultName, LastKey, Find;
      SpanIs(code, pc, Blank, pc);
      hide SpanEnd;
      ParseIdent();
      SkipWhitespace();
      fault := false;
      if At(code, pc) == '=' {
        pc := pc + 1;
        var value;
        value, fault := EvalExpr();
        if !fault && !hadError {
          AssignLast(value);
        }
      }
    }

    /** `msh_execute`: exactly the run of the program over the shell's memory. `text` is the memory from the
        program's first character on. */
    method Execute(text: string) returns (exit: Exit)
      requires Valid()
      modifies this, vars
      ensures Valid()
      ensures
        var r := Run(text, 0, old(Memory(Vars(), identBuf)));
        && exit == r.exit
        && (exit.Returned? ==> pc == r.pc)
        && Vars() == r.mem.vars && (!exit.Crashed? ==> identBuf == r.mem.key)
    {
      hide SpanEnd, Statement;
      code, pc, hadError := text, 0, false;
      ghost var start := Run(text, 0, Memory(Vars(), identBuf));
      while At(code, pc) != NUL && !hadError
        invariant Valid() && code == text
        invariant !hadError ==> start == Run(text, pc, Memory(Vars(), identBuf))
        invariant hadError ==> start == RunResult(Returned(false), pc, Memory(Vars(), identBuf))
        decreases |code| - pc, !hadError
      {
        SkipWhitespace();
        if IsAlpha(At(code, pc)) {
          var fault := RunStatement();
          if fault {
            return Crashed;
          }
        } else if pc == |code| {
          // The branches for "print(", "if " and "while " begin with a letter, so none of them is taken.
          return Overran;
        } else {
          pc := pc + 1;
        }
      }
      return Returned(!hadError);
    }

    /** Storing a value under the name that is in the shared buffer by then. */
    method AssignLast(value: MshVar)
      requires Valid() && !hadError
      modifies this`varCount, this`hadError, vars
      ensures Valid()
      ensures hadError <==> !(old(Bound(Vars(), identBuf)) || old(varCount) < MAX_VARS)
      ensures Vars() == if hadError then old(Vars()) else Store(old(Vars()), identBuf, value)
    {
      var i := FindVar(identBuf);
      if i == varCount {
        if varCount < MAX_VARS {
          varCount := varCount + 1;
        } else {
          hadError := true;
          return;
        }
      }
      vars[i] := value;
    }
  }

  lemma EmptyKey(s: string, i: nat)
    requires i <= |s|
    ensures Key(s[i..i]) == ""
  {
  }

  lemma KeyStep(s: string, i: nat, p: nat)
    requires i <= p < |s|
    ensures Key(s[i..p + 1]) == if |Key(s[i..p])| < 31 then Key(s[i..p]) + [s[p]] else Key(s[i..p])
  {
  }

  lemma FirstParts(s: string, i: nat)
    requires i <= |s|
    ensures FirstAt(s, i) == OperandAt(s, SpanEnd(s, i, Blank))
    ensures FirstEnd(s, i) == SpanEnd(s, OperandEnd(s, SpanEnd(s, i, Blank)), Blank)
  {
    hide SpanEnd, OperandAt, OperandEnd;
  }

  lemma EarlyReturn(s: string, i: nat, vars: seq<MshVar>, key: string)
    requires i <= |s| && FirstAt(s, i).Unterminated?
    ensures
      var c := ChainAt(s, i);
      && ChainEnd(s, i) == OperandEnd(s, SpanEnd(s, i, Blank))
      && Denote(c, vars) == Err(NoneV) && OperandValue(FirstAt(s, i), vars) == Err(NoneV)
      && LastKey(c, key) == LastKey(Last(FirstAt(s, i)), key)
      && ResultName(c, vars) == ResultName(Last(FirstAt(s, i)), vars)
  {
    hide LastKey, Find, Combine;
  }

  /** A chain of one operand. */
  lemma LastMeaning(s: string, i: nat, vars: seq<MshVar>)
    requires i <= |s| && !IsOp(At(s, FirstEnd(s, i)))
    ensures
      var c := ChainAt(s, i);
      && c == Last(FirstAt(s, i)) && ChainEnd(s, i) == FirstEnd(s, i)
      && Denote(c, vars) == OperandValue(FirstAt(s, i), vars)
  {
    hide FirstAt, FirstEnd, OperandValue;
  }

  /** A chain of several: its first operand and the rest. */
  lemma LinkMeaning(s: string, i: nat, vars: seq<MshVar>, key: string)
    requires i <= |s| && IsOp(At(s, FirstEnd(s, i)))
    ensures
      var o, k := FirstAt(s, i), FirstEnd(s, i);
      var c, rest := ChainAt(s, i), ChainAt(s, k + 1);
      && ChainEnd(s, i) == ChainEnd(s, k + 1)
      && Denote(c, vars) == Combine(s[k], OperandValue(o, vars), Denote(rest, vars))
      && LastKey(c, key) == LastKey(rest, LastKey(Last(o), key))
      && ResultName(c, vars) == ResultName(Last(o), vars)
  {
    hide FirstAt, FirstEnd, OperandValue, Combine, Find, Key;
  }

  lemma CombineMeaning(op: char, l: Outcome, r: Outcome)
    requires IsOp(op) && !l.Fault?
    ensures r.Fault? ==> Combine(op, l, r).Fault?
    ensures !r.Fault? ==>
              var a, c := Apply(op, l.v, r.v), Combine(op, l, r);
              && (c.Fault? <==> a.Fault?)
              && (!c.Fault? ==> c.v == a.v && (c.Err? <==> l.Err? || r.Err? || a.Err?))
  {
    hide Apply;
  }

  lemma {:induction false} FindIs(vars: seq<MshVar>, name: string, i: nat)
    requires i <= |vars|
    requires forall j :: 0 <= j < i ==> vars[j].name != name
    requires i < |vars| ==> vars[i].name == name
    ensures Find(vars, name) == i
  {
    if i > 0 {
      FindIs(vars[1..], name, i - 1);
    }
  }
}
