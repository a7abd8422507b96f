/** Whole runs of the micro-shell: where they stop, and what they can ever leave in the variable table. */
module ShellRuns {
  import opened CInt
  import opened Text
  import opened ShellSyntax
  import opened ShellMeaning
  import opened Shell
  import Numbers

  // ---------- Where a run stops ----------

  /** Where the word at position `j` ends, with the blanks after it. */
  function HeadEnd(s: string, j: nat): (k: nat)
    requires j < |s| && IsAlpha(s[j])
    ensures j < k <= |s|
  {
    assert SpanEnd(s, j, Word) > j;
    SpanEnd(s, SpanEnd(s, j, Word), Blank)
  }

  /** Where the statement at position `j` ends, by the text alone. */
  function StatementEnd(s: string, j: nat): (k: nat)
    requires j < |s| && IsAlpha(s[j])
    ensures j < k <= |s|
  {
    var k := HeadEnd(s, j);
    if At(s, k) == '=' then ChainEnd(s, k + 1) else k
  }

  /** Some statement head is followed by nothing but blanks, at least one. A test on the text alone. */
  predicate HeadBeforeBlanks(s: string, i: nat)
    requires i <= |s|
    decreases |s| - i
  {
    var j := SpanEnd(s, i, Blank);
    At(s, i) != NUL && (j == |s| || HeadBeforeBlanks(s, if IsAlpha(s[j]) then StatementEnd(s, j) else j + 1))
  }

  /** The expression at position `k` has a value and the value has a slot to go to. */
  predicate Assignable(s: string, k: nat, m: Memory)
    requires k <= |s|
  {
    var c := ChainAt(s, k);
    Denote(c, m.vars).Ok? && (Bound(m.vars, LastKey(c, m.key)) || |m.vars| < MAX_VARS)
  }

  function Assigned(s: string, k: nat, m: Memory): Memory
    requires k <= |s| && Assignable(s, k, m)
  {
    var c := ChainAt(s, k);
    var last := LastKey(c, m.key);
    Memory(Store(m.vars, last, MshVar(ResultName(c, m.vars), Denote(c, m.vars).v)), last)
  }

  /** The memory after the word at position `j` was read into the name buffer. */
  function Named(s: string, j: nat, m: Memory): Memory
    requires j < |s|
  {
    Memory(m.vars, Key(s[j..SpanEnd(s, j, Word)]))
  }

  /** Every assignment that the text from position `i` on meets is assignable in its turn. */
  predicate AllAssign(s: string, i: nat, m: Memory)
    requires i <= |s|
    decreases |s| - i
  {
    hide SpanEnd, HeadEnd, ChainEnd, Assignable, Assigned, Named;
    var j := SpanEnd(s, i, Blank);
    || At(s, i) == NUL || j == |s|
    || if IsAlpha(s[j]) then
         var k, named := HeadEnd(s, j), Named(s, j, m);
         if At(s, k) != '=' then AllAssign(s, k, named)
         else Assignable(s, k + 1, named) && AllAssign(s, ChainEnd(s, k + 1), Assigned(s, k + 1, named))
       else AllAssign(s, j + 1, m)
  }

  lemma AssignStep(s: string, k: nat, m: Memory)
    requires k <= |s|
    ensures
      if Assignable(s, k, m) then Assign(s, k, m) == Next(ChainEnd(s, k), Assigned(s, k, m))
      else Assign(s, k, m).Stop?
  {
    hide SpanEnd, Denote, ChainAt, ChainEnd, Key, LastKey, Find, Store;
  }

  lemma StatementStep(s: string, j: nat, m: Memory)
    requires j < |s| && IsAlpha(s[j])
    ensures
      var k, named := HeadEnd(s, j), Named(s, j, m);
      if At(s, k) != '=' then Statement(s, j, m) == Next(k, named)
      else if Assignable(s, k + 1, named) then
        Statement(s, j, m) == Next(ChainEnd(s, k + 1), Assigned(s, k + 1, named))
      else Statement(s, j, m).Stop?
  {
    hide SpanEnd, Assign, Assignable, Assigned, ChainEnd, Key;
    var k := HeadEnd(s, j);
    if At(s, k) == '=' {
      AssignStep(s, k + 1, Named(s, j, m));
    }
  }

  /** pc only grows and stays inside the text, success means that it has come to a terminator, and whether a
      run succeeds, steps over the last terminator or fails is decided by the text and the assignments it meets. */
  lemma {:induction false} RunStops(s: string, i: nat, m: Memory)
    requires i <= |s|
    ensures
      var r := Run(s, i, m);
      && (r.exit != Overran ==> i <= r.pc <= |s|)
      && (r.exit == Returned(true) ==> At(s, r.pc) == NUL)
      && (r.exit == Overran ==> r.pc == |s| + 1)
      && (r.exit == Overran <==> HeadBeforeBlanks(s, i) && AllAssign(s, i, m))
      && (r.exit == Returned(true) <==> !HeadBeforeBlanks(s, i) && AllAssign(s, i, m))
    decreases |s| - i
  {
    hide SpanEnd, Statement, StatementEnd, HeadEnd, Assignable, Assigned, Named;
    var j := SpanEnd(s, i, Blank);
    if At(s, i) == NUL || j == |s| {
    } else if !IsAlpha(s[j]) {
      RunStops(s, j + 1, m);
    } else {
      StatementStep(s, j, m);
      EndOfHead(s, j);
      var t := Statement(s, j, m);
      if t.Next? {
        RunStops(s, t.pc, t.mem);
      }
    }
  }

  lemma EndOfHead(s: string, j: nat)
    requires j < |s| && IsAlpha(s[j])
    ensures
      var k := HeadEnd(s, j);
      StatementEnd(s, j) == if At(s, k) == '=' then ChainEnd(s, k + 1) else k
  {
  }

  /** The trailing blanks are needed: without them no run steps over the terminator. */
  lemma {:induction false} BlanksAtEnd(s: string, i: nat)
    requires i <= |s| && HeadBeforeBlanks(s, i)
    ensures s != "" && IsSpace(s[|s| - 1])
    decreases |s| - i
  {
    var j := SpanEnd(s, i, Blank);
    if j == |s| {
      SpanAll(s, i, Blank);
      assert s[i..j][|s| - 1 - i] == s[|s| - 1];
    } else {
      BlanksAtEnd(s, if IsAlpha(s[j]) then StatementEnd(s, j) else j + 1);
    }
  }

  /** One digit and one blank are enough to step over it. */
  lemma DigitBlankOverruns(m: Memory)
    ensures Run("5 ", 0, m).exit == Overran
  {
    var s := "5 ";
    SpanIs(s, 0, Blank, 0);
    SpanIs(s, 1, Blank, 2);
    assert Run(s, 1, m).exit == Overran;
  }

  // ---------- What a run can store ----------

  /** No slot has a name. */
  predicate Anonymous(vars: seq<MshVar>) {
    forall i :: 0 <= i < |vars| ==> vars[i].name == ""
  }

  predicate HasName(c: Chain) {
    c.o.Name? || (c.Link? && HasName(c.rest))
  }

  /** Names in a chain are never empty. */
  predicate NonemptyNames(c: Chain) {
    (c.o.Name? ==> c.o.word != "") && (c.Link? ==> NonemptyNames(c.rest))
  }

  lemma ReadName(s: string, j: nat)
    requires j <= |s| && OperandAt(s, j).Name?
    ensures OperandAt(s, j).word != ""
  {
    assert SpanEnd(s, j, Word) > j;
  }

  lemma {:induction false} ReadNames(s: string, i: nat)
    requires i <= |s|
    ensures NonemptyNames(ChainAt(s, i))
    decreases |s| - i
  {
    hide SpanEnd, OperandAt, OperandEnd, ChainAt, FirstEnd;
    var k := FirstEnd(s, i);
    ChainCases(s, i);
    if FirstAt(s, i).Name? {
      ReadName(s, SpanEnd(s, i, Blank));
    }
    if IsOp(At(s, k)) {
      ReadNames(s, k + 1);
    }
  }

  lemma NothingBound(vars: seq<MshVar>, name: string)
    requires Anonymous(vars) && name != ""
    ensures !Bound(vars, name)
  {
  }

  /** Over a table without names an expression with a variable in it never has a value. */
  lemma {:induction false} NoNameHasValue(c: Chain, vars: seq<MshVar>)
    requires Anonymous(vars) && NonemptyNames(c) && HasName(c)
    ensures !Denote(c, vars).Ok?
  {
    if c.o.Name? {
      NothingBound(vars, Key(c.o.word));
    } else {
      NoNameHasValue(c.rest, vars);
    }
  }

  lemma {:induction false} KeyUnchanged(c: Chain, before: string)
    requires !HasName(c)
    ensures LastKey(c, before) == before
  {
    if c.Link? {
      KeyUnchanged(c.rest, before);
    }
  }

  /** A state the shell can be in: few enough slots, none with a name, none FLOAT or BOOL. */
  predicate Reachable(m: Memory) {
    |m.vars| <= MAX_VARS && Anonymous(m.vars) && Plain(m.vars)
  }

  /** An assignment that succeeds takes a new slot, and leaves it without a name. */
  lemma AssignReachable(s: string, k: nat, m: Memory)
    requires k <= |s| && Reachable(m) && m.key != ""
    ensures
      match Assign(s, k, m)
      case Next(_, n) =>
        && Reachable(n) && |m.vars| < MAX_VARS && Denote(ChainAt(s, k), m.vars).Ok?
        && n.vars == m.vars + [MshVar("", Denote(ChainAt(s, k), m.vars).v)]
      case Stop(r) => r.mem.vars == m.vars
  {
    var c := ChainAt(s, k);
    ReadNames(s, k);
    PlainResult(c, m.vars);
    if HasName(c) {
      NoNameHasValue(c, m.vars);
    } else {
      KeyUnchanged(c, m.key);
      NothingBound(m.vars, m.key);
    }
  }

  lemma StatementReachable(s: string, j: nat, m: Memory)
    requires j < |s| && IsAlpha(s[j]) && Reachable(m)
    ensures
      match Statement(s, j, m)
      case Next(_, n) => Reachable(n)
      case Stop(r) => Reachable(r.mem)
  {
    hide Assign;
    var n := SpanEnd(s, j, Word);
    assert n > j;
    var k := SpanEnd(s, n, Blank);
    if At(s, k) == '=' {
      AssignReachable(s, k + 1, Memory(m.vars, Key(s[j..n])));
    }
  }

  lemma {:induction false} RunReachable(s: string, i: nat, m: Memory)
    requires i <= |s| && Reachable(m)
    ensures Reachable(Run(s, i, m).mem)
    decreases |s| - i
  {
    hide Statement, Reachable;
    var j := SpanEnd(s, i, Blank);
    if At(s, i) == NUL || j == |s| {
    } else if !IsAlpha(s[j]) {
      RunReachable(s, j + 1, m);
    } else {
      StatementReachable(s, j, m);
      var t := Statement(s, j, m);
      if t.Next? {
        RunReachable(s, t.pc, t.mem);
      }
    }
  }

  /** The memory after executing some programs one after the other. */
  function Session(programs: seq<string>, m: Memory): Memory {
    if programs == [] then m
    else Run(programs[|programs| - 1], 0, Session(programs[..|programs| - 1], m)).mem
  }

  const INITIAL: Memory := Memory([], "")

  lemma {:induction false} SessionReachable(programs: seq<string>)
    ensures Reachable(Session(programs, INITIAL))
    decreases |programs|
  {
    if programs != [] {
      SessionReachable(programs[..|programs| - 1]);
      RunReachable(programs[|programs| - 1], 0, Session(programs[..|programs| - 1], INITIAL));
    }
  }

  /** No program ever sees an assigned variable: after any session, from `msh_init` on, every expression
      that mentions a name fails, whatever was assigned to that name before. */
  lemma NoReadBack(programs: seq<string>, s: string, i: nat)
    requires i <= |s| && HasName(ChainAt(s, i))
    ensures !Denote(ChainAt(s, i), Session(programs, INITIAL).vars).Ok?
  {
    SessionReachable(programs);
    ReadNames(s, i);
    NoNameHasValue(ChainAt(s, i), Session(programs, INITIAL).vars);
  }

  /** Every value an expression ever has is NONE, INT or STR. */
  lemma NoFloatNoBool(programs: seq<string>, s: string, i: nat)
    requires i <= |s|
    ensures
      var meaning := Denote(ChainAt(s, i), Session(programs, INITIAL).vars);
      meaning.Fault? || OutcomeKind(meaning) in {NoneK, IntK, StrK}
  {
    SessionReachable(programs);
    PlainResult(ChainAt(s, i), Session(programs, INITIAL).vars);
  }

  /** Each assignment takes a slot, so with the table full no assignment succeeds any more. */
  lemma NoSixtyFifthAssignment(programs: seq<string>, s: string, k: nat, key: string)
    requires k <= |s| && key != ""
    requires |Session(programs, INITIAL).vars| == 64
    ensures Assign(s, k, Memory(Session(programs, INITIAL).vars, key)).Stop?
  {
    SessionReachable(programs);
    AssignReachable(s, k, Memory(Session(programs, INITIAL).vars, key));
  }

  // ---------- Where a run stops, by its text alone ----------

  /** From position `i` on every assignment has a value without any variable, and there are at most `free`. */
  predicate EveryValueStands(s: string, i: nat, free: nat)
    requires i <= |s|
    decreases |s| - i
  {
    hide SpanEnd, HeadEnd, ChainEnd, ChainAt, Denote;
    var j := SpanEnd(s, i, Blank);
    || At(s, i) == NUL || j == |s|
    || if IsAlpha(s[j]) then
         var k := HeadEnd(s, j);
         if At(s, k) != '=' then EveryValueStands(s, k, free)
         else
           && free > 0 && Denote(ChainAt(s, k + 1), []).Ok?
           && EveryValueStands(s, ChainEnd(s, k + 1), free - 1)
       else EveryValueStands(s, j + 1, free)
  }

  lemma {:induction false} NamelessChain(c: Chain, vars: seq<MshVar>)
    requires !HasName(c)
    ensures Denote(c, vars) == Denote(c, [])
  {
    if c.Link? {
      NamelessChain(c.rest, vars);
    }
  }

  lemma SameValue(s: string, k: nat, vars: seq<MshVar>)
    requires k <= |s| && Anonymous(vars)
    ensures Denote(ChainAt(s, k), vars).Ok? <==> Denote(ChainAt(s, k), []).Ok?
  {
    var c := ChainAt(s, k);
    ReadNames(s, k);
    if HasName(c) {
      NoNameHasValue(c, vars);
      NoNameHasValue(c, []);
    } else {
      NamelessChain(c, vars);
    }
  }

  lemma SlotTest(s: string, k: nat, m: Memory)
    requires k <= |s| && Reachable(m) && m.key != ""
    ensures Assignable(s, k, m) <==> |m.vars| < MAX_VARS && Denote(ChainAt(s, k), []).Ok?
    ensures Assignable(s, k, m) ==>
              Reachable(Assigned(s, k, m)) && |Assigned(s, k, m).vars| == |m.vars| + 1
  {
    hide Denote, ChainAt, ChainEnd, LastKey, Find, Store, Anonymous, Plain;
    AssignReachable(s, k, m);
    SameValue(s, k, m.vars);
  }

  lemma NamedKey(s: string, j: nat, m: Memory)
    requires j < |s| && IsAlpha(s[j])
    ensures Named(s, j, m).key != "" && Named(s, j, m).vars == m.vars
  {
    assert SpanEnd(s, j, Word) > j;
  }

  lemma {:induction false} TextDecides(s: string, i: nat, m: Memory)
    requires i <= |s| && Reachable(m)
    ensures AllAssign(s, i, m) <==> EveryValueStands(s, i, MAX_VARS - |m.vars|)
    decreases |s| - i
  {
    hide SpanEnd, HeadEnd, ChainEnd, ChainAt, Denote, Assignable, Assigned, Named, Anonymous, Plain;
    var j := SpanEnd(s, i, Blank);
    if At(s, i) == NUL || j == |s| {
    } else if !IsAlpha(s[j]) {
      TextDecides(s, j + 1, m);
    } else {
      var k, named := HeadEnd(s, j), Named(s, j, m);
      NamedKey(s, j, m);
      if At(s, k) != '=' {
        TextDecides(s, k, named);
      } else {
        SlotTest(s, k + 1, named);
        if Assignable(s, k + 1, named) {
          TextDecides(s, ChainEnd(s, k + 1), Assigned(s, k + 1, named));
        }
      }
    }
  }

  /** After any session, how the next program ends is decided by its text and the number of free slots. */
  lemma SessionStops(programs: seq<string>, s: string)
    ensures
      var m := Session(programs, INITIAL);
      && |m.vars| <= MAX_VARS
      && var stands := EveryValueStands(s, 0, MAX_VARS - |m.vars|);
         && (Run(s, 0, m).exit == Overran <==> HeadBeforeBlanks(s, 0) && stands)
         && (Run(s, 0, m).exit == Returned(true) <==> !HeadBeforeBlanks(s, 0) && stands)
  {
    hide Run, HeadBeforeBlanks, AllAssign, EveryValueStands;
    SessionReachable(programs);
    RunStops(s, 0, Session(programs, INITIAL));
    TextDecides(s, 0, Session(programs, INITIAL));
  }

  // ---------- How many slots a run takes ----------

  /** How many assignments the text meets from position `i` on. */
  function Assignments(s: string, i: nat): nat
    requires i <= |s|
    decreases |s| - i
  {
    hide SpanEnd, HeadEnd, ChainEnd;
    var j := SpanEnd(s, i, Blank);
    if At(s, i) == NUL || j == |s| then 0
    else if IsAlpha(s[j]) then
      var k := HeadEnd(s, j);
      if At(s, k) == '=' then 1 + Assignments(s, ChainEnd(s, k + 1)) else Assignments(s, k)
    else Assignments(s, j + 1)
  }

  lemma StopsAsItWas(s: string, j: nat, m: Memory)
    requires j < |s| && IsAlpha(s[j]) && Statement(s, j, m).Stop?
    ensures Statement(s, j, m).r.mem.vars == m.vars
  {
    hide SpanEnd, Denote, ChainAt, ChainEnd, Key, LastKey, Find, Store;
  }

  predicate Completes(exit: Exit) {
    exit == Overran || exit == Returned(true)
  }

  /** A run takes at most one slot for every assignment it meets, and all of them iff nothing fails. */
  lemma {:induction false} RunAddsSlots(s: string, i: nat, m: Memory)
    requires i <= |s| && Reachable(m)
    ensures
      var r := Run(s, i, m);
      && |m.vars| <= |r.mem.vars| <= |m.vars| + Assignments(s, i)
      && (|r.mem.vars| == |m.vars| + Assignments(s, i) <==> Completes(r.exit) || Assignments(s, i) == 0)
      && (Assignments(s, i) == 0 ==> Completes(r.exit) && r.mem.vars == m.vars)
    decreases |s| - i
  {
    hide SpanEnd, HeadEnd, ChainEnd, ChainAt, Denote, Statement, Assignable, Assigned, Named, Anonymous, Plain;
    var j := SpanEnd(s, i, Blank);
    if At(s, i) == NUL || j == |s| {
    } else if !IsAlpha(s[j]) {
      RunAddsSlots(s, j + 1, m);
    } else {
      var k, named := HeadEnd(s, j), Named(s, j, m);
      StatementStep(s, j, m);
      NamedKey(s, j, m);
      if At(s, k) != '=' {
        RunAddsSlots(s, k, named);
      } else {
        SlotTest(s, k + 1, named);
        if Assignable(s, k + 1, named) {
          RunAddsSlots(s, ChainEnd(s, k + 1), Assigned(s, k + 1, named));
        } else {
          StopsAsItWas(s, j, m);
        }
      }
    }
  }

  /** The name buffer a run starts with has no influence on it. */
  lemma {:induction false} KeyIsForgotten(s: string, i: nat, m: Memory, n: Memory)
    requires i <= |s| && m.vars == n.vars
    ensures
      var r, q := Run(s, i, m), Run(s, i, n);
      r.exit == q.exit && r.pc == q.pc && r.mem.vars == q.mem.vars
    decreases |s| - i
  {
    hide SpanEnd, Statement;
    var j := SpanEnd(s, i, Blank);
    if At(s, i) == NUL || j == |s| {
    } else if !IsAlpha(s[j]) {
      KeyIsForgotten(s, j + 1, m, n);
    } else {
      SameStatement(s, j, m, n);
    }
  }

  lemma SameStatement(s: string, j: nat, m: Memory, n: Memory)
    requires j < |s| && IsAlpha(s[j]) && m.vars == n.vars
    ensures Statement(s, j, m) == Statement(s, j, n)
  {
    hide SpanEnd, Assign, Key;
  }

  /** More free slots do no harm, and there are at least as many as assignments. */
  lemma {:induction false} MoreFree(s: string, i: nat, free: nat, more: nat)
    requires i <= |s| && EveryValueStands(s, i, free) && free <= more
    ensures EveryValueStands(s, i, more) && Assignments(s, i) <= free
    decreases |s| - i
  {
    hide SpanEnd, HeadEnd, ChainEnd, ChainAt, Denote;
    var j := SpanEnd(s, i, Blank);
    if At(s, i) == NUL || j == |s| {
    } else if !IsAlpha(s[j]) {
      MoreFree(s, j + 1, free, more);
    } else {
      var k := HeadEnd(s, j);
      if At(s, k) != '=' {
        MoreFree(s, k, free, more);
      } else {
        MoreFree(s, ChainEnd(s, k + 1), free - 1, more - 1);
      }
    }
  }

  // ---------- An example from text to value ----------

  function Digit(d: char): Spelling {
    Spelling("", Num([d]), "")
  }

  const EXAMPLE: Printed := Join(Digit('2'), '*', Join(Digit('3'), '+', Final(Digit('4'))))

  lemma ExampleText()
    ensures Show(EXAMPLE) == "2*3+4" && WritableChain(EXAMPLE)
  {
    assert forall d :: ShowSpelling(Digit(d)) == [d];
  }

  lemma ExampleValue()
    ensures Numeric(Erase(EXAMPLE)) && Exact(Erase(EXAMPLE)) == 14
  {
    forall d: char
      ensures Numbers.Decimal([d]) == Numbers.DigitValue(d)
    {
      assert [d][..0] == "";
    }
  }

  /** `*` binds no tighter than `+`: 2*3+4 is 2*(3+4). */
  lemma TwoTimesThreePlusFour(vars: seq<MshVar>)
    ensures Denote(ChainAt("2*3+4", 0), vars) == Ok(IntV(14))
  {
    hide Show, WritableChain, Erase, Exact, Numeric, Denote, ChainAt, Wrap32;
    ExampleText();
    ExampleValue();
    ParseShown(EXAMPLE, "2*3+4", 0);
    NumericChain(Erase(EXAMPLE), vars);
  }

  // ---------- The division that traps ----------

  const LEAST: string := "2147483648"
  const MINUS_ONE: Printed := Join(Digit('0'), '-', Final(Digit('1')))
  const TRAP: Printed := Join(Spelling("", Num(LEAST), ""), '/', MINUS_ONE)

  lemma DecimalNothing()
    ensures Numbers.Decimal("") == 0
  {
  }

  lemma LeastValue()
    ensures Numbers.Decimal(LEAST) == 2147483648
  {
    hide Numbers.Decimal;
    DecimalNothing();
    Numbers.DecimalAppend("", '2', "2");
    Numbers.DecimalAppend("2", '1', "21");
    Numbers.DecimalAppend("21", '4', "214");
    Numbers.DecimalAppend("214", '7', "2147");
    Numbers.DecimalAppend("2147", '4', "21474");
    Numbers.DecimalAppend("21474", '8', "214748");
    Numbers.DecimalAppend("214748", '3', "2147483");
    Numbers.DecimalAppend("2147483", '6', "21474836");
    Numbers.DecimalAppend("21474836", '4', "214748364");
    Numbers.DecimalAppend("214748364", '8', LEAST);
  }

  lemma MinusOneText()
    ensures Show(MINUS_ONE) == "0-1" && WritableChain(MINUS_ONE)
  {
    assert forall d :: ShowSpelling(Digit(d)) == [d];
  }

  lemma TrapText()
    ensures Show(TRAP) == "2147483648/0-1" && WritableChain(TRAP)
  {
    MinusOneText();
    hide Show, WritableChain, AllIn;
    LeastIsDigits();
    ShowJoin(Spelling("", Num(LEAST), ""), '/', MINUS_ONE);
    assert ShowSpelling(Spelling("", Num(LEAST), "")) == LEAST;
  }

  lemma ShowJoin(p: Spelling, op: char, tail: Printed)
    ensures Show(Join(p, op, tail)) == ShowSpelling(p) + [op] + Show(tail)
    ensures WritableChain(Join(p, op, tail)) <==> WritableSpelling(p) && IsOp(op) && WritableChain(tail)
  {
  }

  lemma LeastIsDigits()
    ensures AllIn(LEAST, CharClass.Digit) && AllIn("", Blank)
  {
  }

  lemma MinusOne(vars: seq<MshVar>)
    ensures Denote(Erase(MINUS_ONE), vars) == Ok(IntV(-1))
  {
    hide Numbers.Decimal;
    DecimalNothing();
    Numbers.DecimalAppend("", '0', "0");
    Numbers.DecimalAppend("", '1', "1");
  }

  lemma LeastOver(rest: Chain, vars: seq<MshVar>)
    requires Denote(rest, vars) == Ok(IntV(-1))
    ensures Denote(Link(Num(LEAST), '/', rest), vars) == Fault
  {
    LeastValue();
    hide Numbers.Decimal;
  }

  /** The least `int` divided by minus one: 2147483648 is read as the least one, and 0-1 stands to its right. */
  lemma LeastByMinusOneTraps(vars: seq<MshVar>)
    ensures Denote(ChainAt("2147483648/0-1", 0), vars) == Fault
  {
    hide Show, WritableChain, ChainAt, Denote;
    TrapText();
    ParseShown(TRAP, "2147483648/0-1", 0);
    MinusOne(vars);
    LeastOver(Erase(MINUS_ONE), vars);
  }
}
