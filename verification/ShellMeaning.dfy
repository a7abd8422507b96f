/** What a chain of the micro-shell denotes over a variable store (microshell.c:114-355). */
module ShellMeaning {
  import opened CInt
  import opened Text
  import opened ShellSyntax
  import Numbers

  datatype Kind = NoneK | IntK | FloatK | StrK | BoolK

  /** A typed value: the tag and the union member the tag selects. */
  datatype Value =
    | NoneV
    | IntV(i: Int32)
    | FloatV(f: real)
    | StrV(s: string)
    | BoolV(b: bool)

  function KindOf(v: Value): Kind {
    match v
    case NoneV => NoneK
    case IntV(_) => IntK
    case FloatV(_) => FloatK
    case StrV(_) => StrK
    case BoolV(_) => BoolK
  }

  /** One slot of the variable table; an expression's result carries a slot's name along. */
  datatype MshVar = MshVar(name: string, val: Value)

  /** After an error the value that was in place is left, and later operators still work on it. */
  datatype Outcome =
    | Ok(v: Value)
    | Err(v: Value)
    | Fault  // a read through the null pointer of an operand without a string, or a quotient out of range

  function OutcomeKind(o: Outcome): Kind
    requires !o.Fault?
  {
    KindOf(o.v)
  }

  // ---------- Conversions (convert_var) ----------

  function Truncate(f: real): int {
    if f >= 0.0 then f.Floor else -((-f).Floor)
  }

  function AtofFrom(s: string, i: nat, value: real, fraction: real, point: bool): real
    requires i <= |s|
    decreases |s| - i
  {
    if i == |s| then value
    else if IsDigit(s[i]) then
      var d := Numbers.DigitValue(s[i]) as real;
      if point then AtofFrom(s, i + 1, value + d * (fraction * 0.1), fraction * 0.1, true)
      else AtofFrom(s, i + 1, value * 10.0 + d, fraction, false)
    else if s[i] == '.' && !point then AtofFrom(s, i + 1, value, fraction, true)
    else value
  }

  function BlanksEnd(s: string, i: nat): (j: nat)
    requires i <= |s|
    ensures j <= |s|
    decreases |s| - i
  {
    if i < |s| && (s[i] == ' ' || s[i] == '\t') then BlanksEnd(s, i + 1) else i
  }

  function Atof(s: string): real {
    var p := BlanksEnd(s, 0);
    if At(s, p) == '-' then -AtofFrom(s, p + 1, 0.0, 1.0, false)
    else if At(s, p) == '+' then AtofFrom(s, p + 1, 0.0, 1.0, false)
    else AtofFrom(s, p, 0.0, 1.0, false)
  }

  /** A value of no convertible type keeps its own tag, whatever the target. */
  function ConvertVar(v: Value, target: Kind): Value
    requires target == IntK || target == FloatK
  {
    match v
    case IntV(i) => if target == FloatK then FloatV(i as real) else v
    case FloatV(f) => if target == IntK then IntV(Wrap32(Truncate(f))) else v
    case StrV(s) => if target == IntK then IntV(Wrap32(Numbers.AtoiExact(s))) else FloatV(Atof(s))
    case _ => v
  }

  /** The union read as an `int`: an absent value is all zero bits. */
  function IntField(v: Value): int {
    match v
    case IntV(i) => i
    case BoolV(b) => if b then 1 else 0
    case _ => 0
  }

  const LEAST_FLOAT: real := 1.0 / 713623846352979940529142984724747568191373312.0

  /** The union read as a `float`; `true` has the bits of the least positive one. */
  function FloatField(v: Value): real {
    match v
    case FloatV(f) => f
    case BoolV(b) => if b then LEAST_FLOAT else 0.0
    case _ => 0.0
  }

  // ---------- One operator ----------

  function CommonKind(l: Kind, r: Kind): Kind {
    if l == r then l
    else if l == FloatK || r == FloatK then FloatK
    else if l == IntK || r == IntK then IntK
    else l
  }

  /** `left / right` does not fit in an `int`: the division instruction traps. */
  predicate Traps(op: char, l: Value, r: Value) {
    && op == '/' && CommonKind(KindOf(l), KindOf(r)) == IntK
    && IntField(ConvertVar(l, IntK)) == INT_MIN && IntField(ConvertVar(r, IntK)) == -1
  }

  /** Concatenation takes the length of the right operand's string even when it has none. */
  predicate Faults(op: char, l: Value, r: Value) {
    || (op == '+' && CommonKind(KindOf(l), KindOf(r)) == StrK && !r.StrV?)
    || Traps(op, l, r)
  }

  function ZeroOf(k: Kind): (v: Value)
    ensures KindOf(v) == k
  {
    match k
    case NoneK => NoneV
    case IntK => IntV(0)
    case FloatK => FloatV(0.0)
    case StrK => StrV("")
    case BoolK => BoolV(false)
  }

  /** What is in the result, under its new type, before the operator has put anything there. */
  function Stale(l: Value, k: Kind): (v: Value)
    ensures KindOf(v) == k
  {
    if KindOf(l) == k then l else ZeroOf(k)
  }

  function ApplyInt(op: char, a: int, b: int, stale: Value): Outcome
    requires IsOp(op)
  {
    match op
    case '+' => Ok(IntV(Wrap32(a + b)))
    case '-' => Ok(IntV(Wrap32(a - b)))
    case '*' => Ok(IntV(Wrap32(a * b)))
    case _ =>
      if b == 0 then Err(stale)
      else if a == INT_MIN && b == -1 then Fault
      else Ok(IntV(Wrap32(CDiv(a, b))))
  }

  function ApplyFloat(op: char, a: real, b: real, stale: Value): Outcome
    requires IsOp(op)
  {
    match op
    case '+' => Ok(FloatV(a + b))
    case '-' => Ok(FloatV(a - b))
    case '*' => Ok(FloatV(a * b))
    case _ => if b == 0.0 then Err(stale) else Ok(FloatV(a / b))
  }

  /** One operator on two values; without a rule for their type the left value is the result. */
  function Apply(op: char, l: Value, r: Value): Outcome
    requires IsOp(op)
  {
    var k := CommonKind(KindOf(l), KindOf(r));
    var stale := Stale(l, k);
    if k == IntK then ApplyInt(op, IntField(ConvertVar(l, IntK)), IntField(ConvertVar(r, IntK)), stale)
    else if k == FloatK then
      ApplyFloat(op, FloatField(ConvertVar(l, FloatK)), FloatField(ConvertVar(r, FloatK)), stale)
    else if op == '/' then Err(stale)
    else if op == '+' && k == StrK then (if r.StrV? then Ok(StrV(l.s + r.s)) else Fault)
    else Ok(l)
  }

  /** An operator on two outcomes: an error on either side stays one. */
  function Combine(op: char, l: Outcome, r: Outcome): Outcome
    requires IsOp(op)
  {
    if l.Fault? || r.Fault? then Fault
    else
      match Apply(op, l.v, r.v)
      case Fault => Fault
      case Err(v) => Err(v)
      case Ok(v) => if l.Ok? && r.Ok? then Ok(v) else Err(v)
  }

  lemma ApplyKind(op: char, l: Value, r: Value)
    requires IsOp(op)
    ensures Apply(op, l, r).Fault? <==> Faults(op, l, r)
    ensures !Apply(op, l, r).Fault? ==> OutcomeKind(Apply(op, l, r)) == CommonKind(KindOf(l), KindOf(r))
  {
    hide Wrap32, ConvertVar, CDiv;
  }

  // ---------- Stores, operands and chains ----------

  /** The first slot with a given name, or the number of slots. */
  function Find(vars: seq<MshVar>, name: string): (i: nat)
    ensures i <= |vars|
    ensures i < |vars| ==> vars[i].name == name
    ensures forall j :: 0 <= j < i ==> vars[j].name != name
  {
    if vars == [] || vars[0].name == name then 0 else 1 + Find(vars[1..], name)
  }

  predicate Bound(vars: seq<MshVar>, name: string) {
    Find(vars, name) < |vars|
  }

  function OperandValue(o: Operand, vars: seq<MshVar>): (r: Outcome)
    ensures r.Ok? || r == Err(NoneV)
  {
    match o
    case Num(d) => Ok(IntV(Wrap32(Numbers.Decimal(d))))
    case Lit(b) => Ok(StrV(b))
    case Name(w) => if Bound(vars, Key(w)) then Ok(vars[Find(vars, Key(w))].val) else Err(NoneV)
    case Missing => Ok(NoneV)
    case Unterminated => Err(NoneV)
  }

  /** Every operator takes everything to its right as its right operand; none binds tighter. */
  function Denote(c: Chain, vars: seq<MshVar>): Outcome {
    match c
    case Last(o) => OperandValue(o, vars)
    case Link(o, op, rest) =>
      if IsOp(op) then Combine(op, OperandValue(o, vars), Denote(rest, vars)) else Fault
  }

  /** The name an expression's result carries: that of a leftmost bound name. */
  function ResultName(c: Chain, vars: seq<MshVar>): string {
    var o := c.o;
    if o.Name? && Bound(vars, Key(o.word)) then Key(o.word) else ""
  }

  /** The contents of the shared name buffer after an expression was read. */
  function LastKey(c: Chain, before: string): string {
    var here := if c.o.Name? then Key(c.o.word) else before;
    if c.Last? then here else LastKey(c.rest, here)
  }

  // ---------- Well-formed chains: which type, and when an error ----------

  /** Every operator is one of the four, and every operand has an INT or a STR value. */
  predicate Good(c: Chain, vars: seq<MshVar>) {
    var v := OperandValue(c.o, vars);
    && v.Ok? && (v.v.IntV? || v.v.StrV?)
    && (c.Link? ==> IsOp(c.op) && Good(c.rest, vars))
  }

  predicate AllStrings(c: Chain, vars: seq<MshVar>)
    requires Good(c, vars)
  {
    OperandValue(c.o, vars).v.StrV? && (c.Link? ==> AllStrings(c.rest, vars))
  }

  /** Some `/` of the chain has a zero right-hand side, or strings on both sides. */
  predicate BadDivision(c: Chain, vars: seq<MshVar>)
    requires Good(c, vars)
  {
    c.Link? &&
    (|| BadDivision(c.rest, vars)
     || (c.op == '/' && AllStrings(c, vars))
     || (c.op == '/' && !AllStrings(c, vars) && RightSide(c, vars, 0)))
  }

  /** Some `/` of the chain divides the least `int` by minus one. */
  predicate TrappingDivision(c: Chain, vars: seq<MshVar>)
    requires Good(c, vars)
  {
    c.Link? &&
    (|| TrappingDivision(c.rest, vars)
     || (&& c.op == '/' && !AllStrings(c, vars) && RightSide(c, vars, -1)
         && IntField(ConvertVar(OperandValue(c.o, vars).v, IntK)) == INT_MIN))
  }

  /** What stands to the right of the first operator is the number `n`. */
  predicate RightSide(c: Chain, vars: seq<MshVar>, n: int)
    requires c.Link?
  {
    var r := Denote(c.rest, vars);
    !r.Fault? && IntField(ConvertVar(r.v, IntK)) == n
  }

  /** A well-formed chain faults only by a trapping division; otherwise it is STR iff all its operands are,
      INT if not, and fails only by a bad division. */
  lemma {:induction false} GoodChain(c: Chain, vars: seq<MshVar>)
    requires Good(c, vars)
    ensures Denote(c, vars).Fault? <==> TrappingDivision(c, vars)
    ensures !TrappingDivision(c, vars) ==>
              && OutcomeKind(Denote(c, vars)) == (if AllStrings(c, vars) then StrK else IntK)
              && (Denote(c, vars).Err? <==> BadDivision(c, vars))
  {
    hide ConvertVar, Wrap32, CDiv;
    if c.Link? {
      GoodChain(c.rest, vars);
      var l, r := OperandValue(c.o, vars), Denote(c.rest, vars);
      if !r.Fault? {
        ApplyKind(c.op, l.v, r.v);
      }
    }
  }

  // ---------- FLOAT and BOOL never arise ----------

  predicate PlainKind(k: Kind) {
    k != FloatK && k != BoolK
  }

  predicate Plain(vars: seq<MshVar>) {
    forall i :: 0 <= i < |vars| ==> PlainKind(KindOf(vars[i].val))
  }

  /** For any chain at all, also an ill-formed one. */
  lemma {:induction false} PlainResult(c: Chain, vars: seq<MshVar>)
    requires Plain(vars)
    ensures Denote(c, vars).Fault? || PlainKind(OutcomeKind(Denote(c, vars)))
  {
    if c.Link? && IsOp(c.op) {
      PlainResult(c.rest, vars);
      var l, r := OperandValue(c.o, vars), Denote(c.rest, vars);
      if !r.Fault? {
        ApplyKind(c.op, l.v, r.v);
      }
    }
  }

  // ---------- Chains of numbers: arithmetic modulo 2^32, grouped to the right ----------

  predicate Numeric(c: Chain) {
    c.o.Num? && (c.Link? ==> (c.op == '+' || c.op == '-' || c.op == '*') && Numeric(c.rest))
  }

  /** Unbounded arithmetic, grouped to the right. */
  function Exact(c: Chain): int
    requires Numeric(c)
  {
    var a := Numbers.Decimal(c.o.digits);
    match c
    case Last(_) => a
    case Link(_, op, rest) =>
      var b := Exact(rest);
      match op
      case '+' => a + b
      case '-' => a - b
      case _ => a * b
  }

  /** However many steps overflow, only the final wrap shows. */
  lemma {:induction false} NumericChain(c: Chain, vars: seq<MshVar>)
    requires Numeric(c)
    ensures Denote(c, vars) == Ok(IntV(Wrap32(Exact(c))))
  {
    if c.Link? {
      NumericChain(c.rest, vars);
      var a, b := Numbers.Decimal(c.o.digits), Exact(c.rest);
      WrapSum(a, b);
      WrapProduct(a, b);
    }
  }

  function Values(c: Chain): (vs: seq<int>)
    requires Numeric(c)
    ensures |vs| > 0
  {
    [Numbers.Decimal(c.o.digits)] + if c.Link? then Values(c.rest) else []
  }

  /** vs[0] - vs[1] + vs[2] - ... */
  function AlternatingSum(vs: seq<int>): int {
    if vs == [] then 0 else vs[0] - AlternatingSum(vs[1..])
  }

  predicate OnlyOp(c: Chain, op: char) {
    c.Link? ==> c.op == op && OnlyOp(c.rest, op)
  }

  /** `a - b - c` is `a - (b - c)`: a chain of subtractions is an alternating sum. */
  lemma {:induction false} SubtractionAlternates(c: Chain)
    requires Numeric(c) && OnlyOp(c, '-')
    ensures Exact(c) == AlternatingSum(Values(c))
  {
    if c.Link? {
      SubtractionAlternates(c.rest);
      assert Values(c)[1..] == Values(c.rest);
    } else {
      assert Values(c)[1..] == [];
    }
  }

  /** The same operands grouped to the left, as C groups them. */
  function LeftDifference(acc: int, vs: seq<int>): int
    decreases |vs|
  {
    if vs == [] then acc else LeftDifference(acc - vs[0], vs[1..])
  }

  /** The sum of every second element, from index 1 on. */
  function OddSum(vs: seq<int>): int {
    if |vs| < 2 then 0 else vs[1] + OddSum(vs[2..])
  }

  /** The two groupings agree exactly when the third, fifth, ... operands sum to zero. */
  lemma {:induction false} GroupingMatters(acc: int, vs: seq<int>)
    ensures AlternatingSum([acc] + vs) == LeftDifference(acc, vs) + 2 * OddSum(vs)
    ensures AlternatingSum([acc] + vs) == LeftDifference(acc, vs) <==> OddSum(vs) == 0
    decreases |vs|
  {
    assert ([acc] + vs)[1..] == vs;
    if |vs| == 1 {
      assert vs[1..] == [];
      assert AlternatingSum(vs) == vs[0] - AlternatingSum([]);
      assert LeftDifference(acc, vs) == LeftDifference(acc - vs[0], []);
    } else if |vs| >= 2 {
      GroupingMatters(acc, vs[2..]);
      assert ([acc] + vs[2..])[1..] == vs[2..];
      assert vs[1..][1..] == vs[2..] && vs[1..][0] == vs[1];
      assert AlternatingSum(vs) == vs[0] - (vs[1] - AlternatingSum(vs[2..]));
      assert LeftDifference(acc, vs) == LeftDifference(acc - vs[0] - vs[1], vs[2..]);
      LeftShift(acc, vs[0] + vs[1], vs[2..]);
    }
  }

  lemma {:induction false} LeftShift(acc: int, d: int, vs: seq<int>)
    ensures LeftDifference(acc - d, vs) == LeftDifference(acc, vs) - d
    decreases |vs|
  {
    if vs != [] {
      LeftShift(acc - vs[0], d, vs[1..]);
    }
  }

  // ---------- Strings ----------

  predicate OnlyLiterals(c: Chain) {
    c.o.Lit? && (c.Link? ==> OnlyLiterals(c.rest))
  }

  function Bodies(c: Chain): string
    requires OnlyLiterals(c)
  {
    c.o.body + if c.Link? then Bodies(c.rest) else ""
  }

  lemma {:induction false} Concatenation(c: Chain, vars: seq<MshVar>)
    requires OnlyLiterals(c) && OnlyOp(c, '+')
    ensures Denote(c, vars) == Ok(StrV(Bodies(c)))
  {
    if c.Link? {
      Concatenation(c.rest, vars);
    } else {
      assert c.o.body + "" == c.o.body;
    }
  }
}
