/** The value of every expression of the micro-shell, stated without saying how it is computed. */
module ShellValues {
  import opened CInt
  import opened Text
  import opened ShellSyntax
  import opened ShellMeaning
  import opened Wrappers
  import Numbers
  import Shell

  // ---------- What numbers an operator's result may be ----------

  /** `n` is the `int` with the same low 32 bits as `x`. */
  predicate Is32BitsOf(n: int, x: int) {
    -0x8000_0000 <= n <= 0x7FFF_FFFF && (x - n) % 0x1_0000_0000 == 0
  }

  /** What is left over when `a` is divided by `b` with quotient `q` is smaller than `b` and has the sign of `a`. */
  predicate IsQuotient(a: int, b: int, q: int) {
    var left := a - q * b;
    && b != 0
    && (if b > 0 then -b < left < b else b < left < -b)
    && (left == 0 || (left < 0 <==> a < 0))
  }

  /** What a value counts for beside an INT. */
  function IntReading(v: Value): int {
    match v
    case IntV(i) => i
    case StrV(s) => Wrap32(Numbers.AtoiExact(s))
    case BoolV(b) => if b then 1 else 0
    case NoneV => 0
    case FloatV(_) => 0
  }

  /** What it counts for beside a FLOAT. */
  function RealReading(v: Value): real {
    match v
    case IntV(i) => i as real
    case FloatV(f) => f
    case StrV(s) => Atof(s)
    case BoolV(b) => if b then LEAST_FLOAT else 0.0
    case NoneV => 0.0
  }

  predicate IntResult(op: char, a: int, b: int, n: int) {
    match op
    case '+' => Is32BitsOf(n, a + b)
    case '-' => Is32BitsOf(n, a - b)
    case '*' => Is32BitsOf(n, a * b)
    case '/' => Is32BitsOf(n, n) && IsQuotient(a, b, n)
    case _ => false
  }

  predicate RealResult(op: char, x: real, y: real, z: real) {
    match op
    case '+' => z == x + y
    case '-' => x == z + y
    case '*' => z == x * y
    case '/' => y != 0.0 && z * y == x
    case _ => false
  }

  /** `v` is the value of `l op r`: a FLOAT beside anything, an INT beside anything else, two strings joined,
      or else the left operand as it is. */
  predicate StepMeans(op: char, l: Value, r: Value, v: Value) {
    if l.FloatV? || r.FloatV? then v.FloatV? && RealResult(op, RealReading(l), RealReading(r), v.f)
    else if l.IntV? || r.IntV? then v.IntV? && IntResult(op, IntReading(l), IntReading(r), v.i)
    else if op == '+' && l.StrV? then r.StrV? && v == StrV(l.s + r.s)
    else op != '/' && v == l
  }

  // ---------- What a chain may be worth ----------

  ghost predicate OperandMeans(o: Operand, vars: seq<MshVar>, v: Value) {
    match o
    case Num(d) => v.IntV? && Is32BitsOf(v.i, Numbers.Decimal(d))
    case Lit(b) => v == StrV(b)
    case Name(w) => exists i :: 0 <= i < |vars| && FirstNamed(vars, Key(w), i) && v == vars[i].val
    case Missing => v == NoneV
    case Unterminated => false
  }

  /** The slot is the first one with the name. */
  predicate FirstNamed(vars: seq<MshVar>, name: string, i: nat)
    requires i < |vars|
  {
    vars[i].name == name && forall j :: 0 <= j < i ==> vars[j].name != name
  }

  /** The chain is worth `v`: the operator's left operand is worth something, all that stands to its right
      is worth something, and `v` is the value of the two. */
  ghost predicate Means(c: Chain, vars: seq<MshVar>, v: Value) {
    match c
    case Last(o) => OperandMeans(o, vars, v)
    case Link(o, op, rest) =>
      IsOp(op) && exists l, r :: OperandMeans(o, vars, l) && Means(rest, vars, r) && StepMeans(op, l, r, v)
  }

  /** Assigning puts the new slot in the place of the first one with the name in the buffer, or at the end. */
  lemma StoreReplacesFirst(vars: seq<MshVar>, key: string, value: MshVar, i: nat)
    requires i <= |vars| && (forall j :: 0 <= j < i ==> vars[j].name != key)
    requires if i < |vars| then vars[i].name == key else |vars| < 64
    ensures Bound(vars, key) || |vars| < Shell.MAX_VARS
    ensures Shell.Store(vars, key, value) == if i < |vars| then vars[..i] + [value] + vars[i + 1..] else vars + [value]
  {
    Shell.FindIs(vars, key, i);
  }

  /** A result carries the name of the slot that its first operand was read from, and no name otherwise. */
  lemma ResultNameIs(c: Chain, vars: seq<MshVar>, i: nat)
    requires i <= |vars| && c.o.Name? && (i < |vars| ==> FirstNamed(vars, Key(c.o.word), i))
    requires i == |vars| ==> forall j :: 0 <= j < |vars| ==> vars[j].name != Key(c.o.word)
    ensures ResultName(c, vars) == if i < |vars| then vars[i].name else ""
  {
    Shell.FindIs(vars, Key(c.o.word), i);
  }

  /** The last name of a chain, if it has any. */
  function LastName(c: Chain): Option<string> {
    match c
    case Last(o) => if o.Name? then Some(o.word) else None
    case Link(o, _, rest) => if LastName(rest).Some? || !o.Name? then LastName(rest) else Some(o.word)
  }

  /** The name buffer is left with the last name read, and as it was if there is none. */
  lemma {:induction false} LastKeyIs(c: Chain, before: string)
    ensures LastKey(c, before) == if LastName(c).Some? then Key(LastName(c).value) else before
  {
    hide Key;
    if c.Link? {
      LastKeyIs(c.rest, if c.o.Name? then Key(c.o.word) else before);
    }
  }

  // ---------- The evaluation gives exactly that ----------

  lemma Only32Bits(n: int, x: int)
    ensures Is32BitsOf(n, x) <==> n == Wrap32(x)
  {
    hide Wrap32;
    var k := WrapWitness(x);
    WholeMultiple(x - n);
    WholeMultiple(x - Wrap32(x));
    MultipleOf(-k);
  }

  lemma WholeMultiple(d: int)
    ensures d % TWO_32 == 0 <==> d == d / TWO_32 * TWO_32
  {
  }

  lemma MultipleOf(k: int)
    ensures k * TWO_32 % TWO_32 == 0
  {
  }

  lemma OneQuotient(a: int, b: int, q: int, p: int)
    requires IsQuotient(a, b, q) && IsQuotient(a, b, p)
    ensures q == p
  {
    assert (q - p) * b == (a - p * b) - (a - q * b);
    if q != p {
      NoSmallMultiple(q - p, b);
    }
  }

  lemma DivisionParts(a: nat, b: nat)
    requires b > 0
    ensures a == a / b * b + a % b && 0 <= a % b < b
  {
  }

  /** C's division does give such a quotient. */
  lemma CDivIsQuotient(a: int, b: int)
    requires b != 0
    ensures IsQuotient(a, b, CDiv(a, b))
  {
    var m := Abs(a) / Abs(b);
    DivisionParts(Abs(a), Abs(b));
    Signs(m, b);
  }

  lemma Signs(m: int, b: int)
    ensures (-m) * b == -(m * b) && m * (-b) == -(m * b)
  {
  }

  lemma DivideByOne(a: nat)
    ensures a / 1 == a
  {
  }

  lemma AtMostHalf(a: nat, b: nat)
    requires b >= 2
    ensures 2 * (a / b) <= a
  {
    DivisionParts(a, b);
    assert a / b * b >= a / b * 2;
  }

  lemma SmallQuotient(a: Int32, b: Int32)
    requires b != 0
    ensures IsInt32(CDiv(a, b)) <==> !(a == INT_MIN && b == -1)
  {
    if b == 1 || b == -1 {
      DivideByOne(Abs(a));
    } else {
      AtMostHalf(Abs(a), Abs(b));
    }
  }

  lemma IntStep(op: char, a: Int32, b: Int32, stale: Value, n: Int32)
    requires IsOp(op)
    ensures ApplyInt(op, a, b, stale) == Ok(IntV(n)) <==> IntResult(op, a, b, n)
  {
    hide Wrap32, CDiv, IsQuotient, Is32BitsOf;
    Only32Bits(n, a + b);
    Only32Bits(n, a - b);
    Only32Bits(n, a * b);
    if op == '/' && b != 0 {
      CDivIsQuotient(a, b);
      SmallQuotient(a, b);
      Only32Bits(n, n);
      WrapInRange(n);
      WrapInRange(CDiv(a, b));
      if IsQuotient(a, b, n) {
        OneQuotient(a, b, n, CDiv(a, b));
      }
    } else if op == '/' {
      NoQuotient(a, n);
    }
  }

  lemma WrapInRange(x: int)
    ensures IsInt32(x) ==> Wrap32(x) == x
  {
  }

  lemma NoQuotient(a: int, q: int)
    ensures !IsQuotient(a, 0, q)
  {
  }

  lemma RealStep(op: char, x: real, y: real, stale: Value, z: real)
    requires IsOp(op)
    ensures ApplyFloat(op, x, y, stale) == Ok(FloatV(z)) <==> RealResult(op, x, y, z)
  {
    if op == '/' && y != 0.0 {
      assert x / y * y == x;
      if z * y == x {
        assert z == x / y;
      }
    }
  }

  /** One operator has a value exactly when there is one, and that one. */
  lemma StepValue(op: char, l: Value, r: Value, v: Value)
    requires IsOp(op)
    ensures Apply(op, l, r) == Ok(v) <==> StepMeans(op, l, r, v)
  {
    hide ApplyInt, ApplyFloat, IntResult, RealResult, Wrap32, Atof, LEAST_FLOAT, Numbers.AtoiExact;
    var k := CommonKind(KindOf(l), KindOf(r));
    IntKindOnly(op, IntReading(l), IntReading(r), Stale(l, k));
    RealKindOnly(op, RealReading(l), RealReading(r), Stale(l, k));
    if v.IntV? {
      IntStep(op, IntReading(l), IntReading(r), Stale(l, k), v.i);
    } else if v.FloatV? {
      RealStep(op, RealReading(l), RealReading(r), Stale(l, k), v.f);
    }
  }

  lemma IntKindOnly(op: char, a: int, b: int, stale: Value)
    requires IsOp(op)
    ensures ApplyInt(op, a, b, stale).Ok? ==> ApplyInt(op, a, b, stale).v.IntV?
  {
    hide Wrap32, CDiv;
  }

  lemma RealKindOnly(op: char, x: real, y: real, stale: Value)
    requires IsOp(op)
    ensures ApplyFloat(op, x, y, stale).Ok? ==> ApplyFloat(op, x, y, stale).v.FloatV?
  {
  }

  lemma OperandValueIs(o: Operand, vars: seq<MshVar>, v: Value)
    ensures OperandValue(o, vars) == Ok(v) <==> OperandMeans(o, vars, v)
  {
    hide Wrap32, Is32BitsOf, Numbers.Decimal, Find, Key;
    match o
    case Num(d) =>
      if v.IntV? {
        Only32Bits(v.i, Numbers.Decimal(d));
      }
    case Name(w) =>
      var i := Find(vars, Key(w));
      if i < |vars| {
        assert FirstNamed(vars, Key(w), i);
      }
    case _ =>
  }

  /** Over any table: an expression has the value `v` exactly when it is worth `v`. */
  lemma {:induction false} ChainValue(c: Chain, vars: seq<MshVar>, v: Value)
    ensures Denote(c, vars) == Ok(v) <==> Means(c, vars, v)
    decreases c
  {
    hide OperandValue, OperandMeans, Apply, StepMeans;
    match c
    case Last(o) => OperandValueIs(o, vars, v);
    case Link(o, op, rest) =>
      var l, r := OperandValue(o, vars), Denote(rest, vars);
      forall w: Value
        ensures OperandValue(o, vars) == Ok(w) <==> OperandMeans(o, vars, w)
      {
        OperandValueIs(o, vars, w);
      }
      forall w: Value
        ensures Denote(rest, vars) == Ok(w) <==> Means(rest, vars, w)
      {
        ChainValue(rest, vars, w);
      }
      if IsOp(op) && l.Ok? && r.Ok? {
        StepValue(op, l.v, r.v, v);
      }
  }

  /** A division of numbers has a value, unless it is by zero or of the least `int` by minus one. */
  lemma DivisionHasValue(o: Operand, rest: Chain, vars: seq<MshVar>, l: Value, r: Value) returns (q: Int32)
    requires OperandMeans(o, vars, l) && Means(rest, vars, r)
    requires !l.FloatV? && !r.FloatV? && (l.IntV? || r.IntV?)
    requires IntReading(r) != 0 && !(IntReading(l) == -0x8000_0000 && IntReading(r) == -1)
    ensures Denote(Link(o, '/', rest), vars) == Ok(IntV(q)) && IsQuotient(IntReading(l), IntReading(r), q)
  {
    hide CDiv, OperandMeans, OperandValue, IsQuotient, Wrap32, Numbers.AtoiExact;
    var a, b := IntReading(l), IntReading(r);
    CDivIsQuotient(a, b);
    SmallQuotient(a, b);
    q := CDiv(a, b);
    WrapInRange(q);
    Only32Bits(q, q);
    assert StepMeans('/', l, r, IntV(q));
    ChainValue(Link(o, '/', rest), vars, IntV(q));
  }

  // ---------- A FLOAT beside a string: decimal fractions ----------

  /** One tenth for each digit behind the point. */
  function Scale(n: nat): real {
    if n == 0 then 1.0 else Scale(n - 1) / 10.0
  }

  predicate DigitsAt(s: string, i: nat, k: nat) {
    i + k <= |s| && AllIn(s[i..i + k], Digit)
  }

  lemma OneDigitMore(s: string, i: nat, k: nat)
    requires DigitsAt(s, i, k + 1)
    ensures DigitsAt(s, i, k) && IsDigit(s[i + k])
    ensures Numbers.Decimal(s[i..i + k + 1]) == 10 * Numbers.Decimal(s[i..i + k]) + Numbers.DigitValue(s[i + k])
  {
    hide Numbers.Decimal;
    var d, more := s[i..i + k], s[i..i + k + 1];
    SliceStep(s, i, i + k);
    assert more == d + [s[i + k]] && more[k] == s[i + k];
    assert forall x :: 0 <= x < k ==> d[x] == more[x];
    Numbers.DecimalAppend(d, s[i + k], more);
  }

  /** The digits before the point are read as a number. */
  lemma {:induction false} WholePart(s: string, i: nat, k: nat)
    requires DigitsAt(s, i, k)
    ensures
      AtofFrom(s, i, 0.0, 1.0, false) == AtofFrom(s, i + k, Numbers.Decimal(s[i..i + k]) as real, 1.0, false)
  {
    hide Numbers.Decimal, AllIn;
    if k > 0 {
      OneDigitMore(s, i, k - 1);
      WholePart(s, i, k - 1);
      OneMore(s, i + k - 1, Numbers.Decimal(s[i..i + k - 1]), s[i + k - 1]);
    } else {
      NoDigits(s, i);
    }
  }

  lemma OneMore(s: string, i: nat, d: int, c: char)
    requires i < |s| && s[i] == c && IsDigit(c)
    ensures
      AtofFrom(s, i, d as real, 1.0, false) == AtofFrom(s, i + 1, (10 * d + Numbers.DigitValue(c)) as real, 1.0, false)
  {
    assert d as real * 10.0 + Numbers.DigitValue(c) as real == (10 * d + Numbers.DigitValue(c)) as real;
  }

  lemma NoDigits(s: string, i: nat)
    requires i <= |s|
    ensures Numbers.Decimal(s[i..i]) == 0
  {
  }

  /** What has been read after `k` digits behind the point. */
  function Fraction(s: string, i: nat, k: nat, v: real): real
    requires i + k <= |s|
  {
    v + Numbers.Decimal(s[i..i + k]) as real * Scale(k)
  }

  /** The digits behind it add their number, scaled. */
  lemma {:induction false} FractionPart(s: string, i: nat, k: nat, v: real)
    requires DigitsAt(s, i, k)
    ensures AtofFrom(s, i, v, 1.0, true) == AtofFrom(s, i + k, Fraction(s, i, k, v), Scale(k), true)
  {
    hide Numbers.Decimal, AllIn, AtofFrom, Fraction, Scale;
    if k > 0 {
      OneDigitMore(s, i, k - 1);
      FractionPart(s, i, k - 1, v);
      FractionStep(s, i, k - 1, v);
    } else {
      NoFraction(s, i, v);
    }
  }

  lemma NoFraction(s: string, i: nat, v: real)
    requires i <= |s|
    ensures Fraction(s, i, 0, v) == v && Scale(0) == 1.0
  {
    NoDigits(s, i);
  }

  lemma FractionStep(s: string, i: nat, k: nat, v: real)
    requires DigitsAt(s, i, k + 1)
    ensures
      AtofFrom(s, i + k, Fraction(s, i, k, v), Scale(k), true)
      == AtofFrom(s, i + k + 1, Fraction(s, i, k + 1, v), Scale(k + 1), true)
  {
    hide Numbers.Decimal, AllIn, AtofFrom, Scale;
    OneDigitMore(s, i, k);
    ScaleMore(k);
    assert s[i..i + k + 1] == s[i..i + (k + 1)];
    var d, more := Numbers.Decimal(s[i..i + k]), Numbers.Decimal(s[i..i + k + 1]);
    ScaledDigit(d, Numbers.DigitValue(s[i + k]), Scale(k));
    FractionDigit(s, i + k, Fraction(s, i, k, v), Scale(k), Fraction(s, i, k + 1, v));
  }

  lemma ScaleMore(k: nat)
    ensures Scale(k + 1) == Scale(k) / 10.0
  {
  }

  lemma FractionDigit(s: string, i: nat, value: real, u: real, more: real)
    requires i < |s| && IsDigit(s[i]) && more == value + Numbers.DigitValue(s[i]) as real * (u * 0.1)
    ensures AtofFrom(s, i, value, u, true) == AtofFrom(s, i + 1, more, u / 10.0, true)
  {
  }

  lemma ScaledDigit(d: int, c: int, u: real)
    ensures (10 * d + c) as real * (u / 10.0) == d as real * u + c as real * (u * 0.1)
    ensures u / 10.0 == u * 0.1
  {
  }

  /** The digits of a number around its point, by their positions. */
  lemma PointNumber(s: string, q: nat, n: nat, e: nat)
    requires q <= n < e <= |s| && DigitsAt(s, q, n - q) && s[n] == '.' && DigitsAt(s, n + 1, e - n - 1)
    requires e < |s| ==> !IsDigit(s[e])
    ensures
      AtofFrom(s, q, 0.0, 1.0, false)
      == Numbers.Decimal(s[q..n]) as real + Numbers.Decimal(s[n + 1..e]) as real * Scale(e - n - 1)
  {
    hide Numbers.Decimal, AtofFrom, Scale, DigitsAt;
    WholePart(s, q, n - q);
    var w := Numbers.Decimal(s[q..n]) as real;
    PointStep(s, n, w);
    FractionPart(s, n + 1, e - n - 1, w);
    EndStep(s, e, Fraction(s, n + 1, e - n - 1, w), Scale(e - n - 1));
  }

  /** Blanks, one sign, digits, a point, digits, and then anything that is no digit: the decimal fraction. */
  lemma AtofOfText(blanks: string, sign: string, whole: string, part: string, rest: string)
    requires forall i :: 0 <= i < |blanks| ==> blanks[i] == ' ' || blanks[i] == '\t'
    requires sign in ["", "+", "-"] && AllIn(whole, Digit) && AllIn(part, Digit)
    requires rest != "" ==> !IsDigit(rest[0])
    ensures
      var x := Numbers.Decimal(whole) as real + Numbers.Decimal(part) as real * Scale(|part|);
      Atof(blanks + sign + whole + "." + part + rest) == if sign == "-" then -x else x
  {
    hide Numbers.Decimal, AtofFrom, Atof, Scale, AllIn;
    var s := blanks + sign + whole + "." + part + rest;
    var p, q := |blanks|, |blanks| + |sign|;
    var n := q + |whole|;
    var e := n + 1 + |part|;
    assert s[q..n] == whole && s[n + 1..e] == part;
    assert s[p] == if sign != "" then sign[0] else if whole != "" then whole[0] else '.';
    assert e < |s| ==> s[e] == rest[0];
    FirstDigit(whole);
    StartOfNumber(s, p, sign);
    PointNumber(s, q, n, e);
    assert e - n - 1 == |part|;
    var x := Numbers.Decimal(whole) as real + Numbers.Decimal(part) as real * Scale(e - n - 1);
    assert AtofFrom(s, q, 0.0, 1.0, false) == x;
  }

  lemma FirstDigit(d: string)
    requires AllIn(d, Digit)
    ensures d != "" ==> IsDigit(d[0])
  {
  }

  lemma PointStep(s: string, n: nat, v: real)
    requires n < |s| && s[n] == '.'
    ensures AtofFrom(s, n, v, 1.0, false) == AtofFrom(s, n + 1, v, 1.0, true)
  {
  }

  lemma EndStep(s: string, e: nat, v: real, u: real)
    requires e <= |s| && (e < |s| ==> !IsDigit(s[e]))
    ensures AtofFrom(s, e, v, u, true) == v
  {
  }

  lemma StartOfNumber(s: string, p: nat, sign: string)
    requires p < |s| && forall x :: 0 <= x < p ==> s[x] == ' ' || s[x] == '\t'
    requires if sign == "" then IsDigit(s[p]) || s[p] == '.' else sign in ["+", "-"] && s[p] == sign[0]
    ensures
      var x := AtofFrom(s, p + |sign|, 0.0, 1.0, false);
      Atof(s) == if sign == "-" then -x else x
  {
    hide AtofFrom, BlanksEnd;
    BlanksEndIs(s, 0, p);
  }

  lemma {:induction false} BlanksEndIs(s: string, i: nat, p: nat)
    requires i <= p < |s| && s[p] != ' ' && s[p] != '\t'
    requires forall x :: i <= x < p ==> s[x] == ' ' || s[x] == '\t'
    ensures BlanksEnd(s, i) == p
    decreases p - i
  {
    if i < p {
      BlanksEndIs(s, i + 1, p);
    }
  }

  // ---------- A quotient from text to value ----------

  const SEVEN_BY_TWO: Printed := Join(Spelling("", Num("7"), ""), '/', Final(Spelling("", Num("2"), "")))

  lemma SevenByTwoText()
    ensures Show(SEVEN_BY_TWO) == "7/2" && WritableChain(SEVEN_BY_TWO)
  {
    assert forall d :: ShowSpelling(Spelling("", Num([d]), "")) == [d];
  }

  lemma DigitMeans(c: char, vars: seq<MshVar>)
    requires IsDigit(c)
    ensures OperandMeans(Num([c]), vars, IntV(c as int - '0' as int))
  {
    Numbers.DecimalAppend("", c, [c]);
    assert Numbers.Decimal("") == 0;
    hide Numbers.Decimal;
  }

  lemma SevenOverTwo(vars: seq<MshVar>)
    ensures Means(Link(Num("7"), '/', Last(Num("2"))), vars, IntV(3))
  {
    hide OperandMeans, StepMeans;
    DigitMeans('7', vars);
    DigitMeans('2', vars);
    MeansLast(Num("2"), vars, IntV(2));
    ThreeIsTheQuotient();
  }

  lemma ThreeIsTheQuotient()
    ensures StepMeans('/', IntV(7), IntV(2), IntV(3))
  {
  }

  /** The quotient is cut off: 7/2 is 3. */
  lemma SevenByTwo(vars: seq<MshVar>)
    ensures Denote(ChainAt("7/2", 0), vars) == Ok(IntV(3))
  {
    hide Show, WritableChain, ChainAt, Denote, Means;
    SevenByTwoText();
    ParseShown(SEVEN_BY_TWO, "7/2", 0);
    SevenOverTwo(vars);
    ChainValue(Erase(SEVEN_BY_TWO), vars, IntV(3));
  }

  lemma MeansLast(o: Operand, vars: seq<MshVar>, v: Value)
    ensures Means(Last(o), vars, v) <==> OperandMeans(o, vars, v)
  {
  }
}
