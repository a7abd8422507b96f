/** The expressions of the micro-shell (microshell.c), as text and as trees. */
module ShellSyntax {
  import opened Text

  /** What `eval_expr` finds where an operand should be. */
  datatype Operand =
    | Num(digits: string)
    | Lit(body: string)
    | Name(word: string)
    | Missing       // nothing that starts an operand; no characters are consumed
    | Unterminated  // an opening quote without a closing one

  /** Operands joined by operators; every operator takes the whole rest as its right operand. */
  datatype Chain =
    | Last(o: Operand)
    | Link(o: Operand, op: char, rest: Chain)

  predicate IsOp(c: char) {
    c == '+' || c == '-' || c == '*' || c == '/'
  }

  /** The name buffer of `parse_ident` keeps 31 characters. */
  function Key(word: string): string {
    if |word| <= 31 then word else word[..31]
  }

  lemma KeyIsPrefix(word: string)
    ensures Key(word) <= word && |Key(word)| == if |word| < 31 then |word| else 31
  {
  }

  /** The operand at position `i` of a text. */
  function OperandAt(s: string, i: nat): Operand
    requires i <= |s|
  {
    var c := At(s, i);
    if IsDigit(c) then Num(s[i..SpanEnd(s, i, Digit)])
    else if c == '"' then
      var q := SpanEnd(s, i + 1, NotQuote);
      if At(s, q) == '"' then Lit(s[i + 1..q]) else Unterminated
    else if IsAlpha(c) then Name(s[i..SpanEnd(s, i, Word)])
    else Missing
  }

  /** The position just after that operand. */
  function OperandEnd(s: string, i: nat): (j: nat)
    requires i <= |s|
    ensures i <= j <= |s|
  {
    var c := At(s, i);
    if IsDigit(c) then SpanEnd(s, i, Digit)
    else if c == '"' then
      var q := SpanEnd(s, i + 1, NotQuote);
      if At(s, q) == '"' then q + 1 else q
    else if IsAlpha(c) then SpanEnd(s, i, Word)
    else i
  }

  /** The next operand after the blanks at `i`, and where the blanks after it end. */
  function FirstAt(s: string, i: nat): Operand
    requires i <= |s|
  {
    OperandAt(s, SpanEnd(s, i, Blank))
  }

  function FirstEnd(s: string, i: nat): (k: nat)
    requires i <= |s|
    ensures i <= k <= |s|
  {
    SpanEnd(s, OperandEnd(s, SpanEnd(s, i, Blank)), Blank)
  }

  /** The chain at position `i`. */
  function ChainAt(s: string, i: nat): Chain
    requires i <= |s|
    decreases |s| - i
  {
    var o, k := FirstAt(s, i), FirstEnd(s, i);
    if IsOp(At(s, k)) then Link(o, s[k], ChainAt(s, k + 1)) else Last(o)
  }

  /** The position where reading that chain stops. */
  function ChainEnd(s: string, i: nat): (j: nat)
    requires i <= |s|
    ensures i <= j <= |s|
    decreases |s| - i
  {
    var k := FirstEnd(s, i);
    if IsOp(At(s, k)) then ChainEnd(s, k + 1) else k
  }

  // ---------- Printing, and reading back what was printed ----------

  /** An operand with the blanks written around it. */
  datatype Spelling = Spelling(before: string, o: Operand, after: string)

  datatype Printed =
    | Final(p: Spelling)
    | Join(p: Spelling, op: char, tail: Printed)

  predicate Writable(o: Operand) {
    match o
    case Num(d) => d != "" && AllIn(d, Digit)
    case Lit(b) => AllIn(b, NotQuote)
    case Name(w) => w != "" && IsAlpha(w[0]) && AllIn(w, Word)
    case _ => false
  }

  predicate WritableSpelling(p: Spelling) {
    AllIn(p.before, Blank) && Writable(p.o) && AllIn(p.after, Blank)
  }

  predicate WritableChain(c: Printed) {
    match c
    case Final(p) => WritableSpelling(p)
    case Join(p, op, tail) => WritableSpelling(p) && IsOp(op) && WritableChain(tail)
  }

  function ShowOperand(o: Operand): string {
    match o
    case Num(d) => d
    case Lit(b) => "\"" + b + "\""
    case Name(w) => w
    case _ => ""
  }

  function ShowSpelling(p: Spelling): string {
    p.before + ShowOperand(p.o) + p.after
  }

  function Show(c: Printed): string {
    match c
    case Final(p) => ShowSpelling(p)
    case Join(p, op, tail) => ShowSpelling(p) + [op] + Show(tail)
  }

  function Erase(c: Printed): Chain {
    match c
    case Final(p) => Last(p.o)
    case Join(p, op, tail) => Link(p.o, op, Erase(tail))
  }

  function LastSpelling(c: Printed): Spelling {
    match c
    case Final(p) => p
    case Join(_, _, tail) => LastSpelling(tail)
  }

  /** The character at position `i` cannot be taken for a continuation of operand `o` ending there. */
  predicate Separate(o: Operand, s: string, i: nat)
    requires i <= |s|
  {
    match o
    case Num(_) => !IsDigit(At(s, i))
    case Name(_) => !In(At(s, i), Word)
    case _ => true
  }

  /** What stands at `i` does not continue a chain that ends there: neither its last operand nor the chain. */
  predicate Stops(c: Printed, s: string, i: nat)
    requires i <= |s|
  {
    && (LastSpelling(c).after == "" ==> Separate(LastSpelling(c).o, s, i))
    && !IsOp(At(s, SpanEnd(s, i, Blank)))
  }

  lemma ParseShownLiteral(b: string, s: string, i: nat)
    requires AllIn(b, NotQuote) && Occurs(s, i, ShowOperand(Lit(b)))
    ensures OperandAt(s, i) == Lit(b) && OperandEnd(s, i) == i + |b| + 2
  {
    assert s[i + 0] == ShowOperand(Lit(b))[0];
    OccursSplit(s, i, "\"" + b, "\"");
    OccursSplit(s, i, "\"", b);
    assert s[i + |b| + 1 + 0] == "\""[0];
    SpanOccurs(s, i + 1, b, NotQuote);
    hide SpanEnd;
  }

  lemma ParseShownOperand(o: Operand, s: string, i: nat)
    requires Writable(o) && Occurs(s, i, ShowOperand(o)) && Separate(o, s, i + |ShowOperand(o)|)
    ensures OperandAt(s, i) == o && OperandEnd(s, i) == i + |ShowOperand(o)|
    ensures SpanEnd(s, i, Blank) == i
  {
    hide SpanEnd;
    assert s[i + 0] == ShowOperand(o)[0];
    SpanIs(s, i, Blank, i);
    match o {
      case Num(d) => SpanOccurs(s, i, d, Digit);
      case Name(w) => SpanOccurs(s, i, w, Word);
      case Lit(b) => ParseShownLiteral(b, s, i);
    }
  }

  /** Blanks written at `i` are skipped. */
  lemma {:induction false} SkipWritten(s: string, i: nat, b: string, x: nat)
    requires Occurs(s, i, b) && AllIn(b, Blank) && x <= |b|
    ensures SpanEnd(s, i + x, Blank) == SpanEnd(s, i + |b|, Blank)
    decreases |b| - x
  {
    hide SpanEnd;
    if x < |b| {
      assert s[i + x] == b[x];
      SpanStep(s, i + x, Blank);
      SkipWritten(s, i, b, x + 1);
    }
  }

  /** A blank or an operator separates any operand from what follows. */
  lemma SeparateBy(o: Operand, s: string, i: nat)
    requires i < |s| && (IsSpace(s[i]) || IsOp(s[i]))
    ensures Separate(o, s, i)
  {
  }

  /** Where the three parts of a written spelling stand. */
  lemma SplitSpelling(p: Spelling, s: string, i: nat)
    requires WritableSpelling(p) && Occurs(s, i, ShowSpelling(p))
    requires p.after == "" ==> Separate(p.o, s, i + |ShowSpelling(p)|)
    ensures
      var j := i + |p.before|;
      var k := j + |ShowOperand(p.o)|;
      && k + |p.after| == i + |ShowSpelling(p)| <= |s|
      && Occurs(s, i, p.before) && Occurs(s, j, ShowOperand(p.o)) && Occurs(s, k, p.after)
      && Separate(p.o, s, k)
  {
    hide Occurs, Separate, ShowOperand, Writable;
    var k := i + |p.before| + |ShowOperand(p.o)|;
    OccursIn(s, i, ShowSpelling(p));
    OccursSplit(s, i, p.before + ShowOperand(p.o), p.after);
    OccursSplit(s, i, p.before, ShowOperand(p.o));
    if p.after != "" {
      OccursHead(s, k, p.after);
      SeparateBy(p.o, s, k);
    }
  }

  lemma OccursIn(s: string, i: nat, t: string)
    requires Occurs(s, i, t)
    ensures i + |t| <= |s|
  {
  }

  /** One written operand is read back, whatever its blanks. */
  lemma ParseShownSpelling(p: Spelling, s: string, i: nat)
    requires WritableSpelling(p) && Occurs(s, i, ShowSpelling(p))
    requires p.after == "" ==> Separate(p.o, s, i + |ShowSpelling(p)|)
    ensures FirstAt(s, i) == p.o
    ensures FirstEnd(s, i) == SpanEnd(s, i + |ShowSpelling(p)|, Blank)
  {
    hide SpanEnd, OperandAt, OperandEnd, Occurs, ShowOperand, Separate, Writable, AllIn;
    var j := i + |p.before|;
    var k := j + |ShowOperand(p.o)|;
    SplitSpelling(p, s, i);
    SkipWritten(s, i, p.before, 0);
    ParseShownOperand(p.o, s, j);
    SkipWritten(s, k, p.after, 0);
  }

  lemma SplitJoin(p: Spelling, op: char, tail: Printed, s: string, i: nat)
    requires IsOp(op) && Occurs(s, i, Show(Join(p, op, tail)))
    ensures Occurs(s, i, ShowSpelling(p))
    ensures i + |ShowSpelling(p)| < |s| && s[i + |ShowSpelling(p)|] == op
    ensures SpanEnd(s, i + |ShowSpelling(p)|, Blank) == i + |ShowSpelling(p)|
    ensures Occurs(s, i + |ShowSpelling(p)| + 1, Show(tail))
    ensures |Show(Join(p, op, tail))| == |ShowSpelling(p)| + 1 + |Show(tail)|
  {
    hide Occurs, ShowSpelling, SpanEnd;
    var k := i + |ShowSpelling(p)|;
    OccursSplit(s, i, ShowSpelling(p) + [op], Show(tail));
    OccursSplit(s, i, ShowSpelling(p), [op]);
    OccursHead(s, k, [op]);
    SpanStep(s, k, Blank);
  }

  /** A chain that is one operand, or an operand before an operator at `k`. */
  lemma ChainCases(s: string, i: nat)
    requires i <= |s|
    ensures
      var k := FirstEnd(s, i);
      if IsOp(At(s, k)) then
        k < |s| && ChainAt(s, i) == Link(FirstAt(s, i), s[k], ChainAt(s, k + 1)) && ChainEnd(s, i) == ChainEnd(s, k + 1)
      else ChainAt(s, i) == Last(FirstAt(s, i)) && ChainEnd(s, i) == k
  {
    hide FirstAt, FirstEnd;
  }

  lemma ParseJoin(p: Spelling, op: char, tail: Printed, s: string, i: nat)
    requires WritableSpelling(p) && IsOp(op) && Occurs(s, i, Show(Join(p, op, tail)))
    ensures
      var k := i + |ShowSpelling(p)| + 1;
      && k <= |s| && Occurs(s, k, Show(tail)) && i + |Show(Join(p, op, tail))| == k + |Show(tail)|
      && ChainAt(s, i) == Link(p.o, op, ChainAt(s, k)) && ChainEnd(s, i) == ChainEnd(s, k)
  {
    hide Occurs, ShowSpelling, Show, WritableSpelling, Separate, SpanEnd, FirstAt, FirstEnd, ChainAt, ChainEnd;
    SplitJoin(p, op, tail, s, i);
    SeparateBy(p.o, s, i + |ShowSpelling(p)|);
    ParseShownSpelling(p, s, i);
    ChainCases(s, i);
  }

  /** Reading a printed chain gives the chain back and stops at the first non-blank after it. */
  lemma {:induction false} ParseShown(c: Printed, s: string, i: nat)
    requires WritableChain(c) && Occurs(s, i, Show(c)) && Stops(c, s, i + |Show(c)|)
    ensures ChainAt(s, i) == Erase(c)
    ensures ChainEnd(s, i) == SpanEnd(s, i + |Show(c)|, Blank)
  {
    hide Occurs, ShowSpelling, WritableSpelling, Separate, SpanEnd, FirstAt, FirstEnd, ChainAt, ChainEnd;
    match c {
      case Final(p) =>
        ParseShownSpelling(p, s, i);
        ChainCases(s, i);
      case Join(p, op, tail) =>
        ParseJoin(p, op, tail, s, i);
        ParseShown(tail, s, i + |ShowSpelling(p)| + 1);
    }
  }

  // ---------- What was read could have been printed ----------

  /** Every operand of the chain is a number, a string or a name: none is missing or left open. */
  predicate Complete(c: Chain) {
    Readable(c.o) && (c.Link? ==> Complete(c.rest))
  }

  predicate Readable(o: Operand) {
    o.Num? || o.Lit? || o.Name?
  }

  /** The characters of the first operand, with its blanks. */
  function SpellingAt(s: string, i: nat): Spelling
    requires i <= |s|
  {
    var j := SpanEnd(s, i, Blank);
    var k := OperandEnd(s, j);
    Spelling(s[i..j], OperandAt(s, j), s[k..SpanEnd(s, k, Blank)])
  }

  function PrintedAt(s: string, i: nat): Printed
    requires i <= |s|
    decreases |s| - i
  {
    var k := FirstEnd(s, i);
    if IsOp(At(s, k)) then Join(SpellingAt(s, i), s[k], PrintedAt(s, k + 1)) else Final(SpellingAt(s, i))
  }

  lemma ReadOperand(s: string, j: nat)
    requires j <= |s| && Readable(OperandAt(s, j))
    ensures Writable(OperandAt(s, j)) && ShowOperand(OperandAt(s, j)) == s[j..OperandEnd(s, j)]
  {
    var c := At(s, j);
    if IsDigit(c) {
      SpanAll(s, j, Digit);
      assert SpanEnd(s, j, Digit) > j;
    } else if c == '"' {
      SpanAll(s, j + 1, NotQuote);
      var q := SpanEnd(s, j + 1, NotQuote);
      assert s[j..q + 1] == "\"" + s[j + 1..q] + "\"";
    } else {
      SpanAll(s, j, Word);
      assert SpanEnd(s, j, Word) > j;
    }
    hide SpanEnd;
  }

  lemma ReadSpelling(s: string, i: nat)
    requires i <= |s| && Readable(FirstAt(s, i))
    ensures WritableSpelling(SpellingAt(s, i)) && SpellingAt(s, i).o == FirstAt(s, i)
    ensures ShowSpelling(SpellingAt(s, i)) == s[i..FirstEnd(s, i)]
  {
    hide SpanEnd, OperandAt, OperandEnd, Writable, ShowOperand, Readable;
    var j := SpanEnd(s, i, Blank);
    var k := OperandEnd(s, j);
    ReadOperand(s, j);
    SpanAll(s, i, Blank);
    SpanAll(s, k, Blank);
    assert s[i..j] + s[j..k] == s[i..k];
    assert s[i..k] + s[k..FirstEnd(s, i)] == s[i..FirstEnd(s, i)];
  }

  /** The other direction: whatever complete chain is read from a text, exactly the characters consumed are
      one way to print it. */
  lemma {:induction false} ReadIsPrinted(s: string, i: nat)
    requires i <= |s| && Complete(ChainAt(s, i))
    ensures WritableChain(PrintedAt(s, i)) && Erase(PrintedAt(s, i)) == ChainAt(s, i)
    ensures Show(PrintedAt(s, i)) == s[i..ChainEnd(s, i)]
    decreases |s| - i
  {
    hide SpellingAt, FirstAt, FirstEnd, ShowSpelling, WritableSpelling, Readable;
    var k := FirstEnd(s, i);
    ReadSpelling(s, i);
    if IsOp(At(s, k)) {
      ReadIsPrinted(s, k + 1);
      assert s[i..k] + [s[k]] + s[k + 1..ChainEnd(s, k + 1)] == s[i..ChainEnd(s, k + 1)];
    }
  }
}
