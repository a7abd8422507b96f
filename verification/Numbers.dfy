/** Printing and reading integers: `itoa` (standard.c) and `atoi` (system.c). */
module Numbers {
  import opened CInt
  import opened Text

  // ---------- Specification of itoa ----------

  /** The bases whose digits are written '0' to '9' and 'a' to 'z'. */
  type Base = b: int | 2 <= b <= 36 witness 10

  /** The character `itoa` stores for one remainder; a negative remainder lands below '0'. */
  function DigitChar(t: int): char
    requires -36 < t < 36
  {
    if t < 10 then (48 + t) as char else (87 + t) as char
  }

  lemma Quotient(v: int, base: Base)
    ensures v != 0 ==> Abs(CDiv(v, base)) < Abs(v)
    ensures Abs(CMod(v, base)) < base && CDiv(v, base) * base + CMod(v, base) == v
    ensures v >= 0 ==> CDiv(v, base) >= 0 && CMod(v, base) >= 0
    ensures v <= 0 ==> CDiv(v, base) <= 0 && CMod(v, base) <= 0
  {
    var a := Abs(v);
    var q, r := a / base, a % base;
    Product(q, base);
    assert a == q * base + r;
    assert (-q) * base == -(q * base);
  }

  lemma Product(q: nat, base: Base)
    ensures q * base >= 2 * q
  {
  }

  /** The digits of a value in a base, most significant first; empty for zero. */
  function Render(v: int, base: Base): string
    decreases Abs(v)
  {
    Quotient(v, base);
    if v == 0 then "" else Render(CDiv(v, base), base) + [DigitChar(CMod(v, base))]
  }

  /** The whole text. Only base ten has a sign; negating INT_MIN wraps to INT_MIN, so its digits, like those
      of a negative value in another base, come from negative remainders. */
  function ItoaIn(v: int, base: Base): string
    requires IsInt32(v)
  {
    if v == 0 then "0"
    else if v < 0 && base == 10 then "-" + Render(Wrap32(-v), base)
    else Render(v, base)
  }

  function ItoaText(v: int): string
    requires IsInt32(v)
  {
    ItoaIn(v, 10)
  }

  function Reversed(s: string): (r: string)
    ensures |r| == |s|
  {
    if s == "" then "" else Reversed(s[1..]) + [s[0]]
  }

  lemma {:induction false} ReversedAt(s: string, k: nat)
    requires k < |s|
    ensures Reversed(s)[k] == s[|s| - 1 - k]
  {
    if k < |s| - 1 {
      ReversedAt(s[1..], k);
    }
  }

  lemma ReversedIs(s: string, r: string)
    requires |r| == |s| && forall k :: 0 <= k < |s| ==> r[k] == s[|s| - 1 - k]
    ensures r == Reversed(s)
  {
    forall k | 0 <= k < |s|
      ensures r[k] == Reversed(s)[k]
    {
      ReversedAt(s, k);
    }
  }

  lemma ReversedPrepend(s: string, c: char)
    ensures Reversed(s + [c]) == [c] + Reversed(s)
  {
    forall k | 0 <= k < |s| + 1
      ensures Reversed(s + [c])[k] == ([c] + Reversed(s))[k]
    {
      ReversedAt(s + [c], k);
      if k > 0 {
        ReversedAt(s, k - 1);
      }
    }
  }

  lemma ReversedTwice(s: string)
    ensures Reversed(Reversed(s)) == s
  {
    forall k | 0 <= k < |s|
      ensures Reversed(Reversed(s))[k] == s[k]
    {
      ReversedAt(Reversed(s), k);
      ReversedAt(s, |s| - 1 - k);
    }
  }

  function Pow10(n: nat): (p: nat)
    ensures p > 0
  {
    if n == 0 then 1 else 10 * Pow10(n - 1)
  }

  lemma {:induction false} RenderLength(v: int, n: nat)
    requires Abs(v) < Pow10(n)
    ensures |Render(v, 10)| <= n
    decreases n
  {
    if v != 0 {
      RenderLength(CDiv(v, 10), n - 1);
    }
  }

  // ---------- itoa, writing digits and reversing them in place ----------

  /** Reverses `str[lo..hi]` with two pointers that move toward each other. */
  method ReverseInPlace(str: array<char>, lo: nat, hi: nat)
    requires lo <= hi <= str.Length
    modifies str
    ensures str[lo..hi] == Reversed(old(str[lo..hi]))
    ensures forall k :: 0 <= k < str.Length && !(lo <= k < hi) ==> str[k] == old(str[k])
  {
    var ptr1, ptr := lo, hi;
    ptr := ptr - 1;
    while ptr1 < ptr
      invariant lo <= ptr1 <= ptr + 1 <= hi
      invariant ptr1 + ptr == lo + hi - 1
      invariant forall k :: 0 <= k < str.Length && !(lo <= k < ptr1 || ptr < k < hi) ==> str[k] == old(str[k])
      invariant forall k :: lo <= k < ptr1 || ptr < k < hi ==> str[k] == old(str[lo + hi - 1 - k])
    {
      var tmpChar := str[ptr];
      str[ptr] := str[ptr1];
      str[ptr1] := tmpChar;
      ptr1 := ptr1 + 1;
      ptr := ptr - 1;
    }
    ghost var was := old(str[lo..hi]);
    forall k | 0 <= k < hi - lo
      ensures str[lo..hi][k] == was[hi - lo - 1 - k]
    {
      assert lo + k == ptr1 || lo <= lo + k < ptr1 || ptr < lo + k < hi;
      assert str[lo + k] == old(str[lo + hi - 1 - (lo + k)]);
    }
    ReversedIs(was, str[lo..hi]);
  }

  /** One more digit stored: the text is what is still to come, then the stored digits backwards. */
  lemma RenderStep(v: int, base: Base, written: string)
    requires v != 0
    ensures -36 < CMod(v, base) < 36 && Abs(CDiv(v, base)) < Abs(v)
    ensures
      Render(v, base) + Reversed(written) ==
      Render(CDiv(v, base), base) + Reversed(written + [DigitChar(CMod(v, base))])
    ensures |Render(v, base)| == |Render(CDiv(v, base), base)| + 1
  {
    Quotient(v, base);
    ReversedPrepend(written, DigitChar(CMod(v, base)));
    hide CDiv, CMod, DigitChar;
  }

  lemma RenderZero(base: Base)
    ensures Render(0, base) == ""
  {
  }

  /** The digit loop of `itoa`: least significant digit first, from `ptr` on. */
  method StoreDigits(value: int, str: array<char>, ptr: nat, base: Base) returns (end: nat)
    requires ptr + |Render(value, base)| < str.Length
    modifies str
    ensures end == ptr + |Render(value, base)|
    ensures str[ptr..end] == Reversed(Render(value, base))
    ensures forall k :: 0 <= k < str.Length && !(ptr <= k < end) ==> str[k] == old(str[k])
  {
    hide Render, Reversed, CDiv, CMod, Abs, DigitChar;
    var v := value;
    end := ptr;
    assert str[ptr..end] == "";
    NothingStored(value, base);
    while v != 0
      invariant ptr <= end <= end + |Render(v, base)| < str.Length
      invariant Render(value, base) == Render(v, base) + Reversed(str[ptr..end])
      invariant forall k :: 0 <= k < str.Length && !(ptr <= k < end) ==> str[k] == old(str[k])
      decreases Abs(v)
    {
      ghost var written := str[ptr..end];
      RenderStep(v, base, written);
      var tmpValue := CMod(v, base);
      str[end] := DigitChar(tmpValue);
      end := end + 1;
      assert str[ptr..end] == written + [DigitChar(tmpValue)];
      v := CDiv(v, base);
    }
    AllStored(value, base, str[ptr..end]);
  }

  lemma NothingStored(v: int, base: Base)
    ensures Render(v, base) == Render(v, base) + Reversed("")
  {
    hide Render;
  }

  lemma AllStored(v: int, base: Base, written: string)
    requires Render(v, base) == Render(0, base) + Reversed(written)
    ensures written == Reversed(Render(v, base)) && |written| == |Render(v, base)|
  {
    RenderZero(base);
    hide Render;
    assert "" + Reversed(written) == Reversed(written);
    ReversedTwice(written);
  }

  /** `itoa`: the caller's buffer gets the text and its NUL, and nothing else is touched. */
  method Itoa(value: Int32, str: array<char>, base: Base)
    requires |ItoaIn(value, base)| < str.Length
    modifies str
    ensures str[..|ItoaIn(value, base)|] == ItoaIn(value, base) && str[|ItoaIn(value, base)|] == NUL
    ensures forall k :: |ItoaIn(value, base)| < k < str.Length ==> str[k] == old(str[k])
  {
    hide Render, Reversed;
    if value == 0 {
      str[0] := '0';
      str[1] := NUL;
      return;
    }
    var v: int := value;
    var ptr, ptr1 := 0, 0;
    if v < 0 && base == 10 {
      str[0] := '-';
      ptr, ptr1 := 1, 1;
      v := Wrap32(-v);
    }
    ghost var text := Render(v, base);
    ptr := StoreDigits(v, str, ptr, base);
    str[ptr] := NUL;
    assert str[ptr1..ptr] == Reversed(text);
    ReverseInPlace(str, ptr1, ptr);
    ReversedTwice(text);
    assert str[..ptr] == str[..ptr1] + str[ptr1..ptr];
  }

  // ---------- Specification of atoi ----------

  function DigitValue(c: char): int {
    c as int - 48
  }

  /** The exact (unbounded) value of a run of decimal digits. */
  function Decimal(d: string): int {
    if d == "" then 0 else Decimal(d[..|d| - 1]) * 10 + DigitValue(d[|d| - 1])
  }

  /** One more digit: ten times the number so far and the digit's own value. */
  lemma DecimalAppend(d: string, c: char, dc: string)
    requires dc == d + [c]
    ensures Decimal(dc) == 10 * Decimal(d) + (c as int - '0' as int)
  {
    assert dc[..|d|] == d;
  }

  lemma DecimalNone(s: string, from: nat)
    requires from <= |s|
    ensures Wrap32(Decimal(s[from..from])) == 0
  {
  }

  /** One more digit, accumulated in a wrapping `int`, still tracks the exact value. */
  lemma DecimalStep(s: string, from: nat, p: nat)
    requires from <= p < |s| && IsDigit(s[p])
    ensures Wrap32(Wrap32(Decimal(s[from..p])) * 10 + DigitValue(s[p])) == Wrap32(Decimal(s[from..p + 1]))
  {
    var d, c := s[from..p], s[p];
    assert s[from..p + 1] == d + [c] && (d + [c])[..|d|] == d;
    WrapFactor(Decimal(d), 10);
    WrapSum(Wrap32(Decimal(d)) * 10, DigitValue(c));
    WrapSum(Decimal(d) * 10, DigitValue(c));
  }

  /** Where the digits that `atoi` reads begin, after blanks and one sign. */
  function AtoiStart(s: string): (q: nat)
    ensures q <= |s|
  {
    var p := SpanEnd(s, 0, Blank);
    if At(s, p) == '-' || At(s, p) == '+' then p + 1 else p
  }

  /** The number `atoi` is meant to read, without bounds. */
  function AtoiExact(s: string): int {
    var d := Decimal(s[AtoiStart(s)..SpanEnd(s, AtoiStart(s), Digit)]);
    if At(s, SpanEnd(s, 0, Blank)) == '-' then -d else d
  }

  lemma WrapSigned(sign: int, d: int)
    requires sign == 1 || sign == -1
    ensures Wrap32(sign * Wrap32(d)) == Wrap32(if sign == -1 then -d else d)
  {
    if sign == -1 {
      WrapSum(0, d);
    }
  }

  /** The digit loop of `atoi`, whose running result is a wrapping `int`. */
  method ReadDigits(str: string, start: nat) returns (result: Int32)
    requires start <= |str|
    ensures result == Wrap32(Decimal(str[start..SpanEnd(str, start, Digit)]))
  {
    hide SpanEnd, Decimal, Wrap32;
    var p := start;
    result := 0;
    DecimalNone(str, start);
    while '0' <= At(str, p) <= '9'
      invariant start <= p <= |str|
      invariant SpanEnd(str, p, Digit) == SpanEnd(str, start, Digit)
      invariant result == Wrap32(Decimal(str[start..p]))
      decreases |str| - p
    {
      DecimalStep(str, start, p);
      SpanStep(str, p, Digit);
      result := Wrap32(result * 10 + DigitValue(str[p]));
      p := p + 1;
    }
    SpanStep(str, p, Digit);
  }

  method Atoi(str: string) returns (r: Int32)
    requires IsText(str)
    ensures r == Wrap32(AtoiExact(str))
  {
    var sign: Int32 := 1;
    var p := 0;
    while IsSpace(At(str, p))
      invariant p <= |str|
      invariant SpanEnd(str, p, Blank) == SpanEnd(str, 0, Blank)
      decreases |str| - p
    {
      p := p + 1;
    }
    if At(str, p) == '-' || At(str, p) == '+' {
      if At(str, p) == '-' {
        sign := -1;
      }
      p := p + 1;
    }
    assert p == AtoiStart(str);
    var result := ReadDigits(str, p);
    WrapSigned(sign, Decimal(str[p..SpanEnd(str, p, Digit)]));
    return Wrap32(sign * result);
  }

  // ---------- Round trip ----------

  predicate Canonical(s: string) {
    s != "" && AllIn(s, Digit) && (|s| > 1 ==> s[0] != '0')
  }

  /** The digits of a positive number: canonical, and they read back as the number. */
  lemma {:induction false} RenderCanonical(v: nat)
    requires v > 0
    ensures Canonical(Render(v, 10)) && Render(v, 10)[0] != '0'
    ensures Decimal(Render(v, 10)) == v
  {
    var q, c := v / 10, DigitChar(v % 10);
    if q == 0 {
      assert Render(v, 10) == "" + [c];
    } else {
      RenderCanonical(q);
      assert Render(v, 10) == Render(q, 10) + [c];
      assert Render(v, 10)[..|Render(q, 10)|] == Render(q, 10);
    }
  }

  /** No value a digit-by-digit reader passes through exceeds the final one. */
  lemma {:induction false} PrefixBelow(d: string, n: nat)
    requires AllIn(d, Digit) && n <= |d|
    ensures 0 <= Decimal(d[..n]) <= Decimal(d)
    decreases |d|
  {
    if n < |d| {
      var e := d[..|d| - 1];
      assert e[..n] == d[..n];
      PrefixBelow(e, n);
    } else if d != "" {
      assert d[..n] == d;
      PrefixBelow(d[..|d| - 1], |d| - 1);
      assert d[..|d| - 1][..|d| - 1] == d[..|d| - 1];
    }
  }

  /** What a digit stands for; a character below '0' stands for a negative number. */
  function CharValue(c: char): int {
    if c < 'a' then c as int - 48 else c as int - 87
  }

  function ValueIn(s: string, base: Base): int {
    if s == "" then 0 else ValueIn(s[..|s| - 1], base) * base + CharValue(s[|s| - 1])
  }

  predicate DigitsIn(s: string, base: Base) {
    forall i :: 0 <= i < |s| ==> 0 <= CharValue(s[i]) < base
  }

  lemma CharOfDigit(t: int)
    requires -36 < t < 36
    ensures CharValue(DigitChar(t)) == t
  {
  }

  /** In every base the characters of a value determine it, and they are digits iff it is not negative. */
  lemma {:induction false} RenderValue(v: int, base: Base)
    ensures ValueIn(Render(v, base), base) == v
    ensures DigitsIn(Render(v, base), base) <==> v >= 0
    decreases Abs(v)
  {
    hide Render, CDiv, CMod, DigitChar, CharValue, ValueIn, DigitsIn;
    if v != 0 {
      Quotient(v, base);
      SomeNegative(v, base);
      var q, t := CDiv(v, base), CMod(v, base);
      RenderValue(q, base);
      CharOfDigit(t);
      RenderLast(v, base);
      LastDigit(Render(q, base), DigitChar(t), base);
    } else {
      RenderZero(base);
      NoDigits(base);
    }
  }

  lemma NoDigits(base: Base)
    ensures ValueIn("", base) == 0 && DigitsIn("", base)
  {
  }

  lemma RenderLast(v: int, base: Base)
    requires v != 0
    ensures -36 < CMod(v, base) < 36
    ensures Render(v, base) == Render(CDiv(v, base), base) + [DigitChar(CMod(v, base))]
  {
    Quotient(v, base);
    hide CDiv, CMod, DigitChar;
  }

  lemma SomeNegative(v: int, base: Base)
    ensures v < 0 ==> CDiv(v, base) < 0 || CMod(v, base) < 0
  {
    Quotient(v, base);
    hide CDiv, CMod;
    if CDiv(v, base) == 0 {
      assert CDiv(v, base) * base == 0;
    }
  }

  lemma LastDigit(front: string, c: char, base: Base)
    ensures ValueIn(front + [c], base) == ValueIn(front, base) * base + CharValue(c)
    ensures DigitsIn(front + [c], base) <==> DigitsIn(front, base) && 0 <= CharValue(c) < base
  {
    assert (front + [c])[..|front|] == front;
    hide CharValue;
    assert forall i :: 0 <= i < |front| ==> (front + [c])[i] == front[i];
    assert (front + [c])[|front|] == c;
  }

  /** The text in any base but ten: its characters stand for exactly the number, and all of them are digits
      iff it is not negative, for only base ten writes a sign. */
  lemma ItoaOtherBase(v: int, base: Base)
    requires IsInt32(v) && base != 10
    ensures ValueIn(ItoaIn(v, base), base) == v
    ensures DigitsIn(ItoaIn(v, base), base) <==> v >= 0
  {
    RenderValue(v, base);
    LastDigit("", '0', base);
    hide Render;
    assert "" + ['0'] == "0";
  }

  /** The digits of the magnitude of `v`, as `itoa` prints them. */
  function Magnitude(v: int): string {
    if v == 0 then "0" else Render(Abs(v), 10)
  }

  /** The text of every `int` but INT_MIN: '-' iff negative, then the canonical digits of the magnitude. */
  lemma ItoaShape(v: int)
    requires IsInt32(v) && v != INT_MIN
    ensures ItoaText(v) == (if v < 0 then "-" else "") + Magnitude(v)
    ensures Canonical(Magnitude(v)) && Decimal(Magnitude(v)) == Abs(v)
  {
    if v == 0 {
      assert "0"[..0] == "";
    } else {
      RenderCanonical(Abs(v));
    }
  }

  /** Reading digits with an optional sign in front. */
  lemma AtoiOfSigned(sign: string, d: string)
    requires sign == "" || sign == "-"
    requires d != "" && AllIn(d, Digit)
    ensures AtoiExact(sign + d) == if sign == "-" then -Decimal(d) else Decimal(d)
  {
    var s := sign + d;
    assert s[|sign|] == d[0];
    SpanIs(s, 0, Blank, 0);
    SpanOccurs(s, |sign|, d, Digit);
  }

  lemma {:induction false} RenderNegativeHead(v: int)
    requires v < 0
    ensures Render(v, 10) != "" && Render(v, 10)[0] as int < 48
    decreases -v
  {
    if v <= -10 {
      RenderNegativeHead(CDiv(v, 10));
    }
  }

  /** The text of INT_MIN is '-' and then characters below '0', so `atoi` finds no digits in it. */
  lemma IntMinText()
    ensures AtoiExact(ItoaText(INT_MIN)) == 0
  {
    RenderNegativeHead(INT_MIN);
    var s := ItoaText(INT_MIN);
    assert s[1] == Render(INT_MIN, 10)[0];
    SpanIs(s, 0, Blank, 0);
    SpanIs(s, 1, Digit, 1);
    assert s[1..1] == "";
  }

  /** `atoi` undoes `itoa` for every `int` except INT_MIN, whose text is not a number at all. */
  lemma AtoiOfItoa(v: int)
    requires IsInt32(v)
    ensures Wrap32(AtoiExact(ItoaText(v))) == v <==> v != INT_MIN
    ensures v != INT_MIN ==> AtoiExact(ItoaText(v)) == v
  {
    if v == INT_MIN {
      IntMinText();
    } else {
      ItoaShape(v);
      AtoiOfSigned(if v < 0 then "-" else "", Magnitude(v));
      assert v >= 0 ==> "" + Magnitude(v) == Magnitude(v);
    }
  }

  /** Any text at all: after its blanks and one sign come some digits, perhaps none, and then something that
      is no digit. `atoi` is meant to read those digits with that sign, and to pass over the rest. */
  lemma AtoiOfText(blanks: string, sign: string, d: string, rest: string)
    requires AllIn(blanks, Blank) && AllIn(d, Digit) && (rest != "" ==> !IsDigit(rest[0]))
    requires sign == "+" || sign == "-" || (sign == "" && StartsPlain(d + rest))
    ensures AtoiExact(blanks + sign + d + rest) == if sign == "-" then -Decimal(d) else Decimal(d)
  {
    var s := blanks + sign + d + rest;
    var p, q := |blanks|, |blanks| + |sign|;
    TextParts(blanks, sign, d, rest);
    hide Decimal;
    SpanIs(s, 0, Blank, p);
    SpanIs(s, q, Digit, q + |d|);
    assert s[q..q + |d|] == d;
  }

  /** The text begins with neither a blank nor a sign. */
  predicate StartsPlain(s: string) {
    s == "" || !(IsSpace(s[0]) || s[0] == '+' || s[0] == '-')
  }

  lemma TextParts(blanks: string, sign: string, d: string, rest: string)
    requires AllIn(blanks, Blank) && AllIn(d, Digit) && (rest != "" ==> !IsDigit(rest[0]))
    requires sign == "+" || sign == "-" || (sign == "" && StartsPlain(d + rest))
    ensures
      var s := blanks + sign + d + rest;
      var p, q := |blanks|, |blanks| + |sign|;
      && (forall x :: 0 <= x < p ==> In(s[x], Blank)) && (p < |s| ==> !In(s[p], Blank))
      && (forall x :: q <= x < q + |d| ==> In(s[x], Digit)) && (q + |d| < |s| ==> !In(s[q + |d|], Digit))
      && (if sign == "" then At(s, p) != '+' && At(s, p) != '-' else p < |s| && s[p] == sign[0])
  {
    var s := blanks + sign + d + rest;
    var p, q := |blanks|, |blanks| + |sign|;
    assert s[p..] == sign + (d + rest);
    assert s[q..] == d + rest;
    assert p < |s| ==> s[p] == s[p..][0];
    assert q < |s| ==> s[q] == s[q..][0];
  }

  /** On the way back no prefix of the digits leaves the range of `int`. */
  lemma NoOverflowReadingBack(v: int, n: nat)
    requires IsInt32(v) && v != INT_MIN && n <= |Magnitude(v)|
    ensures 0 <= Decimal(Magnitude(v)[..n]) <= INT_MAX
  {
    ItoaShape(v);
    PrefixBelow(Magnitude(v), n);
  }

  lemma {:induction false} RenderIsText(v: int)
    ensures IsText(Render(v, 10))
    decreases Abs(v)
  {
    if v != 0 {
      RenderIsText(CDiv(v, 10));
    }
  }

  /** No digit is a NUL, so the terminator is the first one. */
  lemma ItoaIsText(v: int)
    requires IsInt32(v)
    ensures IsText(ItoaText(v))
  {
    RenderIsText(v);
    RenderIsText(Wrap32(-v));
  }

  /** Every text fits, with its NUL, in the 12 bytes `printk` sets aside, and no smaller buffer would do. */
  lemma FitsInTwelve(v: int)
    requires IsInt32(v)
    ensures |ItoaText(v)| + 1 <= 12
    ensures |ItoaText(-2000000000)| + 1 == 12
  {
    assert Pow10(5) == 100000;
    assert Pow10(10) == Pow10(5) * 100000;
    RenderLength(v, 10);
    RenderLength(Wrap32(-v), 10);
    RenderTail(2, 9);
  }

  lemma Pow10Factor(v: nat, n: nat)
    requires n > 0
    ensures v * Pow10(n) == 10 * (v * Pow10(n - 1))
  {
    var p := Pow10(n - 1);
    assert v * (10 * p) == 10 * (v * p);
  }

  lemma PositiveProduct(v: nat, p: nat)
    requires v > 0 && p > 0
    ensures v * p > 0
  {
  }

  lemma {:induction false} RenderTail(v: nat, n: nat)
    requires v > 0
    ensures |Render(v * Pow10(n), 10)| == |Render(v, 10)| + n
    decreases n
  {
    hide Render;
    if n > 0 {
      PositiveProduct(v, Pow10(n - 1));
      Pow10Factor(v, n);
      RenderTimesTen(v * Pow10(n - 1));
      RenderTail(v, n - 1);
    } else {
      assert v * Pow10(0) == v;
    }
  }

  lemma RenderTimesTen(w: nat)
    requires w > 0
    ensures |Render(10 * w, 10)| == |Render(w, 10)| + 1
  {
    assert CDiv(10 * w, 10) == w;
  }
}
