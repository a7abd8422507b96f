/** Character classes and spans of C strings. A string is held without its terminating NUL. */
module Text {

  const NUL: char := '\0'

  predicate IsSpace(c: char) {
    c == ' ' || c == '\t' || c == '\n' || c == 11 as char || c == 12 as char || c == '\r'
  }

  predicate IsDigit(c: char) {
    '0' <= c <= '9'
  }

  predicate IsAlpha(c: char) {
    'A' <= c <= 'Z' || 'a' <= c <= 'z'
  }

  /** The classes by the numbers of their characters: blank, tab to carriage return; ten digits; letters. */
  lemma Classes(c: char)
    ensures IsSpace(c) <==> c as int == 32 || 9 <= c as int <= 13
    ensures IsDigit(c) <==> 48 <= c as int < 48 + 10
    ensures IsAlpha(c) <==> 65 <= c as int < 65 + 26 || 97 <= c as int < 97 + 26
  {
  }

  /** The character a C loop sees at index `i`: the terminator just past the text. */
  function At(s: string, i: nat): char
    requires i <= |s|
  {
    if i < |s| then s[i] else NUL
  }

  /** A C string holds no NUL before its terminator. */
  predicate IsText(s: string) {
    NUL !in s
  }

  /** The classes of characters that the scanning loops run over. */
  datatype CharClass = Blank | Digit | Word | NotQuote

  predicate In(c: char, k: CharClass) {
    match k
    case Blank => IsSpace(c)
    case Digit => IsDigit(c)
    case Word => IsAlpha(c) || IsDigit(c) || c == '_'
    case NotQuote => c != '"' && c != NUL
  }

  predicate AllIn(s: string, k: CharClass) {
    forall i :: 0 <= i < |s| ==> In(s[i], k)
  }

  /** Where the run of characters in `k` that starts at position `i` ends. */
  function SpanEnd(s: string, i: nat, k: CharClass): (j: nat)
    requires i <= |s|
    ensures i <= j <= |s|
    ensures j < |s| ==> !In(s[j], k)
    decreases |s| - i
  {
    if i == |s| || !In(s[i], k) then i else SpanEnd(s, i + 1, k)
  }

  /** One round of a scanning loop. */
  lemma SpanStep(s: string, i: nat, k: CharClass)
    requires i <= |s|
    ensures i < |s| && In(s[i], k) ==> SpanEnd(s, i, k) == SpanEnd(s, i + 1, k)
    ensures i == |s| || !In(s[i], k) ==> SpanEnd(s, i, k) == i
  {
  }

  lemma SliceStep(s: string, i: nat, j: nat)
    requires i <= j < |s|
    ensures s[i..j + 1] == s[i..j] + [s[j]]
  {
  }

  lemma {:induction false} SpanAll(s: string, i: nat, k: CharClass)
    requires i <= |s|
    ensures AllIn(s[i..SpanEnd(s, i, k)], k)
    decreases |s| - i
  {
    if i < SpanEnd(s, i, k) {
      SpanAll(s, i + 1, k);
      assert s[i..SpanEnd(s, i, k)] == [s[i]] + s[i + 1..SpanEnd(s, i, k)];
    }
  }

  /** A loop that started at `i` and stopped at the first character outside `k` has found the end. */
  lemma {:induction false} SpanIs(s: string, i: nat, k: CharClass, j: nat)
    requires i <= j <= |s|
    requires forall x :: i <= x < j ==> In(s[x], k)
    requires j < |s| ==> !In(s[j], k)
    ensures SpanEnd(s, i, k) == j
    decreases j - i
  {
    if i < j {
      SpanIs(s, i + 1, k, j);
    }
  }

  /** `t` is written in `s` at position `i`. */
  predicate Occurs(s: string, i: nat, t: string) {
    i + |t| <= |s| && forall x :: 0 <= x < |t| ==> s[i + x] == t[x]
  }

  lemma OccursSplit(s: string, i: nat, a: string, b: string)
    requires Occurs(s, i, a + b)
    ensures Occurs(s, i, a) && Occurs(s, i + |a|, b)
  {
    forall x | 0 <= x < |a|
      ensures s[i + x] == a[x]
    {
      assert (a + b)[x] == a[x];
    }
    forall x | 0 <= x < |b|
      ensures s[i + |a| + x] == b[x]
    {
      assert (a + b)[|a| + x] == b[x];
    }
  }

  lemma OccursHead(s: string, i: nat, t: string)
    requires Occurs(s, i, t) && t != ""
    ensures i < |s| && s[i] == t[0]
  {
    assert s[i + 0] == t[0];
  }

  /** A written text in one class, followed by something outside it, is exactly one span. */
  lemma SpanOccurs(s: string, i: nat, t: string, k: CharClass)
    requires Occurs(s, i, t) && AllIn(t, k)
    requires i + |t| < |s| ==> !In(s[i + |t|], k)
    ensures SpanEnd(s, i, k) == i + |t| && s[i..i + |t|] == t
  {
    forall x | i <= x < i + |t|
      ensures In(s[x], k)
    {
      assert s[i + (x - i)] == t[x - i];
    }
    SpanIs(s, i, k, i + |t|);
  }
}
