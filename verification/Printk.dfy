/** The formatting loop of `printk` (standard.c). */
module Printk {
  import opened CInt
  import opened Text
  import opened Wrappers
  import Numbers

  const BUFFER_SIZE: nat := 256

  datatype Arg = IntArg(v: Int32) | StrArg(s: string)

  /** The text a format expands to; None when an argument is missing or of the wrong kind. A percent sign
      before any other character stays, with that character, and so does one at the very end. */
  function Expand(f: string, args: seq<Arg>): Option<string> {
    if f == "" then Some("")
    else if f[0] == '%' && |f| > 1 && f[1] == 'd' then
      if args != [] && args[0].IntArg? then Prepend(Numbers.ItoaText(args[0].v), Expand(f[2..], args[1..])) else None
    else if f[0] == '%' && |f| > 1 && f[1] == 's' then
      if args != [] && args[0].StrArg? then Prepend(args[0].s, Expand(f[2..], args[1..])) else None
    else if f[0] == '%' && |f| > 1 then Prepend(f[..2], Expand(f[2..], args))
    else Prepend(f[..1], Expand(f[1..], args))
  }

  function Prepend(s: string, rest: Option<string>): Option<string> {
    if rest.None? then None else Some(s + rest.value)
  }

  /** How many arguments a format takes. */
  function Takes(f: string): nat {
    if |f| < 2 then 0
    else if f[0] != '%' then Takes(f[1..])
    else (if f[1] == 'd' || f[1] == 's' then 1 else 0) + Takes(f[2..])
  }

  /** The format does not end in the middle of a conversion. */
  predicate Complete(f: string) {
    if f == "" then true
    else if f[0] != '%' then Complete(f[1..])
    else |f| > 1 && Complete(f[2..])
  }

  /** What one turn of the format loop consumes and writes. */
  lemma OneTurn(f: string, args: seq<Arg>) returns (n: nat, k: nat, piece: string)
    requires f != "" && Expand(f, args).Some?
    ensures 1 <= n <= 2 && n <= |f| && k <= |args| && k <= 1
    ensures Expand(f, args) == Prepend(piece, Expand(f[n..], args[k..]))
    ensures n == (if f[0] == '%' && |f| > 1 then 2 else 1)
    ensures k == (if n == 2 && (f[1] == 'd' || f[1] == 's') then 1 else 0)
    ensures k == 1 ==> args[0].IntArg? == (f[1] == 'd')
    ensures piece == if k == 0 then f[..n] else if f[1] == 'd' then Numbers.ItoaText(args[0].v) else args[0].s
  {
    n := if f[0] == '%' && |f| > 1 then 2 else 1;
    k := if n == 2 && (f[1] == 'd' || f[1] == 's') then 1 else 0;
    piece := if k == 0 then f[..n] else if f[1] == 'd' then Numbers.ItoaText(args[0].v) else args[0].s;
    assert args[0..] == args;
  }

  /** The turn of a longer format that begins the same way. */
  lemma LongerTurn(f: string, args: seq<Arg>, n: nat, k: nat, piece: string)
    requires f != "" && n == (if f[0] == '%' && |f| > 1 then 2 else 1)
    requires k == (if n == 2 && (f[1] == 'd' || f[1] == 's') then 1 else 0)
    requires k == 1 ==> args != [] && args[0].IntArg? == (f[1] == 'd')
    requires piece == if k == 0 then f[..n] else if f[1] == 'd' then Numbers.ItoaText(args[0].v) else args[0].s
    ensures k <= |args| && Expand(f, args) == Prepend(piece, Expand(f[n..], args[k..]))
  {
    hide Numbers.ItoaText;
    assert args[0..] == args;
  }

  lemma TakesTurn(f: string, n: nat, k: nat)
    requires f != "" && Complete(f) && n == (if f[0] == '%' && |f| > 1 then 2 else 1)
    requires k == (if n == 2 && (f[1] == 'd' || f[1] == 's') then 1 else 0)
    ensures n <= |f| && Complete(f[n..]) && Takes(f) == k + Takes(f[n..]) && (|f| == 1 ==> f[0] != '%')
  {
  }

  /** The same turn at the head of a longer format. */
  lemma SameTurn(f: string, g: string, a: seq<Arg>, b: seq<Arg>) returns (n: nat, k: nat, piece: string)
    requires f != "" && Complete(f) && |a| == Takes(f) && Expand(f, a).Some?
    ensures 1 <= n <= |f| && k <= |a|
    ensures Complete(f[n..]) && |a[k..]| == Takes(f[n..])
    ensures Expand(f, a) == Prepend(piece, Expand(f[n..], a[k..]))
    ensures Expand(f + g, a + b) == Prepend(piece, Expand(f[n..] + g, a[k..] + b))
  {
    hide Numbers.ItoaText, Expand, Complete, Takes;
    n, k, piece := OneTurn(f, a);
    TakesTurn(f, n, k);
    assert (f + g)[n..] == f[n..] + g && (f + g)[..n] == f[..n];
    assert (a + b)[k..] == a[k..] + b;
    LongerTurn(f + g, a + b, n, k, piece);
  }

  lemma NoTurn(g: string, a: seq<Arg>, b: seq<Arg>)
    requires |a| == 0
    ensures Expand("" + g, a + b) == Prepend(Expand("", a).value, Expand(g, b))
  {
    assert "" + g == g && a + b == b;
    assert Expand(g, b).Some? ==> "" + Expand(g, b).value == Expand(g, b).value;
  }

  lemma TakesNothing()
    ensures Takes("") == 0
  {
  }

  /** Formats expand piece by piece: two formats in a row give the two texts in a row. */
  lemma {:induction false} ExpandConcat(f: string, g: string, a: seq<Arg>, b: seq<Arg>)
    requires Complete(f) && |a| == Takes(f) && Expand(f, a).Some?
    ensures Expand(f + g, a + b) == Prepend(Expand(f, a).value, Expand(g, b))
    decreases |f|
  {
    hide Expand, Complete, Takes;
    if f == "" {
      TakesNothing();
      NoTurn(g, a, b);
    } else {
      var n, k, piece := SameTurn(f, g, a, b);
      ExpandConcat(f[n..], g, a[k..], b);
      Regroup(piece, Expand(f[n..], a[k..]).value, Expand(g, b));
    }
  }

  lemma Regroup(s: string, t: string, rest: Option<string>)
    ensures Prepend(s, Prepend(t, rest)) == Prepend(s + t, rest)
  {
    if rest.Some? {
      assert s + (t + rest.value) == (s + t) + rest.value;
    }
  }

  /** A format without percent signs is its own text. */
  lemma {:induction false} PlainFormat(f: string)
    requires '%' !in f
    ensures Complete(f) && Takes(f) == 0 && Expand(f, []) == Some(f)
  {
    if f != "" {
      assert forall i :: 0 <= i < |f| - 1 ==> f[1..][i] == f[i + 1];
      PlainFormat(f[1..]);
      assert f[..1] + f[1..] == f;
    }
  }

  /** The other pieces of a format: a string, a percent sign before any other character, and one at the end. */
  lemma OtherPieces(s: string, c: char)
    requires c != 'd' && c != 's'
    ensures Expand("%s", [StrArg(s)]) == Some(s)
    ensures Expand(['%', c], []) == Some(['%', c])
    ensures Expand("%", []) == Some("%")
  {
    var text, other, last := "%s", ['%', c], "%";
    assert text[2..] == "" && [StrArg(s)][1..] == [] && s + "" == s;
    assert other[2..] == "" && other[..2] == ['%', c] && ['%', c] + "" == ['%', c];
    assert last[1..] == "" && last[..1] == "%" && "%" + "" == "%";
  }

  /** A number printed in the middle of a text, and what `atoi` makes of it. */
  lemma NumberInText(f: string, g: string, v: int)
    requires '%' !in f && '%' !in g && IsInt32(v)
    ensures Expand(f + "%d" + g, [IntArg(v)]) == Some(f + Numbers.ItoaText(v) + g)
    ensures v != INT_MIN ==> Numbers.AtoiExact(Numbers.ItoaText(v)) == v
  {
    hide Expand, Numbers.ItoaText, Numbers.AtoiExact;
    PlainFormat(f);
    PlainFormat(g);
    NumberFirst(g, v);
    ExpandConcat(f, "%d" + g, [], [IntArg(v)]);
    assert [] + [IntArg(v)] == [IntArg(v)];
    assert f + "%d" + g == f + ("%d" + g);
    assert f + (Numbers.ItoaText(v) + g) == f + Numbers.ItoaText(v) + g;
    Numbers.AtoiOfItoa(v);
  }

  lemma NumberFirst(g: string, v: Int32)
    ensures Expand("%d" + g, [IntArg(v)]) == Prepend(Numbers.ItoaText(v), Expand(g, []))
  {
    hide Numbers.ItoaText;
    assert ("%d" + g)[2..] == g && [IntArg(v)][1..] == [];
  }

  /** Appends `s` to the buffer through its moving pointer. */
  method Append(buffer: array<char>, at: nat, s: string) returns (end: nat)
    requires at + |s| <= buffer.Length
    modifies buffer
    ensures end == at + |s| && buffer[..end] == old(buffer[..at]) + s
  {
    end := at;
    var i := 0;
    while i < |s|
      invariant i <= |s| && end == at + i
      invariant buffer[..end] == old(buffer[..at]) + s[..i]
    {
      buffer[end] := s[i];
      end := end + 1;
      i := i + 1;
    }
    assert s[..i] == s;
  }

  /** Appends the C string in another buffer, up to its NUL. */
  method AppendFrom(buffer: array<char>, at: nat, src: array<char>, ghost text: string) returns (end: nat)
    requires buffer != src && at + |text| <= buffer.Length
    requires |text| < src.Length && src[..|text|] == text && src[|text|] == NUL && IsText(text)
    modifies buffer
    ensures end == at + |text| && buffer[..end] == old(buffer[..at]) + text
  {
    end := at;
    var p := 0;
    assert forall i :: 0 <= i < |text| ==> src[..|text|][i] == text[i];
    while src[p] != NUL
      invariant p <= |text| && end == at + p && src[|text|] == NUL
      invariant forall i :: 0 <= i < |text| ==> src[i] == text[i] && text[i] != NUL
      invariant buffer[..end] == old(buffer[..at]) + text[..p]
      decreases |text| - p
    {
      buffer[end] := src[p];
      end := end + 1;
      p := p + 1;
    }
    assert text[..p] == text;
  }

  /** The `%d` branch: the number goes through a buffer of twelve bytes. */
  method AppendInt(buffer: array<char>, at: nat, value: Int32) returns (end: nat)
    requires at + |Numbers.ItoaText(value)| <= buffer.Length
    modifies buffer
    ensures end == at + |Numbers.ItoaText(value)| && buffer[..end] == old(buffer[..at]) + Numbers.ItoaText(value)
  {
    hide Numbers.ItoaIn;
    var numBuffer := new char[12];
    Numbers.FitsInTwelve(value);
    Numbers.Itoa(value, numBuffer, 10);
    Numbers.ItoaIsText(value);
    end := AppendFrom(buffer, at, numBuffer, Numbers.ItoaText(value));
  }

  /** `printk` up to the call that shows the text. */
  method Printk(format: string, args: seq<Arg>) returns (text: string)
    requires Expand(format, args).Some? && |Expand(format, args).value| < BUFFER_SIZE
    ensures text == Expand(format, args).value
  {
    hide Numbers.ItoaText, Expand;
    var buffer := new char[BUFFER_SIZE];
    var bufPtr: nat, p: nat, a: nat := 0, 0, 0;
    ghost var total := Expand(format, args).value;
    assert format[0..] == format && args[0..] == args;
    assert buffer[..0] == "" && "" + total == total;
    while p < |format|
      invariant p <= |format| && a <= |args| && bufPtr <= buffer.Length
      invariant Prepend(buffer[..bufPtr], Expand(format[p..], args[a..])) == Some(total)
      decreases |format| - p
    {
      ghost var f, rest, done := format[p..], args[a..], buffer[..bufPtr];
      ghost var n, k, piece := OneTurn(f, rest);
      assert f[n..] == format[p + n..] && rest[k..] == args[a + k..];
      Regroup(done, piece, Expand(f[n..], rest[k..]));
      if format[p] == '%' && p + 1 < |format| {
        p := p + 1;
        assert f[1] == format[p] && f[..2] == ['%', format[p]];
        if format[p] == 'd' {
          bufPtr := AppendInt(buffer, bufPtr, args[a].v);
          a := a + 1;
        } else if format[p] == 's' {
          bufPtr := Append(buffer, bufPtr, args[a].s);
          a := a + 1;
        } else {
          bufPtr := Append(buffer, bufPtr, ['%', format[p]]);
        }
      } else {
        assert f[..1] == [format[p]];
        bufPtr := Append(buffer, bufPtr, [format[p]]);
      }
      assert buffer[..bufPtr] == done + piece;
      p := p + 1;
    }
    assert format[p..] == "";
    NothingLeft(args[a..]);
    assert buffer[..bufPtr] + "" == buffer[..bufPtr];
    buffer[bufPtr] := NUL;
    text := buffer[..bufPtr];
  }

  lemma NothingLeft(args: seq<Arg>)
    ensures Expand("", args) == Some("")
  {
  }
}
