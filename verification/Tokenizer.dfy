/** The stateful tokenizer of system.c and the command splitter of kernel.c. */
module Tokenizer {
  import opened Text
  import opened Wrappers

  // ---------- Specification: maximal runs without delimiters ----------

  datatype Run = Run(start: nat, end: nat)

  predicate IsDelim(c: char, delims: string) {
    c in delims
  }

  /** The first position from `i` on that is a delimiter (`stop`) or is none (`!stop`). */
  function Scan(s: string, i: nat, delims: string, stop: bool): (j: nat)
    requires i <= |s|
    ensures i <= j <= |s|
    ensures j < |s| ==> IsDelim(s[j], delims) == stop
    decreases |s| - i
  {
    if i == |s| || IsDelim(s[i], delims) == stop then i else Scan(s, i + 1, delims, stop)
  }

  lemma {:induction false} ScanPasses(s: string, i: nat, delims: string, stop: bool)
    requires i <= |s|
    ensures forall x :: i <= x < Scan(s, i, delims, stop) ==> IsDelim(s[x], delims) != stop
    decreases |s| - i
  {
    if i < |s| && IsDelim(s[i], delims) != stop {
      ScanPasses(s, i + 1, delims, stop);
    }
  }

  /** The runs that repeated calls find from position `i` on. */
  function Runs(s: string, i: nat, delims: string): seq<Run>
    requires i <= |s|
    decreases |s| - i
  {
    var a := Scan(s, i, delims, false);
    if a == |s| then []
    else
      var b := Scan(s, a, delims, true);
      assert a < b;
      [Run(a, b)] + if b < |s| then Runs(s, b + 1, delims) else []
  }

  /** A nonempty stretch without delimiters that cannot be extended on either side. */
  predicate IsMaximal(s: string, delims: string, r: Run) {
    && r.start < r.end <= |s|
    && (forall x :: r.start <= x < r.end ==> !IsDelim(s[x], delims))
    && (r.start > 0 ==> IsDelim(s[r.start - 1], delims))
    && (r.end < |s| ==> IsDelim(s[r.end], delims))
  }

  predicate InOrder(runs: seq<Run>, from: nat) {
    && (forall k :: 0 <= k < |runs| ==> from <= runs[k].start <= runs[k].end)
    && (forall j, k :: 0 <= j < k < |runs| ==> runs[j].end < runs[k].start)
  }

  lemma ScanMoves(s: string, i: nat, delims: string)
    requires i < |s| && !IsDelim(s[i], delims)
    ensures Scan(s, i, delims, true) > i
  {
  }

  lemma RunsUnfold(s: string, i: nat, delims: string)
    requires i <= |s|
    ensures
      var a := Scan(s, i, delims, false);
      var b := Scan(s, a, delims, true);
      Runs(s, i, delims) ==
        if a == |s| then [] else [Run(a, b)] + if b < |s| then Runs(s, b + 1, delims) else []
  {
    hide Scan, IsDelim;
  }

  /** The first run from `i` on, with everything there is to know about it. */
  lemma FirstRun(s: string, i: nat, delims: string) returns (a: nat, b: nat)
    requires i <= |s|
    ensures i <= a <= b <= |s|
    ensures forall x :: i <= x < a ==> IsDelim(s[x], delims)
    ensures forall x :: a <= x < b ==> !IsDelim(s[x], delims)
    ensures b < |s| ==> IsDelim(s[b], delims)
    ensures a == b ==> a == |s| && Runs(s, i, delims) == []
    ensures a < b ==> Runs(s, i, delims) == [Run(a, b)] + if b < |s| then Runs(s, b + 1, delims) else []
  {
    hide Runs, Scan, IsDelim;
    a := Scan(s, i, delims, false);
    ScanPasses(s, i, delims, false);
    b := Scan(s, a, delims, true);
    ScanPasses(s, a, delims, true);
    if a < |s| {
      ScanMoves(s, a, delims);
    }
    RunsUnfold(s, i, delims);
  }

  lemma FirstIsMaximal(s: string, i: nat, delims: string)
    requires i <= |s| && (i > 0 ==> IsDelim(s[i - 1], delims))
    requires Runs(s, i, delims) != []
    ensures
      var r := Runs(s, i, delims)[0];
      && i <= r.start && IsMaximal(s, delims, r)
      && Runs(s, i, delims)[1..] == if r.end < |s| then Runs(s, r.end + 1, delims) else []
  {
    hide Runs, Scan, IsDelim;
    var a, b := FirstRun(s, i, delims);
  }

  /** Every run found is maximal, and they come in order. */
  lemma {:induction false} RunsAreMaximal(s: string, i: nat, delims: string)
    requires i <= |s| && (i > 0 ==> IsDelim(s[i - 1], delims))
    ensures forall r :: r in Runs(s, i, delims) ==> IsMaximal(s, delims, r)
    ensures InOrder(Runs(s, i, delims), i)
    decreases |s| - i
  {
    hide Runs, IsDelim;
    var runs := Runs(s, i, delims);
    if runs != [] {
      FirstIsMaximal(s, i, delims);
      var r := runs[0];
      assert runs == [r] + runs[1..];
      if r.end < |s| {
        RunsAreMaximal(s, r.end + 1, delims);
      }
    }
  }

  /** No maximal run is missed. */
  lemma {:induction false} EveryRunIsFound(s: string, i: nat, delims: string, r: Run)
    requires i <= |s| && (i > 0 ==> IsDelim(s[i - 1], delims))
    requires IsMaximal(s, delims, r) && i <= r.start
    ensures r in Runs(s, i, delims)
    decreases |s| - i
  {
    hide Runs, IsDelim;
    var runs := Runs(s, i, delims);
    RunBefore(s, i, delims, r.start);
    FirstIsMaximal(s, i, delims);
    assert runs == [runs[0]] + runs[1..];
    if runs[0].end < r.start {
      EveryRunIsFound(s, runs[0].end + 1, delims, r);
    } else {
      EqualRuns(s, delims, r, runs[0]);
    }
  }

  lemma RunBefore(s: string, i: nat, delims: string, x: nat)
    requires i <= x < |s| && !IsDelim(s[x], delims)
    ensures Runs(s, i, delims) != [] && Runs(s, i, delims)[0].start <= x
  {
    hide Runs, Scan, IsDelim;
    var a, b := FirstRun(s, i, delims);
  }

  /** Overlapping maximal runs are the same run. */
  lemma EqualRuns(s: string, delims: string, r: Run, q: Run)
    requires IsMaximal(s, delims, r) && IsMaximal(s, delims, q)
    requires q.start <= r.start <= q.end
    ensures r == q
  {
    hide IsDelim;
    assert !IsDelim(s[r.start], delims);
  }

  /** At most every second character starts a run. */
  lemma {:induction false} RunsBound(s: string, i: nat, delims: string)
    requires i <= |s|
    ensures |Runs(s, i, delims)| <= (|s| - i + 1) / 2
    decreases |s| - i
  {
    hide Runs, Scan, IsDelim;
    var a, b := FirstRun(s, i, delims);
    if a < b < |s| {
      RunsBound(s, b + 1, delims);
    }
  }

  /** The bound is reached: "x x x ... x" with n letters has n runs. */
  function Alternating(n: nat): string {
    if n == 0 then "" else if n == 1 then "x" else "x " + Alternating(n - 1)
  }

  lemma OneLetterRun(s: string, a: nat)
    requires a < |s| && s[a] == 'x' && (a + 1 < |s| ==> s[a + 1] == ' ')
    ensures Runs(s, a, " ") == [Run(a, a + 1)] + if a + 1 < |s| then Runs(s, a + 2, " ") else []
  {
    assert Scan(s, a, " ", false) == a;
    assert Scan(s, a, " ", true) == Scan(s, a + 1, " ", true);
    assert Scan(s, a + 1, " ", true) == a + 1;
    hide Scan;
  }

  lemma {:induction false} BoundIsReached(n: nat, pre: string)
    requires n > 0
    ensures |Alternating(n)| == 2 * n - 1
    ensures |Runs(pre + Alternating(n), |pre|, " ")| == n
    decreases n
  {
    hide Runs;
    OneLetterRun(pre + Alternating(n), |pre|);
    if n > 1 {
      BoundIsReached(n - 1, pre + "x ");
      assert pre + Alternating(n) == (pre + "x ") + Alternating(n - 1);
    }
  }

  predicate AgreeFrom(s: string, t: string, i: nat) {
    |s| == |t| && i <= |s| && forall x :: i <= x < |s| ==> s[x] == t[x]
  }

  lemma AgreeLater(s: string, t: string, i: nat, j: nat)
    requires AgreeFrom(s, t, i) && i <= j <= |s|
    ensures AgreeFrom(s, t, j)
  {
  }

  /** What was cut off before position `i` does not matter for the runs from there on. */
  lemma {:induction false} RunsLocal(s: string, t: string, i: nat, delims: string)
    requires |s| == |t| && i <= |s| && AgreeFrom(s, t, i)
    ensures Runs(s, i, delims) == Runs(t, i, delims)
    decreases |s| - i
  {
    hide Runs, Scan, IsDelim;
    var a, b := FirstRun(s, i, delims);
    var c, d := FirstRun(t, i, delims);
    assert a == c by {
      assert a < |s| ==> s[a] == t[a];
      assert c < |s| ==> s[c] == t[c];
    }
    assert b == d by {
      assert b < |s| ==> s[b] == t[b];
      assert d < |s| ==> s[d] == t[d];
    }
    if a < b < |s| {
      AgreeLater(s, t, i, b + 1);
      RunsLocal(s, t, b + 1, delims);
    }
  }

  /** Outside the ends of runs, cutting changes nothing. */
  lemma CutNothing(s: string, i: nat, delims: string, a: nat, b: nat)
    requires i <= a <= b <= |s| && (i > 0 ==> IsDelim(s[i - 1], delims))
    requires forall x :: i <= x < a ==> IsDelim(s[x], delims)
    requires forall x :: a <= x < b ==> !IsDelim(s[x], delims)
    ensures forall x :: i <= x < b ==> CutAt(s, delims, x) == s[x]
    ensures a < b < |s| && IsDelim(s[b], delims) ==> CutAt(s, delims, b) == NUL
  {
    hide IsDelim;
  }

  /** The text `t` has been cut before position `done`, and from there on it is still `s`. */
  predicate CutTo(t: string, s: string, delims: string, done: nat) {
    && |t| == |s| && done <= |s|
    && (forall x :: 0 <= x < done ==> t[x] == CutAt(s, delims, x))
    && (forall x :: done <= x < |s| ==> t[x] == s[x])
  }

  lemma NotCut(s: string, delims: string)
    ensures CutTo(s, s, delims, 0)
  {
  }

  /** Cutting on through one more run, whose end `b` is overwritten unless the text ends there. */
  lemma CutOn(t: string, s: string, delims: string, i: nat, a: nat, b: nat)
    requires CutTo(t, s, delims, i) && (i > 0 ==> IsDelim(s[i - 1], delims)) && i <= a <= b <= |s|
    requires forall x :: i <= x < a ==> IsDelim(s[x], delims)
    requires forall x :: a <= x < b ==> !IsDelim(s[x], delims)
    requires b < |s| ==> a < b && IsDelim(s[b], delims)
    ensures b == |s| ==> CutTo(t, s, delims, |s|)
    ensures b < |s| ==> CutTo(t[b := NUL], s, delims, b + 1)
  {
    CutNothing(s, i, delims, a, b);
    hide CutAt, IsDelim;
  }

  /** One call's worth of cutting: the next run is that of the uncut text, and only its end changes. */
  lemma CutStep(t: string, s: string, delims: string, i: nat)
    requires CutTo(t, s, delims, i) && (i > 0 ==> IsDelim(s[i - 1], delims))
    ensures Runs(t, i, delims) == Runs(s, i, delims)
    ensures
      var runs := Runs(s, i, delims);
      if runs == [] then CutTo(t, s, delims, |s|)
      else
        var end := runs[0].end;
        if end < |s| then
          && CutTo(t[end := NUL], s, delims, end + 1)
          && IsDelim(s[end], delims) && runs[1..] == Runs(s, end + 1, delims)
        else end == |s| && |runs| == 1 && CutTo(t, s, delims, |s|)
  {
    hide Runs, Scan, IsDelim, CutAt;
    var a, b := FirstRun(s, i, delims);
    RunsLocal(t, s, i, delims);
    CutOn(t, s, delims, i, a, b);
  }

  /** What cutting a text into its runs leaves at position `x`: NUL at the first delimiter after each run. */
  function CutAt(s: string, delims: string, x: nat): char
    requires x < |s|
  {
    if x > 0 && IsDelim(s[x], delims) && !IsDelim(s[x - 1], delims) then NUL else s[x]
  }

  /** In the cut text each run stands as it was, closed off by a NUL unless the text itself ends there. */
  lemma CutRun(s: string, delims: string, r: Run)
    requires IsMaximal(s, delims, r)
    ensures forall x :: r.start <= x < r.end ==> CutAt(s, delims, x) == s[x]
    ensures r.end < |s| ==> CutAt(s, delims, r.end) == NUL
  {
    hide IsDelim;
    assert !IsDelim(s[r.end - 1], delims);
  }

  lemma UncutTail(t: string, s: string, delims: string, i: nat)
    requires CutTo(t, s, delims, i) && IsText(s)
    ensures forall x :: i <= x < |t| ==> t[x] != NUL
  {
    hide CutAt;
  }

  /** Overwriting in the buffer, seen from the text in it. */
  lemma CutBuffer(buf: seq<char>, n: nat, end: nat)
    requires end <= n < |buf| && buf[n] == NUL
    ensures buf[end := NUL][..n] == if end < n then buf[..n][end := NUL] else buf[..n]
    ensures forall x :: n <= x < |buf| ==> buf[end := NUL][x] == buf[x]
  {
  }

  lemma AllCut(t: string, s: string, delims: string)
    requires CutTo(t, s, delims, |s|)
    ensures |t| == |s| && forall x :: 0 <= x < |s| ==> t[x] == CutAt(s, delims, x)
  {
    hide CutAt;
  }

  // ---------- The tokenizer ----------

  /** The buffer holds a C string from `p` to the terminator at `n`. */
  ghost predicate StringAt(buf: array<char>, p: nat, n: nat)
    reads buf
  {
    p <= n < buf.Length && buf[n] == NUL && forall x :: p <= x < n ==> buf[x] != NUL
  }

  method Strspn(buf: array<char>, str: nat, accept: string, ghost n: nat) returns (count: nat)
    requires StringAt(buf, str, n) && IsText(accept)
    ensures str + count == Scan(buf[..n], str, accept, false)
  {
    var p := str;
    count := 0;
    while buf[p] != NUL
      invariant str <= p <= n && count == p - str
      invariant Scan(buf[..n], p, accept, false) == Scan(buf[..n], str, accept, false)
      decreases n - p
    {
      var a := 0;
      while a < |accept|
        invariant a <= |accept|
        invariant forall x :: 0 <= x < a ==> accept[x] != buf[p]
      {
        if buf[p] == accept[a] {
          break;
        }
        a := a + 1;
      }
      if a == |accept| {
        return;
      }
      assert accept[a] in accept;
      p := p + 1;
      count := count + 1;
    }
  }

  method Strpbrk(buf: array<char>, str: nat, delims: string, ghost n: nat) returns (found: Option<nat>)
    requires StringAt(buf, str, n) && IsText(delims)
    ensures
      var b := Scan(buf[..n], str, delims, true);
      found == if b < n then Some(b) else None
  {
    var p := str;
    while buf[p] != NUL
      invariant str <= p <= n
      invariant Scan(buf[..n], p, delims, true) == Scan(buf[..n], str, delims, true)
      decreases n - p
    {
      var d := 0;
      while d < |delims|
        invariant d <= |delims|
        invariant forall x :: 0 <= x < d ==> delims[x] != buf[p]
      {
        if buf[p] == delims[d] {
          assert IsDelim(delims[d], delims);
          return Some(p);
        }
        d := d + 1;
      }
      p := p + 1;
    }
    return None;
  }

  class Tokens {
    var savedToken: Option<nat>

    /** `strtok`: the next run, cut off in place; `str` is a new text or None for the one in progress. */
    method Strtok(buf: array<char>, str: Option<nat>, delims: string, ghost n: nat) returns (token: Option<nat>)
      requires IsText(delims)
      requires str.Some? ==> StringAt(buf, str.value, n)
      requires str.None? && savedToken.Some? ==> StringAt(buf, savedToken.value, n)
      modifies this, buf
      ensures
        var from := if str.Some? then str else old(savedToken);
        if from.None? then token.None? && savedToken.None? && buf[..] == old(buf[..])
        else
          var runs := Runs(old(buf[..n]), from.value, delims);
          if runs == [] then token.None? && savedToken.None? && buf[..] == old(buf[..])
          else
            && token == Some(runs[0].start)
            && savedToken == (if runs[0].end < n then Some(runs[0].end + 1) else None)
            && buf[..] == old(buf[..])[runs[0].end := NUL]
    {
      hide Scan, Runs, IsDelim;
      var at: nat;
      if str.None? {
        if savedToken.None? {
          return None;
        }
        at := savedToken.value;
      } else {
        at := str.value;
      }
      RunsUnfold(buf[..n], at, delims);
      var skip := Strspn(buf, at, delims, n);
      at := at + skip;
      if buf[at] == NUL {
        savedToken := None;
        return None;
      }
      token := Some(at);
      var end := Strpbrk(buf, at, delims, n);
      if end.None? {
        savedToken := None;
      } else {
        buf[end.value] := NUL;
        savedToken := Some(end.value + 1);
      }
    }

    /** `split_command`: every token's position, with the command cut into C strings in place. */
    method SplitCommand(command: array<char>, args: array<nat>, ghost n: nat) returns (argCount: nat)
      requires StringAt(command, 0, n) && |Runs(command[..n], 0, " ")| <= args.Length
      modifies this, command, args
      ensures
        var s := old(command[..n]);
        var runs := Runs(s, 0, " ");
        && argCount == |runs| && savedToken.None?
        && (forall k :: 0 <= k < argCount ==> args[k] == runs[k].start)
        && (forall x :: 0 <= x < n ==> command[x] == CutAt(s, " ", x))
        && (forall x :: n <= x < command.Length ==> command[x] == old(command[x]))
      ensures forall k :: argCount <= k < args.Length ==> args[k] == old(args[k])
    {
      hide Scan, Runs, IsDelim, CutAt, CutTo;
      ghost var s := command[..n];
      ghost var runs := Runs(s, 0, " ");
      NotCut(s, " ");
      CutStep(s, s, " ", 0);
      argCount := 0;
      var token := Strtok(command, Some(0), " ", n);
      ghost var done: nat := if savedToken.Some? then savedToken.value else n;  // up to here all is cut
      while token.Some?
        invariant done <= n < command.Length && |s| == n && IsText(s)
        invariant CutTo(command[..n], s, " ", done)
        invariant command[n] == NUL && forall x :: n <= x < command.Length ==> command[x] == old(command[x])
        invariant argCount <= |runs| && forall k :: 0 <= k < argCount ==> args[k] == runs[k].start
        invariant forall k :: argCount <= k < args.Length ==> args[k] == old(args[k])
        invariant token.Some? ==> argCount < |runs| && token.value == runs[argCount].start
        invariant token.None? ==> argCount == |runs| && savedToken.None?
        invariant savedToken.None? ==> done == n && (token.Some? ==> argCount + 1 == |runs|)
        invariant savedToken.Some? ==> token.Some? && savedToken.value == done && 0 < done && IsDelim(s[done - 1], " ")
        invariant savedToken.Some? ==> Runs(s, done, " ") == runs[argCount + 1..]
        decreases |runs| - argCount
      {
        args[argCount] := token.value;
        argCount := argCount + 1;
        assert command[..n] == command[..][..n];
        if savedToken.Some? {
          CutStep(command[..n], s, " ", done);
          UncutTail(command[..n], s, " ", done);
          assert forall x :: done <= x < n ==> command[x] == command[..n][x];
        }
        ghost var before := command[..];
        ghost var rest := if savedToken.Some? then Runs(before[..n], done, " ") else [];
        token := Strtok(command, None, " ", n);
        if rest != [] {
          CutBuffer(before, n, rest[0].end);
        }
        done := if savedToken.Some? then savedToken.value else n;
      }
      AllCut(command[..n], s, " ");
    }
  }
}
