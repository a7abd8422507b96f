/** The program editor of kernel.c: its buffer and its cursor. */
module Editor {
  import opened CInt
  import opened Terminal

  const EDITOR_BUFFER_SIZE: nat := 4096

  /** The `editor` structure with the modifier flags; `cursorX` and `cursorY` are 32-bit unsigned. */
  datatype State = State(
    buffer: seq<Byte>,
    position: nat,
    cursorX: nat,
    cursorY: nat,
    isActive: bool,
    ctrl: bool,
    shifted: bool)

  predicate WellFormed(st: State) {
    |st.buffer| == EDITOR_BUFFER_SIZE && st.position <= EDITOR_BUFFER_SIZE
  }

  const CTRL: Key := 5

  predicate IsShift(key: Key) {
    key == 6 || key == 7
  }

  /** The key adds a character to the buffer. */
  predicate Inserts(st: State, key: Key) {
    !st.ctrl && key != 0 && key != CTRL && !IsShift(key) && key != ERASE
  }

  predicate Erases(st: State, key: Key) {
    !st.ctrl && key == ERASE && st.position > 0
  }

  function Step(st: State, key: Key, l: Layout): (r: State)
    requires WellFormed(st) && ValidLayout(l) && (Inserts(st, key) ==> st.position < EDITOR_BUFFER_SIZE)
    ensures WellFormed(r)
  {
    if key == 0 then st
    else if key == CTRL then st.(ctrl := true, shifted := false)
    else if IsShift(key) then st.(shifted := true, ctrl := false)
    else if st.ctrl then
      var c := Mapped(l, key, st.shifted);
      if c == 'q' as int || c == 'r' as int then st.(isActive := false, ctrl := false, shifted := false)
      else st.(ctrl := false)
    else if key == ENTER then
      st.(buffer := st.buffer[st.position := NEWLINE], position := st.position + 1,
          cursorX := 0, cursorY := (st.cursorY + 1) % TWO_32, shifted := false)
    else if key == ERASE then
      if st.position == 0 then st.(shifted := false)
      else
        st.(buffer := st.buffer[st.position - 1 := 0], position := st.position - 1,
            cursorX := (st.cursorX - 1) % TWO_32, shifted := false)
    else
      st.(buffer := st.buffer[st.position := Mapped(l, key, st.shifted)], position := st.position + 1,
          cursorX := (st.cursorX + 1) % TWO_32, shifted := false)
  }

  // ---------- Cursor and text ----------

  function Newlines(t: seq<Byte>): nat {
    if t == [] then 0 else Newlines(t[..|t| - 1]) + if t[|t| - 1] == NEWLINE then 1 else 0
  }

  /** How far the end of the text is from the start of its last line. */
  function LineOffset(t: seq<Byte>): nat {
    if t == [] || t[|t| - 1] == NEWLINE then 0 else 1 + LineOffset(t[..|t| - 1])
  }

  function TextOf(st: State): seq<Byte>
    requires WellFormed(st)
  {
    st.buffer[..st.position]
  }

  /** The cursor is where the text ends, and nothing but NUL follows the text. */
  predicate Coupled(st: State)
    requires WellFormed(st)
  {
    && st.cursorY == Newlines(TextOf(st))
    && st.cursorX == LineOffset(TextOf(st))
    && forall i :: st.position <= i < EDITOR_BUFFER_SIZE ==> st.buffer[i] == 0
  }

  /** The key is a backspace that takes a newline away. */
  predicate RemovesNewline(st: State, key: Key)
    requires WellFormed(st)
  {
    Erases(st, key) && st.buffer[st.position - 1] == NEWLINE
  }

  lemma {:induction false} CountsAreSmall(t: seq<Byte>)
    ensures Newlines(t) <= |t| && LineOffset(t) <= |t|
  {
    if t != [] {
      CountsAreSmall(t[..|t| - 1]);
    }
  }

  /** A text that grows by one character. */
  lemma Grow(t: seq<Byte>, u: seq<Byte>)
    requires u != [] && u[..|u| - 1] == t
    ensures Newlines(u) == Newlines(t) + if u[|u| - 1] == NEWLINE then 1 else 0
    ensures LineOffset(u) == if u[|u| - 1] == NEWLINE then 0 else LineOffset(t) + 1
    ensures Newlines(u) <= |u| && LineOffset(u) <= |u|
  {
    CountsAreSmall(u);
  }

  lemma InsertStaysCoupled(st: State, key: Key, l: Layout)
    requires WellFormed(st) && ValidLayout(l) && Inserts(st, key) && st.position < EDITOR_BUFFER_SIZE
    requires Coupled(st)
    ensures Coupled(Step(st, key, l))
  {
    hide ValidLayout, Newlines, LineOffset, Mapped, Step, Inserts;
    var r, c := Step(st, key, l), Inserted(st, key, l);
    StepInserts(st, key, l);
    assert TextOf(r)[..st.position] == TextOf(st);
    Grow(TextOf(st), TextOf(r));
  }

  /** The character an inserting key adds. */
  function Inserted(st: State, key: Key, l: Layout): Byte
    requires ValidLayout(l)
  {
    if key == ENTER then NEWLINE else Mapped(l, key, st.shifted)
  }

  lemma StepInserts(st: State, key: Key, l: Layout)
    requires WellFormed(st) && ValidLayout(l) && Inserts(st, key) && st.position < EDITOR_BUFFER_SIZE
    ensures
      var r, c := Step(st, key, l), Inserted(st, key, l);
      && r.buffer == st.buffer[st.position := c] && r.position == st.position + 1
      && r.cursorX == (if c == NEWLINE then 0 else (st.cursorX + 1) % TWO_32)
      && r.cursorY == (if c == NEWLINE then (st.cursorY + 1) % TWO_32 else st.cursorY)
  {
    MappedPrints(l, key, st.shifted);
    hide ValidLayout, Mapped;
  }

  lemma EraseStaysCoupled(st: State, key: Key, l: Layout)
    requires WellFormed(st) && ValidLayout(l) && Erases(st, key)
    requires Coupled(st)
    ensures Coupled(Step(st, key, l)) <==> st.buffer[st.position - 1] != NEWLINE
  {
    hide ValidLayout, Newlines, LineOffset;
    var r := Step(st, key, l);
    assert TextOf(st)[..r.position] == TextOf(r);
    Grow(TextOf(r), TextOf(st));
  }

  /** The cursor is kept by every key except a backspace over a newline, which always loses it: the newline
      test comes after the character has been cleared. */
  lemma StepStaysCoupled(st: State, key: Key, l: Layout)
    requires WellFormed(st) && ValidLayout(l) && (Inserts(st, key) ==> st.position < EDITOR_BUFFER_SIZE)
    requires Coupled(st)
    ensures Coupled(Step(st, key, l)) <==> !RemovesNewline(st, key)
  {
    if Inserts(st, key) {
      InsertStaysCoupled(st, key, l);
    } else if Erases(st, key) {
      EraseStaysCoupled(st, key, l);
    } else {
      hide ValidLayout, Newlines, LineOffset;
      assert TextOf(Step(st, key, l)) == TextOf(st);
    }
  }

  /** What the code means to do: with the character read before it is cleared, the branch for newlines
      recomputes the column and the cursor is right again. */
  function RepairedErase(st: State): State
    requires WellFormed(st) && st.position > 0
  {
    var c := st.buffer[st.position - 1];
    var cleared := st.(buffer := st.buffer[st.position - 1 := 0], position := st.position - 1, shifted := false);
    if c == NEWLINE then
      cleared.(cursorX := LineOffset(TextOf(cleared)), cursorY := (st.cursorY - 1) % TWO_32)
    else cleared.(cursorX := (st.cursorX - 1) % TWO_32)
  }

  lemma RepairedEraseStaysCoupled(st: State)
    requires WellFormed(st) && st.position > 0 && Coupled(st)
    ensures WellFormed(RepairedErase(st)) && Coupled(RepairedErase(st))
  {
    hide Newlines, LineOffset;
    var r := RepairedErase(st);
    assert TextOf(st)[..r.position] == TextOf(r);
    Grow(TextOf(r), TextOf(st));
  }

  // ---------- Runs ----------

  const INITIAL: State := State(seq(EDITOR_BUFFER_SIZE, _ => 0), 0, 0, 0, true, false, false)

  /** The state after some keys. */
  function After(st: State, keys: seq<Key>, l: Layout): (r: State)
    requires WellFormed(st) && ValidLayout(l) && Fits(st, keys, l)
    ensures WellFormed(r)
    decreases |keys|, 1
  {
    if keys == [] then st else Step(After(st, keys[..|keys| - 1], l), keys[|keys| - 1], l)
  }

  /** The keys stay within the buffer. */
  predicate Fits(st: State, keys: seq<Key>, l: Layout)
    requires WellFormed(st) && ValidLayout(l)
    decreases |keys|, 0
  {
    keys != [] ==>
      var init := keys[..|keys| - 1];
      && Fits(st, init, l)
      && (Inserts(After(st, init, l), keys[|keys| - 1]) ==> After(st, init, l).position < EDITOR_BUFFER_SIZE)
  }

  predicate CoupledThroughout(st: State, keys: seq<Key>, l: Layout)
    requires WellFormed(st) && ValidLayout(l) && Fits(st, keys, l)
    decreases |keys|
  {
    Coupled(After(st, keys, l)) && (keys != [] ==> CoupledThroughout(st, keys[..|keys| - 1], l))
  }

  predicate NeverRemovesNewline(st: State, keys: seq<Key>, l: Layout)
    requires WellFormed(st) && ValidLayout(l) && Fits(st, keys, l)
    decreases |keys|
  {
    keys != [] ==>
      var init := keys[..|keys| - 1];
      NeverRemovesNewline(st, init, l) && !RemovesNewline(After(st, init, l), keys[|keys| - 1])
  }

  /** Over a whole run the cursor is right at every point exactly when no backspace removes a newline. */
  lemma {:induction false} RunStaysCoupled(st: State, keys: seq<Key>, l: Layout)
    requires WellFormed(st) && ValidLayout(l) && Fits(st, keys, l) && Coupled(st)
    ensures CoupledThroughout(st, keys, l) <==> NeverRemovesNewline(st, keys, l)
    decreases |keys|
  {
    hide Coupled, RemovesNewline, Step;
    if keys != [] {
      var init := keys[..|keys| - 1];
      RunStaysCoupled(st, init, l);
      if NeverRemovesNewline(st, init, l) {
        CoupledAtEnd(st, init, l);
        StepStaysCoupled(After(st, init, l), keys[|keys| - 1], l);
      }
    }
  }

  lemma CoupledAtEnd(st: State, keys: seq<Key>, l: Layout)
    requires WellFormed(st) && ValidLayout(l) && Fits(st, keys, l) && CoupledThroughout(st, keys, l)
    ensures Coupled(After(st, keys, l))
  {
  }

  // ---------- What the keys of a run mean ----------

  /** Control and shift are not pending together: so it is in the empty editor and after every key. */
  predicate OneModifier(st: State) {
    !(st.ctrl && st.shifted)
  }

  /** A control key is pending iff it was the last key at all; `before` says how it was at the start. */
  predicate Control(keys: seq<Key>, before: bool) {
    if LastKey(keys) == 0 then before else LastKey(keys) == 5
  }

  predicate Shift(keys: seq<Key>, before: bool) {
    if LastKey(keys) == 0 then before else LastKey(keys) == 6 || LastKey(keys) == 7
  }

  lemma {:induction false} RunModifiers(st: State, keys: seq<Key>, l: Layout)
    requires WellFormed(st) && ValidLayout(l) && Fits(st, keys, l) && OneModifier(st)
    ensures
      var after := After(st, keys, l);
      OneModifier(after) && after.ctrl == Control(keys, st.ctrl) && after.shifted == Shift(keys, st.shifted)
    decreases |keys|
  {
    hide ValidLayout, Mapped;
    if keys != [] {
      RunModifiers(st, keys[..|keys| - 1], l);
    }
  }

  /** Key `i` of the run is one that maps to 'q' or 'r', with a control key pending. */
  predicate Leaves(keys: seq<Key>, i: nat, before: bool, l: Layout)
    requires ValidLayout(l) && i < |keys|
  {
    && Control(keys[..i], before) && keys[i] != 0 && keys[i] != 5 && keys[i] != 6 && keys[i] != 7
    && (l.normal[keys[i]] == 'q' as int || l.normal[keys[i]] == 'r' as int)
  }

  /** A run leaves the editor at the first such key, and at no other. */
  lemma {:induction false} RunLeaves(st: State, keys: seq<Key>, l: Layout)
    requires WellFormed(st) && ValidLayout(l) && Fits(st, keys, l) && OneModifier(st)
    ensures After(st, keys, l).isActive <==>
              st.isActive && forall i :: 0 <= i < |keys| ==> !Leaves(keys, i, st.ctrl, l)
    decreases |keys|
  {
    hide ValidLayout, Leaves, After, Step;
    if keys != [] {
      var n := |keys| - 1;
      var init := keys[..n];
      RunLeaves(st, init, l);
      RunModifiers(st, init, l);
      AfterOneMore(st, keys, l);
      KeyLeaves(After(st, init, l), keys, st.ctrl, l);
      forall i | 0 <= i < n
        ensures Leaves(init, i, st.ctrl, l) <==> Leaves(keys, i, st.ctrl, l)
      {
        LeavesEarlier(keys, i, st.ctrl, l);
      }
    } else {
      AfterNone(st, l);
    }
  }

  lemma AfterNone(st: State, l: Layout)
    requires WellFormed(st) && ValidLayout(l)
    ensures Fits(st, [], l) && After(st, [], l) == st
  {
  }

  lemma AfterOneMore(st: State, keys: seq<Key>, l: Layout)
    requires WellFormed(st) && ValidLayout(l) && Fits(st, keys, l) && keys != []
    ensures
      var init := After(st, keys[..|keys| - 1], l);
      && (Inserts(init, keys[|keys| - 1]) ==> init.position < EDITOR_BUFFER_SIZE)
      && After(st, keys, l) == Step(init, keys[|keys| - 1], l)
  {
    hide Step;
  }

  lemma LeavesEarlier(keys: seq<Key>, i: nat, before: bool, l: Layout)
    requires ValidLayout(l) && i < |keys| - 1
    ensures Leaves(keys[..|keys| - 1], i, before, l) <==> Leaves(keys, i, before, l)
  {
    hide ValidLayout, Control;
    assert keys[..|keys| - 1][..i] == keys[..i];
  }

  lemma KeyLeaves(st: State, keys: seq<Key>, before: bool, l: Layout)
    requires WellFormed(st) && ValidLayout(l) && keys != []
    requires OneModifier(st) && st.ctrl == Control(keys[..|keys| - 1], before)
    requires Inserts(st, keys[|keys| - 1]) ==> st.position < EDITOR_BUFFER_SIZE
    ensures Step(st, keys[|keys| - 1], l).isActive <==> st.isActive && !Leaves(keys, |keys| - 1, before, l)
  {
    hide Control;
    assert ValidLayout(l);
  }

  /** The text as a stack of characters on top of what was there: modifiers and whatever key follows a control
      key change nothing, backspace pops one, Enter pushes a newline, and any other key pushes its character,
      from the shifted table iff a shift is pending. */
  function Stack(keys: seq<Key>, text: seq<Byte>, ctrl: bool, shifted: bool, l: Layout): seq<Byte>
    requires ValidLayout(l)
  {
    if keys == [] then text
    else
      var init, key := keys[..|keys| - 1], keys[|keys| - 1];
      var t := Stack(init, text, ctrl, shifted, l);
      if key == 0 || key == 5 || key == 6 || key == 7 || Control(init, ctrl) then t
      else if key == 2 then (if t == [] then t else t[..|t| - 1])
      else if key == 4 then t + [10]
      else t + [if Shift(init, shifted) then l.shifted[key] else l.normal[key]]
  }

  lemma {:induction false} RunTypes(st: State, keys: seq<Key>, l: Layout)
    requires WellFormed(st) && ValidLayout(l) && Fits(st, keys, l) && OneModifier(st)
    ensures TextOf(After(st, keys, l)) == Stack(keys, TextOf(st), st.ctrl, st.shifted, l)
    decreases |keys|
  {
    hide ValidLayout, After, Step, Control, Shift, TextOf, OneModifier;
    if keys != [] {
      var init, key := keys[..|keys| - 1], keys[|keys| - 1];
      RunTypes(st, init, l);
      RunModifiers(st, init, l);
      AfterOneMore(st, keys, l);
      KeyTypes(After(st, init, l), key, l);
    } else {
      AfterNone(st, l);
    }
  }

  /** One key on the text. */
  lemma KeyTypes(st: State, key: Key, l: Layout)
    requires WellFormed(st) && ValidLayout(l) && (Inserts(st, key) ==> st.position < EDITOR_BUFFER_SIZE)
    ensures |l.normal| == |l.shifted| == 128
    ensures
      var t := TextOf(st);
      TextOf(Step(st, key, l)) ==
        if key == 0 || key == 5 || key == 6 || key == 7 || st.ctrl then t
        else if key == 2 then (if t == [] then t else t[..|t| - 1])
        else if key == 4 then t + [10]
        else t + [if st.shifted then l.shifted[key] else l.normal[key]]
  {
    assert |l.normal| == |l.shifted| == 128;
    if Erases(st, key) {
      assert TextOf(Step(st, key, l)) == TextOf(st)[..st.position - 1];
    } else if Inserts(st, key) {
      StepInserts(st, key, l);
      var r := Step(st, key, l);
      assert r.buffer[..st.position + 1] == st.buffer[..st.position] + [Inserted(st, key, l)];
    }
  }

  lemma InitiallyCoupled()
    ensures WellFormed(INITIAL) && Coupled(INITIAL) && OneModifier(INITIAL) && |INITIAL.buffer| == 4096
  {
    assert TextOf(INITIAL) == [];
  }

  /** Enter and backspace: the column wraps below zero and the row stays one too far down. */
  lemma EnterThenErase(l: Layout)
    requires ValidLayout(l)
    ensures
      var st := Step(Step(INITIAL, ENTER, l), ERASE, l);
      st.cursorX == TWO_32 - 1 && st.cursorY == 1 && TextOf(st) == []
  {
  }

  // ---------- The editor in memory ----------

  class EditorState {
    const buffer: array<Byte>
    var position: nat
    var cursorX: nat
    var cursorY: nat
    var isActive: bool
    var ctrl: bool
    var shifted: bool

    ghost predicate Valid()
      reads this
    {
      buffer.Length == EDITOR_BUFFER_SIZE && position <= EDITOR_BUFFER_SIZE
    }

    ghost function Abs(): (st: State)
      requires Valid()
      reads this, buffer
      ensures WellFormed(st)
    {
      State(buffer[..], position, cursorX, cursorY, isActive, ctrl, shifted)
    }

    /** `editor_init`, and then `edit`. */
    constructor ()
      ensures Valid() && fresh(buffer) && Abs() == INITIAL
    {
      buffer := new Byte[EDITOR_BUFFER_SIZE](_ => 0);
      position, cursorX, cursorY, isActive, ctrl, shifted := 0, 0, 0, true, false, false;
    }

    /** `editor_handle_input` with the key it read, without the redraw. */
    method HandleInput(keyRead: Key, layout: Layout)
      requires Valid() && ValidLayout(layout)
      requires Inserts(Abs(), keyRead) ==> position < EDITOR_BUFFER_SIZE
      modifies this, buffer
      ensures Valid() && Abs() == Step(old(Abs()), keyRead, layout)
    {
      hide ValidLayout;
      if keyRead == 0 {
        return;
      } else if keyRead == CTRL {
        ctrl := true;
        shifted := false;
        return;
      } else if keyRead == 6 || keyRead == 7 {
        shifted := true;
        ctrl := false;
      } else if ctrl {
        var key := Mapped(layout, keyRead, shifted);
        if key == 'q' as int {
          isActive := false;
          ctrl := false;
          shifted := false;
          return;
        } else if key == 'r' as int {
          isActive := false;
          ctrl := false;
          shifted := false;
          return;
        }
        ctrl := false;
      } else if keyRead == ENTER {
        buffer[position] := NEWLINE;
        position := position + 1;
        cursorX := 0;
        cursorY := (cursorY + 1) % TWO_32;
        shifted := false;
      } else if keyRead == ERASE {
        shifted := false;
        if position > 0 {
          position := position - 1;
          buffer[position] := 0;
          if buffer[position] == NEWLINE {
            // The branch that would step back to the previous line: the character has just been cleared.
            assert false;
          } else {
            cursorX := (cursorX - 1) % TWO_32;
          }
          return;
        }
      } else {
        buffer[position] := Mapped(layout, keyRead, shifted);
        shifted := false;
        position := position + 1;
        cursorX := (cursorX + 1) % TWO_32;
      }
    }
  }
}
