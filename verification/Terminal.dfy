/** The text screen and the line input of kernel.c. */
module Terminal {
  import opened CInt

  const VGA_WIDTH: nat := 80
  const VGA_HEIGHT: nat := 25
  const CELLS: nat := 2000

  const NEWLINE: Byte := 10
  const BACKSPACE: Byte := 8
  const SPACE: Byte := 32

  /** A character cell: the character in the low byte, the colour in the high byte. */
  function Cell(c: Byte, color: Byte): nat {
    c + 256 * color
  }

  // ---------- The screen as one line of cells ----------

  /** All cells in reading order, and the cursor as a position among them. */
  datatype Screen = Screen(cells: seq<nat>, pos: nat)

  predicate WellFormedScreen(sc: Screen) {
    |sc.cells| == CELLS && sc.pos < CELLS
  }

  function RowBelow(pos: nat): nat {
    (pos / VGA_WIDTH + 1) % VGA_HEIGHT * VGA_WIDTH
  }

  function CellAfter(pos: nat): nat {
    (pos + 1) % CELLS
  }

  /** Row and column arithmetic, carried from the column into the row, is arithmetic on positions. */
  lemma RowsAndColumns(row: nat, column: nat)
    requires row < VGA_HEIGHT && column < VGA_WIDTH
    ensures RowBelow(row * VGA_WIDTH + column) == (if row + 1 == VGA_HEIGHT then 0 else row + 1) * VGA_WIDTH
    ensures
      CellAfter(row * VGA_WIDTH + column) ==
        if column + 1 < VGA_WIDTH then row * VGA_WIDTH + column + 1 else RowBelow(row * VGA_WIDTH + column)
  {
    assert (row * VGA_WIDTH + column) / VGA_WIDTH == row;
  }

  /** A newline goes to the next row, a backspace one cell back, and both edges wrap to the top. */
  function Put(sc: Screen, c: Byte, color: Byte): (r: Screen)
    requires WellFormedScreen(sc)
    ensures WellFormedScreen(r)
  {
    if c == NEWLINE then sc.(pos := RowBelow(sc.pos))
    else if c == BACKSPACE then
      var p := if sc.pos > 0 then sc.pos - 1 else 0;
      Screen(sc.cells[p := Cell(SPACE, color)], p)
    else Screen(sc.cells[sc.pos := Cell(c, color)], CellAfter(sc.pos))
  }

  function RowUnder(row: nat): nat {
    if row == 24 then 0 else row + 1
  }

  lemma PutNewline(cells: seq<nat>, row: nat, column: nat, color: Byte)
    requires |cells| == CELLS && row < 25 && column < 80
    ensures Put(Screen(cells, row * 80 + column), 10, color) == Screen(cells, RowUnder(row) * 80)
  {
    RowsAndColumns(row, column);
    hide RowBelow, CellAfter;
  }

  lemma PutBackspace(cells: seq<nat>, row: nat, column: nat, color: Byte)
    requires |cells| == CELLS && row < 25 && column < 80
    ensures
      var pos := if row * 80 + column > 0 then row * 80 + column - 1 else 0;
      Put(Screen(cells, row * 80 + column), 8, color) == Screen(cells[pos := 32 + 256 * color], pos)
  {
  }

  lemma PutPrinting(cells: seq<nat>, row: nat, column: nat, c: Byte, color: Byte)
    requires |cells| == CELLS && row < 25 && column < 80 && c != 10 && c != 8
    ensures
      var pos := row * 80 + column;
      Put(Screen(cells, pos), c, color) ==
        Screen(cells[pos := c + 256 * color], if column < 79 then pos + 1 else RowUnder(row) * 80)
  {
    RowsAndColumns(row, column);
    hide RowBelow, CellAfter;
  }

  // ---------- Writing a text ----------

  /** `terminal_write`: one character after the other. */
  function PutAll(sc: Screen, t: seq<Byte>, color: Byte): (r: Screen)
    requires WellFormedScreen(sc)
    ensures WellFormedScreen(r)
  {
    if t == [] then sc else Put(PutAll(sc, t[..|t| - 1], color), t[|t| - 1], color)
  }

  /** The length of the last line of a text that begins in column `c`. */
  function Offset(t: seq<Byte>, c: nat): nat {
    if t == [] then c else if t[|t| - 1] == 10 then 0 else Offset(t[..|t| - 1], c) + 1
  }

  /** How many rows further down it ends: one for every newline, and one for every 80 characters of a line. */
  function RowsDown(t: seq<Byte>, c: nat): nat {
    if t == [] then 0
    else RowsDown(t[..|t| - 1], c) + if t[|t| - 1] == 10 || Offset(t, c) % 80 == 0 then 1 else 0
  }

  /** Where the text ends that begins in row `r` and column `c`, as a position among all cells. */
  function Place(t: seq<Byte>, r: nat, c: nat): nat {
    (r + RowsDown(t, c)) * 80 + Offset(t, c) % 80
  }

  /** Each character stands in its cell, with its colour in the upper byte. */
  predicate Shows(cells: seq<nat>, t: seq<Byte>, r: nat, c: nat, color: Byte) {
    forall i :: 0 <= i < |t| && t[i] != 10 ==>
      Place(t[..i], r, c) < |cells| && cells[Place(t[..i], r, c)] == t[i] + 256 * color
  }

  /** Every cell that no character of the text stands in is as it was. */
  predicate Untouched(was: seq<nat>, cells: seq<nat>, t: seq<Byte>, r: nat, c: nat) {
    && |was| == |cells|
    && forall x :: 0 <= x < |cells| ==>
         (exists i :: 0 <= i < |t| && t[i] != 10 && Place(t[..i], r, c) == x) || cells[x] == was[x]
  }

  lemma NextColumn(o: nat)
    ensures if (o + 1) % 80 == 0 then o % 80 == 79 else (o + 1) % 80 == o % 80 + 1
  {
  }

  /** One character: a newline goes to the start of the next row, any other one cell further. */
  lemma PlaceStep(t: seq<Byte>, r: nat, c: nat)
    requires t != []
    ensures
      var before, after := Place(t[..|t| - 1], r, c), Place(t, r, c);
      if t[|t| - 1] == 10 then after == (before / 80 + 1) * 80 else after == before + 1
  {
    NextColumn(Offset(t[..|t| - 1], c));
    var n := r + RowsDown(t[..|t| - 1], c);
    RowOf(n, Offset(t[..|t| - 1], c) % 80);
  }

  lemma RowOf(n: nat, k: nat)
    requires k < 80
    ensures (n * 80 + k) / 80 == n
  {
  }

  lemma {:induction false} PlacesBehind(t: seq<Byte>, i: nat, r: nat, c: nat)
    requires i < |t|
    ensures Place(t[..i], r, c) < Place(t, r, c)
    decreases |t|
  {
    hide Place;
    var init := t[..|t| - 1];
    PlaceStep(t, r, c);
    Forward(Place(init, r, c));
    if i < |init| {
      PlacesBehind(init, i, r, c);
      assert init[..i] == t[..i];
    }
  }

  lemma Forward(p: nat)
    ensures (p / 80 + 1) * 80 > p
  {
  }

  /** A text without backspaces that stays on the screen: the cursor ends where the text does, each character
      stands in its cell, and all other cells are as they were. */
  lemma {:induction false} TextLaidOut(sc: Screen, t: seq<Byte>, color: Byte)
    requires WellFormedScreen(sc) && 8 !in t
    requires sc.pos / 80 + RowsDown(t, sc.pos % 80) < 25
    ensures
      var r, c, after := sc.pos / 80, sc.pos % 80, PutAll(sc, t, color);
      && after.pos == Place(t, r, c)
      && Shows(after.cells, t, r, c, color) && Untouched(sc.cells, after.cells, t, r, c)
    decreases |t|
  {
    hide Place, RowsDown, Shows, Untouched, Put;
    var r, c := sc.pos / 80, sc.pos % 80;
    if t == [] {
      NothingLaidOut(sc, color);
    } else {
      var init, last := t[..|t| - 1], t[|t| - 1];
      RowsGrow(t, c);
      TextLaidOut(sc, init, color);
      PlaceStep(t, r, c);
      PlaceOnScreen(t, r, c);
      PutOnScreen(PutAll(sc, init, color), last, color);
      if last == 10 {
        ShowsNewline(PutAll(sc, t, color).cells, t, r, c, color);
        UntouchedNewline(sc.cells, PutAll(sc, t, color).cells, t, r, c);
      } else {
        ShowsMore(PutAll(sc, init, color).cells, t, r, c, color);
        UntouchedMore(sc.cells, PutAll(sc, init, color).cells, t, r, c, color);
      }
    }
  }

  lemma NothingLaidOut(sc: Screen, color: Byte)
    requires WellFormedScreen(sc)
    ensures
      var r, c, after := sc.pos / 80, sc.pos % 80, PutAll(sc, [], color);
      && after.pos == Place([], r, c)
      && Shows(after.cells, [], r, c, color) && Untouched(sc.cells, after.cells, [], r, c)
  {
  }

  lemma RowsGrow(t: seq<Byte>, c: nat)
    requires t != []
    ensures RowsDown(t[..|t| - 1], c) <= RowsDown(t, c)
  {
  }

  lemma PlaceOnScreen(t: seq<Byte>, r: nat, c: nat)
    requires r + RowsDown(t, c) < 25
    ensures Place(t, r, c) < CELLS
  {
    hide RowsDown, Offset;
  }

  /** A newline or a printing character that leaves the cursor on the screen. */
  lemma PutOnScreen(sc: Screen, c: Byte, color: Byte)
    requires WellFormedScreen(sc) && c != 8
    ensures c == 10 && (sc.pos / 80 + 1) * 80 < CELLS ==> Put(sc, c, color) == Screen(sc.cells, (sc.pos / 80 + 1) * 80)
    ensures c != 10 && sc.pos + 1 < CELLS ==>
              Put(sc, c, color) == Screen(sc.cells[sc.pos := c + 256 * color], sc.pos + 1)
  {
  }

  lemma ShowsNewline(cells: seq<nat>, t: seq<Byte>, r: nat, c: nat, color: Byte)
    requires t != [] && t[|t| - 1] == 10 && Shows(cells, t[..|t| - 1], r, c, color)
    ensures Shows(cells, t, r, c, color)
  {
    hide Place;
    var init := t[..|t| - 1];
    forall i | 0 <= i < |t| && t[i] != 10
      ensures Place(t[..i], r, c) < |cells| && cells[Place(t[..i], r, c)] == t[i] + 256 * color
    {
      assert init[i] == t[i] && init[..i] == t[..i];
    }
  }

  lemma ShowsMore(cells: seq<nat>, t: seq<Byte>, r: nat, c: nat, color: Byte)
    requires t != [] && Shows(cells, t[..|t| - 1], r, c, color) && Place(t[..|t| - 1], r, c) < |cells|
    ensures Shows(cells[Place(t[..|t| - 1], r, c) := t[|t| - 1] + 256 * color], t, r, c, color)
  {
    hide Place;
    var init := t[..|t| - 1];
    var here := Place(init, r, c);
    var after := cells[here := t[|t| - 1] + 256 * color];
    forall i | 0 <= i < |t| && t[i] != 10
      ensures Place(t[..i], r, c) < |after| && after[Place(t[..i], r, c)] == t[i] + 256 * color
    {
      if i < |init| {
        assert init[i] == t[i] && init[..i] == t[..i];
        PlacesBehind(init, i, r, c);
      }
    }
  }

  lemma UntouchedNewline(was: seq<nat>, cells: seq<nat>, t: seq<Byte>, r: nat, c: nat)
    requires t != [] && Untouched(was, cells, t[..|t| - 1], r, c)
    ensures Untouched(was, cells, t, r, c)
  {
    hide Place;
    var init := t[..|t| - 1];
    forall x | 0 <= x < |cells| && cells[x] != was[x]
      ensures exists i :: 0 <= i < |t| && t[i] != 10 && Place(t[..i], r, c) == x
    {
      var i :| 0 <= i < |init| && init[i] != 10 && Place(init[..i], r, c) == x;
      assert t[i] == init[i] && t[..i] == init[..i];
    }
  }

  lemma UntouchedMore(was: seq<nat>, cells: seq<nat>, t: seq<Byte>, r: nat, c: nat, color: Byte)
    requires t != [] && t[|t| - 1] != 10 && Untouched(was, cells, t[..|t| - 1], r, c)
    requires Place(t[..|t| - 1], r, c) < |cells|
    ensures Untouched(was, cells[Place(t[..|t| - 1], r, c) := t[|t| - 1] + 256 * color], t, r, c)
  {
    hide Place;
    var here := Place(t[..|t| - 1], r, c);
    var after := cells[here := t[|t| - 1] + 256 * color];
    UntouchedNewline(was, cells, t, r, c);
    forall x | 0 <= x < |after| && after[x] != was[x]
      ensures exists i :: 0 <= i < |t| && t[i] != 10 && Place(t[..i], r, c) == x
    {
      if x == here {
        assert t[|t| - 1] != 10 && Place(t[..|t| - 1], r, c) == x;
      } else {
        assert cells[x] != was[x];
      }
    }
  }

  // ---------- Typing a line ----------

  /** The two tables of a keyboard layout. */
  datatype Layout = Layout(normal: seq<Byte>, shifted: seq<Byte>)

  /** Full tables that never produce a newline or a backspace. */
  predicate ValidLayout(l: Layout) {
    && |l.normal| == 128 && |l.shifted| == 128
    && (forall k :: 0 <= k < 128 ==> l.normal[k] != NEWLINE && l.normal[k] != BACKSPACE)
    && (forall k :: 0 <= k < 128 ==> l.shifted[k] != NEWLINE && l.shifted[k] != BACKSPACE)
  }

  type Key = k: int | 0 <= k < 128

  const ENTER: Key := 4
  const ERASE: Key := 2

  predicate IsPrinting(key: Key) {
    key !in {0, 1, 2, 4, 5, 6, 7}
  }

  function Mapped(l: Layout, key: Key, shift: bool): Byte
    requires ValidLayout(l)
  {
    if shift then l.shifted[key] else l.normal[key]
  }

  /** What has been typed so far, and whether shift is pending. */
  datatype Line = Line(text: seq<Byte>, shift: bool)

  /** One key: push its character, pop one, or arm a shift that lasts for one key. */
  function Type(line: Line, key: Key, l: Layout): Line
    requires ValidLayout(l)
  {
    if key == 0 then line
    else if key == 6 || key == 7 then line.(shift := true)
    else if IsPrinting(key) then Line(line.text + [Mapped(l, key, line.shift)], false)
    else if key == ERASE && line.text != [] then Line(line.text[..|line.text| - 1], false)
    else line.(shift := false)
  }

  /** What the key shows on the screen. */
  function Echo(sc: Screen, line: Line, key: Key, l: Layout, color: Byte): (r: Screen)
    requires WellFormedScreen(sc) && ValidLayout(l)
    ensures WellFormedScreen(r)
  {
    if IsPrinting(key) then Put(sc, Mapped(l, key, line.shift), color)
    else if key == ERASE && line.text != [] then Put(sc, BACKSPACE, color)
    else sc
  }

  // ---------- Runs of keys ----------

  datatype Session = Session(line: Line, sc: Screen, high: nat)

  function Max(a: nat, b: nat): nat {
    if a < b then b else a
  }

  /** The state after some keys; `high` is the longest the line has been. */
  function Typed(keys: seq<Key>, first: Screen, l: Layout, color: Byte): (s: Session)
    requires WellFormedScreen(first) && ValidLayout(l)
    ensures WellFormedScreen(s.sc) && |s.line.text| <= s.high
  {
    if keys == [] then Session(Line([], false), first, 0)
    else
      var s := Typed(keys[..|keys| - 1], first, l, color);
      var key := keys[|keys| - 1];
      var line := Type(s.line, key, l);
      Session(line, Echo(s.sc, s.line, key, l, color), Max(s.high, |line.text|))
  }

  /** The last key that was pressed at all, or 0. */
  function LastKey(keys: seq<Key>): Key {
    if keys == [] then 0 else if keys[|keys| - 1] != 0 then keys[|keys| - 1] else LastKey(keys[..|keys| - 1])
  }

  /** A key is shifted iff the key pressed before it was a shift key. */
  predicate Shifted(keys: seq<Key>) {
    LastKey(keys) == 6 || LastKey(keys) == 7
  }

  /** The line as a stack of characters: backspace pops one, control keys and Enter do nothing, and any other
      key pushes its character, from the shifted table iff it is shifted. */
  function Stack(keys: seq<Key>, l: Layout): seq<Byte>
    requires ValidLayout(l)
  {
    if keys == [] then []
    else
      var init, key := keys[..|keys| - 1], keys[|keys| - 1];
      var text := Stack(init, l);
      match key
      case 0 => text
      case 1 => text
      case 2 => if text == [] then text else text[..|text| - 1]
      case 4 => text
      case 5 => text
      case 6 => text
      case 7 => text
      case _ => text + [if Shifted(init) then l.shifted[key] else l.normal[key]]
  }

  /** Over any keys the line is that stack, and a shift is pending iff the last key was one. */
  lemma {:induction false} TypedIsStack(keys: seq<Key>, first: Screen, l: Layout, color: Byte)
    requires WellFormedScreen(first) && ValidLayout(l)
    ensures Typed(keys, first, l, color).line == Line(Stack(keys, l), Shifted(keys))
    decreases |keys|
  {
    hide Echo, ValidLayout;
    if keys != [] {
      TypedIsStack(keys[..|keys| - 1], first, l, color);
    }
  }

  /** Buffer and screen tell the same story: the cells from the first cursor on show exactly the text,
      erased cells are blank, all others are as they were, and the cursor stands after the text. */
  predicate Coupled(s: Session, first: Screen, color: Byte) {
    && |s.sc.cells| == |first.cells| == CELLS
    && |s.line.text| <= s.high
    && s.sc.pos == first.pos + |s.line.text|
    && (forall i :: 0 <= i < CELLS ==>
          s.sc.cells[i] ==
            if i < first.pos || i >= first.pos + s.high then first.cells[i]
            else if i < first.pos + |s.line.text| then Cell(s.line.text[i - first.pos], color)
            else Cell(SPACE, color))
  }

  lemma {:induction false} TypingIsCoupled(keys: seq<Key>, first: Screen, l: Layout, color: Byte)
    requires WellFormedScreen(first) && ValidLayout(l)
    requires first.pos + Typed(keys, first, l, color).high < CELLS
    ensures Coupled(Typed(keys, first, l, color), first, color)
    decreases |keys|
  {
    if keys != [] {
      TypingIsCoupled(keys[..|keys| - 1], first, l, color);
      KeyStaysCoupled(Typed(keys[..|keys| - 1], first, l, color), keys[|keys| - 1], first, l, color);
    }
  }

  lemma KeyStaysCoupled(s: Session, key: Key, first: Screen, l: Layout, color: Byte)
    requires WellFormedScreen(first) && WellFormedScreen(s.sc) && ValidLayout(l)
    requires Coupled(s, first, color) && first.pos + s.high < CELLS
    ensures
      var line := Type(s.line, key, l);
      var next := Session(line, Echo(s.sc, s.line, key, l, color), Max(s.high, |line.text|));
      Coupled(next, first, color) <==> first.pos + |line.text| < CELLS
  {
    hide ValidLayout;
    if IsPrinting(key) {
      var c := Mapped(l, key, s.line.shift);
      assert c != NEWLINE && c != BACKSPACE by { MappedPrints(l, key, s.line.shift); }
    }
  }

  /** Erasing takes back the last printing key: the text is as before, and away from the screen end so is
      the cursor, with a blank where the character had been. */
  lemma EraseUndoes(line: Line, sc: Screen, key: Key, l: Layout, color: Byte)
    requires WellFormedScreen(sc) && ValidLayout(l) && IsPrinting(key)
    ensures
      var typed, shown := Type(line, key, l), Echo(sc, line, key, l, color);
      && Type(typed, ERASE, l) == Line(line.text, false)
      && (Echo(shown, typed, ERASE, l, color) == Screen(sc.cells[sc.pos := Cell(SPACE, color)], sc.pos)
          <==> sc.pos + 1 < CELLS)
  {
    MappedPrints(l, key, line.shift);
    assert (line.text + [Mapped(l, key, line.shift)])[..|line.text|] == line.text;
  }

  lemma MappedPrints(l: Layout, key: Key, shift: bool)
    requires ValidLayout(l)
    ensures Mapped(l, key, shift) != NEWLINE && Mapped(l, key, shift) != BACKSPACE
  {
  }

  /** A key's effect, in the order of the tests that `terminal_input` makes. */
  lemma KeyMeans(line: Line, sc: Screen, key: Key, l: Layout, color: Byte)
    requires WellFormedScreen(sc) && ValidLayout(l)
    ensures |l.normal| == |l.shifted| == 128
    ensures
      var c := if line.shift then l.shifted[key] else l.normal[key];
      var next, shown := Type(line, key, l), Echo(sc, line, key, l, color);
      if key == 0 then next == line && shown == sc
      else if key == ENTER || key == 1 || key == 5 || (key == ERASE && line.text == []) then
        next == Line(line.text, false) && shown == sc
      else if key == ERASE then next == Line(line.text[..|line.text| - 1], false) && shown == Put(sc, BACKSPACE, color)
      else if key == 6 || key == 7 then next == Line(line.text, true) && shown == sc
      else next == Line(line.text + [c], false) && shown == Put(sc, c, color)
  {
    hide Put;
  }

  // ---------- The terminal and the line being typed ----------

  class VgaTerminal {
    var row: nat
    var column: nat
    var color: Byte
    const buffer: array<nat>

    ghost predicate Valid()
      reads this
    {
      buffer.Length == CELLS && row < VGA_HEIGHT && column < VGA_WIDTH
    }

    ghost function Contents(): (sc: Screen)
      requires Valid()
      reads this, buffer
      ensures WellFormedScreen(sc)
    {
      Screen(buffer[..], row * VGA_WIDTH + column)
    }

    /** `terminal_initialize`: a blank screen, grey on black, with the cursor at the top. */
    constructor ()
      ensures Valid() && fresh(buffer)
      ensures color == 7 && Contents() == Screen(seq(CELLS, _ => Cell(SPACE, 7)), 0)
    {
      row, column, color := 0, 0, 7;
      buffer := new nat[CELLS];
      new;
      var y := 0;
      while y < VGA_HEIGHT
        invariant y <= VGA_HEIGHT && row == column == 0 && color == 7 && buffer.Length == CELLS
        invariant forall i :: 0 <= i < y * VGA_WIDTH ==> buffer[i] == Cell(SPACE, 7)
      {
        var x := 0;
        while x < VGA_WIDTH
          invariant x <= VGA_WIDTH && row == column == 0 && color == 7
          invariant forall i :: 0 <= i < y * VGA_WIDTH + x ==> buffer[i] == Cell(SPACE, 7)
        {
          buffer[y * VGA_WIDTH + x] := Cell(SPACE, color);
          x := x + 1;
        }
        y := y + 1;
      }
    }

    method PutEntryAt(c: Byte, entryColor: Byte, x: nat, y: nat)
      requires Valid() && x < VGA_WIDTH && y < VGA_HEIGHT
      modifies buffer
      ensures buffer[..] == old(buffer[..])[y * VGA_WIDTH + x := Cell(c, entryColor)]
    {
      var index := y * VGA_WIDTH + x;
      buffer[index] := Cell(c, entryColor);
    }

    /** `terminal_putchar`: rows and columns together move like one position among all cells. */
    method PutChar(c: Byte)
      requires Valid()
      modifies this`row, this`column, buffer
      ensures Valid() && Contents() == Put(old(Contents()), c, color)
      ensures c == 10 ==> column == 0 && row == (if old(row) == 24 then 0 else old(row) + 1)
      ensures c == 8 && old(column) > 0 ==> row == old(row) && column == old(column) - 1
      ensures
        c == 8 && old(column) == 0 ==>
          if old(row) > 0 then row == old(row) - 1 && column == 79 else row == column == 0
      ensures c != 10 && c != 8 && old(column) < 79 ==> row == old(row) && column == old(column) + 1
      ensures
        c != 10 && c != 8 && old(column) == 79 ==>
          column == 0 && row == (if old(row) == 24 then 0 else old(row) + 1)
      ensures
        buffer[..] ==
          if c == 10 then old(buffer[..])
          else if c == 8 then old(buffer[..])[row * 80 + column := 32 + 256 * color]
          else old(buffer[..])[old(row * 80 + column) := c + 256 * color]
    {
      hide Put;
      ghost var cells, row0, column0 := buffer[..], row, column;
      if c == NEWLINE {
        PutNewline(cells, row0, column0, color);
        column := 0;
        row := row + 1;
        if row == VGA_HEIGHT {
          row := 0;
        }
      } else if c == BACKSPACE {
        PutBackspace(cells, row0, column0, color);
        if column > 0 {
          column := column - 1;
        } else if row > 0 {
          row := row - 1;
          column := VGA_WIDTH - 1;
        }
        PutEntryAt(SPACE, color, column, row);
      } else {
        PutPrinting(cells, row0, column0, c, color);
        PutEntryAt(c, color, column, row);
        column := column + 1;
        if column == VGA_WIDTH {
          column := 0;
          row := row + 1;
          if row == VGA_HEIGHT {
            row := 0;
          }
        }
      }
    }

    /** `terminal_write`, and `terminal_writestring` on a string of that length. */
    method Write(data: seq<Byte>)
      requires Valid()
      modifies this`row, this`column, buffer
      ensures Valid() && Contents() == PutAll(old(Contents()), data, color)
    {
      hide Put;
      var i := 0;
      while i < |data|
        invariant i <= |data| && Valid()
        invariant Contents() == PutAll(old(Contents()), data[..i], color)
      {
        assert data[..i + 1][..i] == data[..i];
        PutChar(data[i]);
        i := i + 1;
      }
      assert data[..i] == data;
    }
  }

  class LineInput {
    const inputBuffer: array<Byte>
    var index: nat
    var shift: bool

    constructor (capacity: nat)
      ensures fresh(inputBuffer) && inputBuffer.Length == capacity && index == 0 && !shift
    {
      inputBuffer := new Byte[capacity];
      index, shift := 0, false;
    }

    ghost function Contents(): Line
      requires index <= inputBuffer.Length
      reads this, inputBuffer
    {
      Line(inputBuffer[..index], shift)
    }

    /** `terminal_input` with the key it read: the line and the screen each take their step; Enter adds the NUL. */
    method Input(key: Key, layout: Layout, screen: VgaTerminal) returns (done: bool)
      requires ValidLayout(layout) && screen.Valid()
      requires index <= inputBuffer.Length
      requires IsPrinting(key) || key == ENTER ==> index < inputBuffer.Length
      modifies this, inputBuffer, screen`row, screen`column, screen.buffer
      ensures screen.Valid() && index <= inputBuffer.Length
      ensures Contents() == Type(old(Contents()), key, layout)
      ensures screen.Contents() == Echo(old(screen.Contents()), old(Contents()), key, layout, screen.color)
      ensures done <==> key == ENTER
      ensures done ==> index < inputBuffer.Length && inputBuffer[index] == 0
    {
      hide Put, Type, Echo, Mapped, ValidLayout;
      KeyMeans(Contents(), screen.Contents(), key, layout, screen.color);
      if key != 0 {
        if key == ENTER {
          inputBuffer[index] := 0;
          shift := false;
          return true;
        } else if key == ERASE {
          shift := false;
          if index > 0 {
            index := index - 1;
            screen.PutChar(BACKSPACE);
          }
        } else if key == 1 {
          shift := false;
        } else if key == 5 {
          shift := false;
        } else if key == 6 || key == 7 {
          shift := true;
        } else {
          var inputChar := if shift then layout.shifted[key] else layout.normal[key];
          inputBuffer[index] := inputChar;
          index := index + 1;
          screen.PutChar(inputChar);
          shift := false;
        }
      }
      return false;
    }
  }
}
