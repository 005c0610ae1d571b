/** The text console of kernel/console.c: the 80 by 25 screen is the end of one long tape of cells, on which the
    cursor only ever moves by the rules of a typewriter. */
module Console {
  import opened Strtol
  import opened Numerals

  const WIDTH: nat := 80
  const HEIGHT: nat := 25
  const CELLS: nat := 2000

  // ----- The tape -----

  // All rows ever written, one after the other; the screen shows the last 25. pos is the cursor.
  datatype Tape = Tape(cells: seq<nat>, pos: nat, color: nat)

  // vga_entry: character in the low byte, colour in the high one.
  function Entry(c: nat, color: nat): nat { c + 256 * color }

  lemma EntryIs(c: nat, color: nat)
    requires c < 256
    ensures Entry(c, color) % 256 == c && Entry(c, color) / 256 == color
  {
  }

  function Blank(n: nat, color: nat): (r: seq<nat>)
    ensures |r| == n && forall i :: 0 <= i < n ==> r[i] == Entry(32, color)
  {
    seq(n, _ => Entry(32, color))
  }

  // The cursor is on the screen and the screen is the whole or the end of the tape.
  ghost predicate Good(t: Tape) {
    |t.cells| >= CELLS && |t.cells| % WIDTH == 0 && |t.cells| - CELLS <= t.pos < |t.cells|
  }

  function Screen(t: Tape): seq<nat>
    requires |t.cells| >= CELLS
  {
    t.cells[|t.cells| - CELLS..]
  }

  // A byte as the signed char that console_putc takes; only non-negative ones from the blank on are printed.
  predicate Printed(c: nat) { 32 <= c < 128 }

  // Where the cursor goes: start of the next row, start of this row, next tab stop, next cell.
  function Moved(pos: nat, c: nat): nat {
    if c == 10 then (pos / WIDTH + 1) * WIDTH
    else if c == 13 then pos / WIDTH * WIDTH
    else if c == 9 then (pos / 8 + 1) * 8
    else if Printed(c) then pos + 1
    else pos
  }

  // Past the last row the tape grows by a blank one.
  function Grown(t: Tape): Tape {
    if t.pos >= |t.cells| then t.(cells := t.cells + Blank(WIDTH, t.color)) else t
  }

  function Written(t: Tape, c: nat): seq<nat>
    requires t.pos < |t.cells|
  {
    if c != 10 && c != 13 && c != 9 && Printed(c) then t.cells[t.pos := Entry(c, t.color)] else t.cells
  }

  function Put(t: Tape, c: nat): Tape
    requires t.pos < |t.cells|
  {
    Grown(Tape(Written(t, c), Moved(t.pos, c), t.color))
  }

  // The row and column of a cell.
  lemma Place(pos: nat, row: nat, x: nat)
    requires pos == row * WIDTH + x && x < WIDTH
    ensures pos / WIDTH == row && pos % WIDTH == x && (row * WIDTH) % WIDTH == 0
  {
  }

  lemma PutGood(t: Tape, c: nat)
    requires Good(t)
    ensures Good(Put(t, c)) && Put(t, c).color == t.color
  {
  }

  function PutAll(t: Tape, text: string): (r: Tape)
    requires Good(t)
    ensures Good(r) && r.color == t.color
  {
    if text == "" then t
    else
      PutGood(PutAll(t, text[..|text| - 1]), text[|text| - 1] as int);
      Put(PutAll(t, text[..|text| - 1]), text[|text| - 1] as int)
  }

  // Text without control characters lies on the tape in reading order, whatever wrapped or scrolled.
  lemma {:induction false} TextInOrder(t: Tape, text: string)
    requires Good(t) && forall i :: 0 <= i < |text| ==> Printed(text[i] as int)
    ensures PutAll(t, text).pos == t.pos + |text|
    ensures forall i :: 0 <= i < t.pos ==> PutAll(t, text).cells[i] == t.cells[i]
    ensures forall i :: 0 <= i < |text| ==> PutAll(t, text).cells[t.pos + i] == Entry(text[i] as int, t.color)
  {
    if text != "" {
      var front, c := text[..|text| - 1], text[|text| - 1] as int;
      TextInOrder(t, front);
      var r := PutAll(t, front);
      assert Put(r, c).cells[..|r.cells|] == r.cells[r.pos := Entry(c, t.color)];
      forall i | 0 <= i < |front| ensures Put(r, c).cells[t.pos + i] == Entry(text[i] as int, t.color) {
        assert r.cells[t.pos + i] == Entry(front[i] as int, t.color);
      }
    }
  }

  lemma {:induction false} PutAllConcat(t: Tape, a: string, b: string)
    requires Good(t)
    ensures PutAll(t, a + b) == PutAll(PutAll(t, a), b)
  {
    if b == "" {
      assert a + b == a;
    } else {
      assert (a + b)[..|a + b| - 1] == a + b[..|b| - 1];
      PutAllConcat(t, a, b[..|b| - 1]);
    }
  }

  lemma PutOne(t: Tape, c: char)
    requires Good(t)
    ensures PutAll(t, [c]) == Put(t, c as int)
  {
  }

  // A text is put character by character, first to last, control characters included.
  lemma PutAllIs(t: Tape, c: char, text: string)
    requires Good(t)
    ensures PutAll(t, "") == t && Good(Put(t, c as int)) && PutAll(t, [c] + text) == PutAll(Put(t, c as int), text)
  {
    PutOne(t, c);
    PutGood(t, c as int);
    PutAllConcat(t, [c], text);
  }

  // ----- Whole runs -----

  datatype Op = PutOp(c: nat) | PutsOp(text: string) | ColorOp(color: nat) | CursorOp(x: nat, y: nat) | ScrollOp | ClearOp

  function Scrolled(t: Tape): Tape { t.(cells := t.cells + Blank(WIDTH, t.color), pos := t.pos + WIDTH) }

  function Cleared(t: Tape): Tape
    requires |t.cells| >= CELLS
  {
    Tape(t.cells[..|t.cells| - CELLS] + Blank(CELLS, t.color), |t.cells| - CELLS, t.color)
  }

  function CursorAt(t: Tape, x: nat, y: nat): Tape
    requires |t.cells| >= CELLS
  {
    if x < WIDTH && y < HEIGHT then t.(pos := |t.cells| - CELLS + y * WIDTH + x) else t
  }

  function Do(t: Tape, op: Op): (r: Tape)
    requires Good(t)
    ensures Good(r)
  {
    match op
    case PutOp(c) => PutGood(t, c); Put(t, c)
    case PutsOp(text) => PutAll(t, text)
    case ColorOp(color) => t.(color := color)
    case CursorOp(x, y) => CursorAt(t, x, y)
    case ScrollOp => Scrolled(t)
    case ClearOp => Cleared(t)
  }

  function Run(t: Tape, ops: seq<Op>): (r: Tape)
    requires Good(t)
    ensures Good(r)
    decreases |ops|
  {
    if ops == [] then t else Run(Do(t, ops[0]), ops[1..])
  }

  // No run reaches back above the screen it starts from: those rows are never changed or lost.
  lemma {:induction false} HistoryStays(t: Tape, ops: seq<Op>, i: nat)
    requires Good(t) && i < |t.cells| - CELLS
    ensures i < |Run(t, ops).cells| - CELLS && Run(t, ops).cells[i] == t.cells[i]
    decreases |ops|
  {
    if ops != [] {
      StepHistory(t, ops[0], i);
      HistoryStays(Do(t, ops[0]), ops[1..], i);
    }
  }

  lemma StepHistory(t: Tape, op: Op, i: nat)
    requires Good(t) && i < |t.cells| - CELLS
    ensures i < |Do(t, op).cells| - CELLS && Do(t, op).cells[i] == t.cells[i]
  {
    if op.PutsOp? { PutAllHistory(t, op.text, i); }
  }

  lemma {:induction false} PutAllHistory(t: Tape, text: string, i: nat)
    requires Good(t) && i < |t.cells| - CELLS
    ensures i < |PutAll(t, text).cells| - CELLS && PutAll(t, text).cells[i] == t.cells[i]
  {
    if text != "" { PutAllHistory(t, text[..|text| - 1], i); }
  }

  // ----- The screen in memory -----

  // The next multiple of 8, as (x + 8) & ~7.
  function TabStop(x: nat): nat { (x + 8) / 8 * 8 }

  // Row and column arithmetic of one character, above base, the first cell of the screen.
  lemma MovedPlace(base: nat, y: nat, x: nat, pos: nat)
    requires base % WIDTH == 0 && x < WIDTH && pos == base + y * WIDTH + x
    ensures Moved(pos, 10) == base + (y + 1) * WIDTH
    ensures Moved(pos, 13) == base + y * WIDTH
    ensures Moved(pos, 9) == base + y * WIDTH + TabStop(x) && TabStop(x) <= WIDTH
  {
    var row := base / WIDTH + y;
    assert base + y * WIDTH == row * WIDTH;
    Place(row * WIDTH + x, row, x);
    assert row * WIDTH == row * 10 * 8;
    assert (row * 10 * 8 + x) / 8 == row * 10 + x / 8;
  }

  // Where row y of the screen starts on the tape.
  ghost predicate CursorIs(t: Tape, y: nat, x: nat) {
    |t.cells| >= CELLS && t.pos == |t.cells| - CELLS + y * WIDTH + x
  }

  // The screen after one row more of tape.
  lemma ScreenGrown(cells: seq<nat>, color: nat)
    requires |cells| >= CELLS
    ensures Screen(Tape(cells + Blank(WIDTH, color), 0, color)) == Screen(Tape(cells, 0, color))[WIDTH..] + Blank(WIDTH, color)
  {
  }

  // Cell i of the screen is cell i of the last 25 rows of tape.
  lemma ScreenWritten(cells: seq<nat>, i: nat, e: nat)
    requires |cells| >= CELLS && i < CELLS
    ensures cells[|cells| - CELLS + i := e][|cells| - CELLS..] == cells[|cells| - CELLS..][i := e]
  {
  }

  // The two halves of a colour byte.
  lemma Halves(fg: bv8, bg: bv8)
    requires fg < 16 && bg < 16
    ensures (fg | (bg << 4)) as nat == fg as nat + 16 * (bg as nat)
  {
  }

  // The cells from i up to j are blank, in that colour.
  ghost predicate BlankFrom(cells: seq<nat>, i: nat, j: nat, color: nat) {
    j <= |cells| && forall k :: i <= k < j ==> cells[k] == 0x20 + 0x100 * color
  }

  // One row up, and a blank row below.
  ghost predicate RowsUp(before: seq<nat>, after: seq<nat>, color: nat) {
    && |before| == |after| == CELLS && BlankFrom(after, CELLS - WIDTH, CELLS, color)
    && forall k :: 0 <= k < CELLS - WIDTH ==> after[k] == before[k + WIDTH]
  }

  // Column x of row y as the cursor may be in the middle of a call: past the last column it is at the start of the
  // next row, and past the last row the screen moves up.
  ghost predicate Wrapped(before: seq<nat>, x: nat, y: nat, color: nat, after: seq<nat>, x': nat, y': nat) {
    && x' == (if x >= WIDTH then 0 else x)
    && var row := if x >= WIDTH then y + 1 else y;
       if row < HEIGHT then y' == row && after == before else y' == HEIGHT - 1 && RowsUp(before, after, color)
  }

  // What a character does to the screen and the cursor.
  ghost predicate Typed(c: nat, before: seq<nat>, x: nat, y: nat, color: nat, after: seq<nat>, x': nat, y': nat)
    requires y * WIDTH + x < |before|
  {
    && (c == 10 ==> Wrapped(before, 0, y + 1, color, after, x', y'))
    && (c == 13 ==> after == before && x' == 0 && y' == y)
    && (c == 9 ==> exists stop: nat :: stop % 8 == 0 && x < stop <= x + 8 && Wrapped(before, stop, y, color, after, x', y'))
    && (32 <= c < 128 ==> Wrapped(before[y * WIDTH + x := c + 0x100 * color], x + 1, y, color, after, x', y'))
    && (c !in {9, 10, 13} && !(32 <= c < 128) ==> after == before && x' == x && y' == y)
  }

  // The cursor, the cell under it and the move, before anything wraps.
  ghost predicate Acted(c: nat, before: seq<nat>, x: nat, y: nat, color: nat, after: seq<nat>, x': nat, y': nat)
    requires y * WIDTH + x < |before|
  {
    && y' == (if c == 10 then y + 1 else y)
    && x' == (if c == 10 || c == 13 then 0 else if c == 9 then TabStop(x) else if Printed(c) then x + 1 else x)
    && after == if Printed(c) then before[y * WIDTH + x := Entry(c, color)] else before
  }

  lemma TypedIs(c: nat, before: seq<nat>, x: nat, y: nat, color: nat, cells: seq<nat>, x1: nat, y1: nat,
                after: seq<nat>, x': nat, y': nat)
    requires x < WIDTH && y < HEIGHT && y * WIDTH + x < |before|
    requires Acted(c, before, x, y, color, cells, x1, y1) && Wrapped(cells, x1, y1, color, after, x', y')
    ensures Typed(c, before, x, y, color, after, x', y')
  {
    assert TabStop(x) % 8 == 0 && x < TabStop(x) <= x + 8;
  }

  lemma UpIs(before: seq<nat>, color: nat)
    requires |before| == CELLS
    ensures RowsUp(before, before[WIDTH..] + Blank(WIDTH, color), color)
  {
  }

  class Terminal {
    const buffer: array<nat>
    var x: nat
    var y: nat
    var color: nat
    ghost var tape: Tape

    ghost predicate Valid()
      reads this, buffer
    {
      && buffer.Length == CELLS && Good(tape) && x < WIDTH && y < HEIGHT && color == tape.color < 256
      && CursorIs(tape, y, x) && buffer[..] == Screen(tape)
    }

    // The static state, then console_init: the screen may show anything before.
    constructor (screen: array<nat>)
      requires screen.Length == CELLS
      modifies screen
      ensures Valid() && buffer == screen && tape == Tape(Blank(CELLS, 7), 0, 7)
      ensures x == y == 0 && BlankFrom(buffer[..], 0, CELLS, 7)
    {
      buffer, x, y, color := screen, 0, 0, 0x07;
      new;
      BlankScreen();
      tape := Tape(Blank(CELLS, 7), 0, 7);
      SetColor(7, 0);
    }

    // The loops of console_clear.
    method BlankScreen()
      requires buffer.Length == CELLS
      modifies buffer
      ensures buffer[..] == Blank(CELLS, color)
    {
      var row := 0;
      while row < HEIGHT
        invariant 0 <= row <= HEIGHT
        invariant forall i :: 0 <= i < row * WIDTH ==> buffer[i] == Entry(32, color)
      {
        var col := 0;
        while col < WIDTH
          invariant 0 <= col <= WIDTH
          invariant forall i :: 0 <= i < row * WIDTH + col ==> buffer[i] == Entry(32, color)
        {
          buffer[row * WIDTH + col] := Entry(32, color);
          col := col + 1;
        }
        row := row + 1;
      }
    }

    // console_clear
    method Clear()
      requires Valid()
      modifies this, buffer
      ensures Valid() && tape == Cleared(old(tape))
      ensures x == y == 0 && BlankFrom(buffer[..], 0, CELLS, old(color)) && color == old(color)
    {
      BlankScreen();
      x, y := 0, 0;
      tape := Cleared(tape);
    }

    // console_set_color. For colours below 16 the foreground is the low and the background the high half.
    method SetColor(fg: bv8, bg: bv8)
      requires Valid()
      modifies this
      ensures Valid() && tape == old(tape).(color := (fg | (bg << 4)) as nat) && x == old(x) && y == old(y)
      ensures fg < 16 && bg < 16 ==> color / 16 == bg as nat && color % 16 == fg as nat
    {
      if fg < 16 && bg < 16 { Halves(fg, bg); }
      color := (fg | (bg << 4)) as nat;
      tape := tape.(color := color);
    }

    // console_set_cursor
    method SetCursor(column: nat, row: nat)
      requires Valid()
      modifies this
      ensures Valid() && tape == CursorAt(old(tape), column, row) && color == old(color)
      ensures if column < 80 && row < 25 then x == column && y == row else x == old(x) && y == old(y)
    {
      if column < WIDTH && row < HEIGHT {
        x, y := column, row;
        tape := CursorAt(tape, column, row);
      }
    }

    // The loops of console_scroll_up.
    method MoveRows()
      requires buffer.Length == CELLS
      modifies buffer
      ensures buffer[..] == old(buffer[..])[WIDTH..] + Blank(WIDTH, color)
    {
      var row := 0;
      while row < HEIGHT - 1
        invariant 0 <= row <= HEIGHT - 1
        invariant forall i :: 0 <= i < row * WIDTH ==> buffer[i] == old(buffer[i + WIDTH])
        invariant forall i :: row * WIDTH <= i < CELLS ==> buffer[i] == old(buffer[i])
      {
        var col := 0;
        while col < WIDTH
          invariant 0 <= col <= WIDTH
          invariant forall i :: 0 <= i < row * WIDTH + col ==> buffer[i] == old(buffer[i + WIDTH])
          invariant forall i :: row * WIDTH + col <= i < CELLS ==> buffer[i] == old(buffer[i])
        {
          buffer[row * WIDTH + col] := buffer[(row + 1) * WIDTH + col];
          col := col + 1;
        }
        row := row + 1;
      }
      var col := 0;
      while col < WIDTH
        invariant 0 <= col <= WIDTH
        invariant forall i :: 0 <= i < CELLS - WIDTH ==> buffer[i] == old(buffer[i + WIDTH])
        invariant forall i :: CELLS - WIDTH <= i < CELLS - WIDTH + col ==> buffer[i] == Entry(32, color)
      {
        buffer[(HEIGHT - 1) * WIDTH + col] := Entry(32, color);
        col := col + 1;
      }
    }

    // console_scroll_up
    method ScrollUp()
      requires Valid()
      modifies this, buffer
      ensures Valid() && tape == Scrolled(old(tape))
      ensures RowsUp(old(buffer[..]), buffer[..], old(color)) && x == old(x) && y == old(y) && color == old(color)
    {
      ScreenGrown(tape.cells, tape.color);
      UpIs(buffer[..], color);
      MoveRows();
      tape := Scrolled(tape);
    }

    // In the middle of console_putc the cursor may be one past the row or the screen.
    ghost predicate Loose()
      reads this, buffer
    {
      && buffer.Length == CELLS && |tape.cells| >= CELLS && |tape.cells| % WIDTH == 0 && color == tape.color < 256
      && x <= WIDTH && (y < HEIGHT || (y == HEIGHT && x == 0))
      && CursorIs(tape, y, x) && buffer[..] == Screen(tape)
    }

    // The two tests at the end of console_putc.
    method Settle()
      requires Loose()
      modifies this, buffer
      ensures Valid() && tape == Grown(old(tape)) && color == old(color)
      ensures Wrapped(old(buffer[..]), old(x), old(y), color, buffer[..], x, y)
    {
      UpIs(buffer[..], color);
      if x >= WIDTH {
        x := 0;
        y := y + 1;
      }
      if y >= HEIGHT {
        ScreenGrown(tape.cells, color);
        MoveRows();
        y := HEIGHT - 1;
      }
      tape := Grown(tape);
    }

    // The store at the cursor.
    method Store(entry: nat)
      requires Valid()
      modifies this`tape, buffer
      ensures Valid() && tape == old(tape).(cells := old(tape).cells[old(tape).pos := entry])
      ensures buffer[..] == old(buffer[..])[y * WIDTH + x := entry]
    {
      var index := y * WIDTH + x;
      ScreenWritten(tape.cells, index, entry);
      buffer[index] := entry;
      tape := tape.(cells := tape.cells[tape.pos := entry]);
    }

    // The first half of console_putc.
    method Act(c: nat)
      requires Valid() && c < 256
      modifies this, buffer
      ensures Loose() && color == old(color)
      ensures tape == old(tape).(cells := Written(old(tape), c), pos := Moved(old(tape).pos, c))
      ensures Acted(c, old(buffer[..]), old(x), old(y), color, buffer[..], x, y)
    {
      ghost var base := |tape.cells| - CELLS;
      MovedPlace(base, y, x, tape.pos);
      if c == 10 {
        x := 0;
        y := y + 1;
      } else if c == 13 {
        x := 0;
      } else if c == 9 {
        x := TabStop(x);
      } else if Printed(c) {
        Store(Entry(c, color));
        x := x + 1;
      }
      tape := tape.(pos := Moved(tape.pos, c));
    }

    // console_putc
    method PutChar(c: nat)
      requires Valid() && c < 256
      modifies this, buffer
      ensures Valid() && tape == Put(old(tape), c) && color == old(color)
      ensures Typed(c, old(buffer[..]), old(x), old(y), color, buffer[..], x, y)
    {
      Act(c);
      ghost var cells, column, row := buffer[..], x, y;
      Settle();
      TypedIs(c, old(buffer[..]), old(x), old(y), color, cells, column, row, buffer[..], x, y);
    }

    // console_puts
    method PutString(text: string)
      requires Valid() && forall i :: 0 <= i < |text| ==> text[i] as int < 256
      modifies this, buffer
      ensures Valid() && tape == PutAll(old(tape), text)
    {
      var i := 0;
      while i < |text|
        invariant 0 <= i <= |text| && Valid() && tape == PutAll(old(tape), text[..i])
      {
        assert text[..i + 1][..i] == text[..i];
        PutChar(text[i] as int);
        i := i + 1;
      }
      assert text[..i] == text;
    }

    // The loop that prints the digit buffer backwards.
    method EmitDigits(digits: array<char>, count: nat, ghost text: string)
      requires Valid() && count == |text| <= digits.Length
      requires forall k :: 0 <= k < count ==> digits[k] == text[count - 1 - k]
      requires forall k :: 0 <= k < count ==> text[k] as int < 256
      modifies this, buffer
      ensures Valid() && tape == PutAll(old(tape), text)
    {
      var index := count;
      assert text[..0] == "";
      while index > 0
        invariant 0 <= index <= count && Valid() && tape == PutAll(old(tape), text[..count - index])
      {
        index := index - 1;
        assert text[..count - index][..count - index - 1] == text[..count - index - 1];
        PutChar(digits[index] as int);
      }
      assert text[..count - index] == text;
    }

    // The loop that fills the digit buffer, last digit first; 32 places are enough for any base.
    method FillDigits(value: nat, base: nat, upper: bool) returns (digits: array<char>, index: nat)
      requires value < 0x1_0000_0000 && 2 <= base <= 16
      ensures fresh(digits) && digits.Length == 32 && index == |Digits(value, base, upper)| <= 32
      ensures forall k :: 0 <= k < index ==> digits[k] == Digits(value, base, upper)[index - 1 - k]
      ensures forall k :: 0 <= k < index ==> Digits(value, base, upper)[k] as int < 256
    {
      digits := new char[32];
      ghost var text := Digits(value, base, upper);
      Pow2Is();
      DigitCount(value, base, upper, 32, text);
      DigitBytes(value, base, upper, text);
      var v: nat := value;
      index := 0;
      assert text[..|text|] == text;
      while v > 0
        invariant 0 <= index <= |text| && Digits(v, base, upper) == text[..|text| - index]
        invariant forall k :: 0 <= k < index ==> digits[k] == text[|text| - 1 - k]
        decreases v
      {
        Divide(v, base);
        DigitsTurn(text, |text| - index, v, base, upper);
        var digit := v % base;
        digits[index] := DigitChar(digit, upper);
        v := v / base;
        index := index + 1;
      }
    }

    // console_print_uint: lower-case digits.
    method PrintUint(value: nat, base: nat)
      requires Valid() && value < 0x1_0000_0000 && 2 <= base <= 16
      modifies this, buffer
      ensures Valid() && tape == PutAll(old(tape), UintText(value, base))
    {
      if value == 0 {
        PutOne(tape, '0');
        PutChar('0' as int);
        return;
      }
      var digits, count := FillDigits(value, base, false);
      EmitDigits(digits, count, Digits(value, base, false));
    }

    // console_print_int: upper-case digits, and a sign in base 10 only.
    method PrintInt(value: int, base: nat)
      requires Valid() && -0x8000_0000 <= value < 0x8000_0000 && 2 <= base <= 16
      modifies this, buffer
      ensures Valid() && tape == PutAll(old(tape), IntText(value, base))
    {
      if value == 0 {
        PutOne(tape, '0');
        PutChar('0' as int);
        return;
      }
      var negative := value < 0 && base == 10;
      var v := if negative then Negate32(value) else value;
      var magnitude: nat := if v > 0 then v else 0;
      var digits, count := FillDigits(magnitude, base, true);
      PutAllConcat(tape, if negative then "-" else "", Digits(magnitude, base, true));
      if negative {
        PutOne(tape, '-');
        PutChar('-' as int);
      }
      EmitDigits(digits, count, Digits(magnitude, base, true));
    }
  }

  lemma DigitsTurn(text: string, n: nat, v: nat, base: nat, upper: bool)
    requires GoodBase(base) && n <= |text| && v > 0 && Digits(v, base, upper) == text[..n]
    ensures n > 0 && text[n - 1] == DigitChar(v % base, upper) && Digits(v / base, base, upper) == text[..n - 1]
  {
  }

  lemma DigitBytes(v: nat, base: nat, upper: bool, digits: string)
    requires GoodBase(base) && digits == Digits(v, base, upper)
    ensures forall i :: 0 <= i < |digits| ==> digits[i] as int < 256
  {
    AllDigits(v, base, upper, digits);
    forall i | 0 <= i < |digits| ensures digits[i] as int < 256 {
      var d: nat :| d < base <= 36 && digits[i] == DigitChar(d, upper);
    }
  }
}
