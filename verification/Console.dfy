/** The text console of vga.c: `putchar` and `scroll_ln` over the 80x25 video memory, against a log of
    rows that only ever grows and of which the screen shows the last 25. */
module Console {
  import opened CTypes
  import opened CMemory

  const NEWLINE: byte := 10
  const RETURN: byte := 13
  const TAB: byte := 9

  /** A character with the colour it is printed in; also the content of one screen cell. */
  datatype Glyph = Glyph(ch: byte, color: byte)

  predicate IsBreak(g: Glyph) { g.ch == NEWLINE || g.ch == RETURN }

  type Row = r: seq<Glyph> | |r| == 80 witness Blank()

  /** What `scroll_ln` leaves in a new row. */
  function Blank(): (r: seq<Glyph>)
    ensures |r| == 80 && forall c :: 0 <= c < 80 ==> r[c] == Glyph(32, 7)
  {
    seq(80, _ => Glyph(32, 7))
  }

  // ---------------------------------------------------------------- the log

  /** All rows there ever were, the oldest first, and the cursor. */
  datatype Log = Log(rows: seq<Row>, row: nat, col: nat) {
    predicate OnScreen() { |rows| - 25 <= row < |rows| && |rows| >= 25 }

    /** The cursor is in one of the last 25 rows, on a cell. */
    predicate Valid() { OnScreen() && col < 80 }

    function Break(): (l: Log)
      requires OnScreen()
      ensures l.Valid()
    {
      Log(if row + 1 == |rows| then rows + [Blank()] else rows, row + 1, 0)
    }

    function Store(g: Glyph): (l: Log)
      requires Valid()
      ensures l.OnScreen()
    {
      Log(rows[row := rows[row][col := g]], row, col + 1)
    }

    function Put(g: Glyph): (l: Log)
      requires Valid()
      ensures l.Valid()
    {
      if IsBreak(g) then Break()
      else if col == 79 then Store(g).Break()
      else Store(g)
    }

    function PutAll(gs: seq<Glyph>): (l: Log)
      requires Valid()
      ensures l.Valid()
      decreases |gs|
    {
      if gs == [] then this else Put(gs[0]).PutAll(gs[1..])
    }

    /** The cell at `(r, c)` comes before the cursor. */
    predicate Passed(r: nat, c: nat) { r < row || (r == row && c < col) }

    /** What `(r, c)` holds, a row that is not there yet counting as blank. */
    function Cell(r: nat, c: nat): Glyph
      requires c < 80
    {
      if r < |rows| then rows[r][c] else Glyph(32, 7)
    }
  }

  /** One character moves the cursor on, never touches a cell the cursor has passed, and changes no
      cell but the one under the cursor. */
  lemma {:induction false} PutEffect(l: Log, g: Glyph, r: nat, c: nat)
    requires l.Valid() && c < 80
    ensures l.Passed(r, c) ==> l.Put(g).Passed(r, c)
    ensures (r, c) != (l.row, l.col) || IsBreak(g) ==> l.Put(g).Cell(r, c) == l.Cell(r, c)
    ensures g.ch != 10 && g.ch != 13 ==> l.Put(g).Passed(l.row, l.col) && l.Put(g).Cell(l.row, l.col) == g
    ensures |l.rows| <= |l.Put(g).rows|
  {
  }

  /** A line break moves the cursor to the start of the next row, and appends a blank row exactly if there is
      none yet; it writes nothing. */
  lemma {:induction false} BreakEffect(l: Log, g: Glyph)
    requires l.Valid() && (g.ch == 10 || g.ch == 13)
    ensures l.Put(g).row == l.row + 1 && l.Put(g).col == 0
    ensures l.Put(g).rows == if l.row + 1 == |l.rows| then l.rows + [Blank()] else l.rows
  {
  }

  /** Rows are appended, and so the screen scrolls, only as far as the cursor needs them, by breaks and by
      wrapping alike. */
  lemma {:induction false} RowsGrow(l: Log, gs: seq<Glyph>)
    requires l.Valid()
    ensures var m := l.PutAll(gs);
      l.row <= m.row && |m.rows| == if m.row < |l.rows| then |l.rows| else m.row + 1
    decreases |gs|
  {
    if gs != [] { RowsGrow(l.Put(gs[0]), gs[1..]); }
  }

  /** Cells the cursor has passed never change again, above all not in rows that scrolled off. */
  lemma {:induction false} PassedForGood(l: Log, gs: seq<Glyph>, r: nat, c: nat)
    requires l.Valid() && c < 80 && l.Passed(r, c)
    ensures l.PutAll(gs).Passed(r, c) && l.PutAll(gs).Cell(r, c) == l.Cell(r, c)
    ensures |l.rows| <= |l.PutAll(gs).rows|
    decreases |gs|
  {
    if gs != [] {
      PutEffect(l, gs[0], r, c);
      PassedForGood(l.Put(gs[0]), gs[1..], r, c);
    }
  }

  /** Rows above the cursor, hence every row that has scrolled off, are kept as they are. */
  lemma {:induction false} ScrolledRowsKept(l: Log, gs: seq<Glyph>, r: nat)
    requires l.Valid() && r < l.row
    ensures r < |l.PutAll(gs).rows| && l.PutAll(gs).rows[r] == l.rows[r]
  {
    PassedForGood(l, gs, r, 0);
    forall c | 0 <= c < 80
      ensures l.PutAll(gs).rows[r][c] == l.rows[r][c]
    {
      PassedForGood(l, gs, r, c);
    }
  }

  lemma {:induction false} PutAllConcat(l: Log, a: seq<Glyph>, b: seq<Glyph>)
    requires l.Valid()
    ensures l.PutAll(a + b) == l.PutAll(a).PutAll(b)
    decreases |a|
  {
    if a == [] {
      assert a + b == b;
    } else {
      assert (a + b)[1..] == a[1..] + b;
      PutAllConcat(l.Put(a[0]), a[1..], b);
    }
  }

  /** The cursor when character `i` of a text is about to be printed. */
  function CursorAt(l: Log, gs: seq<Glyph>, i: nat): (nat, nat)
    requires l.Valid() && i <= |gs|
  {
    (l.PutAll(gs[..i]).row, l.PutAll(gs[..i]).col)
  }

  /** Nothing printed is ever lost: after any text, each of its characters stands in the log where the
      cursor was when it was printed. */
  lemma {:induction false} EveryGlyphKept(l: Log, gs: seq<Glyph>, i: nat)
    requires l.Valid() && i < |gs| && !IsBreak(gs[i])
    ensures var (r, c) := CursorAt(l, gs, i); c < 80 && l.PutAll(gs).Cell(r, c) == gs[i]
  {
    var at := l.PutAll(gs[..i]);
    assert gs == gs[..i] + gs[i..] && gs[i..] == [gs[i]] + gs[i + 1..];
    PutAllConcat(l, gs[..i], gs[i..]);
    PutEffect(at, gs[i], at.row, at.col);
    PassedForGood(at.Put(gs[i]), gs[i + 1..], at.row, at.col);
  }

  /** And nothing else is written: any other cell keeps what it held, new rows starting blank. */
  lemma {:induction false} OtherCellsKept(l: Log, gs: seq<Glyph>, r: nat, c: nat)
    requires l.Valid() && c < 80
    requires forall i :: 0 <= i < |gs| && !IsBreak(gs[i]) ==> CursorAt(l, gs, i) != (r, c)
    ensures l.PutAll(gs).Cell(r, c) == l.Cell(r, c)
    decreases |gs|
  {
    if gs != [] {
      assert gs[..0] == [];
      assert !IsBreak(gs[0]) ==> CursorAt(l, gs, 0) != (r, c);
      PutEffect(l, gs[0], r, c);
      var next := l.Put(gs[0]);
      forall i | 0 <= i < |gs[1..]| && !IsBreak(gs[1..][i])
        ensures CursorAt(next, gs[1..], i) != (r, c)
      {
        assert gs[..i + 1][1..] == gs[1..][..i];
        assert CursorAt(l, gs, i + 1) != (r, c);
      }
      OtherCellsKept(next, gs[1..], r, c);
    }
  }

  /** Wrapping in closed form: characters other than line breaks fill rows of 80 from the cursor on. */
  lemma {:induction false} LineLayout(l: Log, gs: seq<Glyph>, i: nat)
    requires l.Valid() && i <= |gs|
    requires forall k :: 0 <= k < |gs| ==> !IsBreak(gs[k])
    ensures CursorAt(l, gs, i) == (l.row + (l.col + i) / 80, (l.col + i) % 80)
    decreases i
  {
    if i == 0 {
      assert gs[..0] == [];
    } else {
      assert gs[..i] == [gs[0]] + gs[1..][..i - 1];
      LineLayout(l.Put(gs[0]), gs[1..], i - 1);
    }
  }

  /** The layout of any text: character `i` stands where its distance from the last line break before it says,
      counted from the start of the row below that break. */
  lemma {:induction false} LayoutAfterBreak(l: Log, gs: seq<Glyph>, b: nat, i: nat)
    requires l.Valid() && b < i <= |gs| && (gs[b].ch == 10 || gs[b].ch == 13)
    requires forall k :: b < k < i ==> gs[k].ch != 10 && gs[k].ch != 13
    ensures CursorAt(l, gs, i) == (CursorAt(l, gs, b).0 + 1 + (i - b - 1) / 80, (i - b - 1) % 80)
  {
    var before, line := l.PutAll(gs[..b]), gs[b + 1..i];
    var start := before.Put(gs[b]);
    BreakEffect(before, gs[b]);
    assert gs[..b + 1] == gs[..b] + [gs[b]] && gs[..i] == gs[..b + 1] + line;
    PutAllConcat(l, gs[..b], [gs[b]]);
    assert before.PutAll([gs[b]]) == start.PutAll([]);
    PutAllConcat(l, gs[..b + 1], line);
    LineLayout(start, line, |line|);
    assert line[..|line|] == line;
  }

  // ---------------------------------------------------------------- the screen

  /** The cell of video memory in screen row `r`, column `c`. */
  function CellOf(mem: seq<byte>, r: nat, c: nat): Glyph
    requires r < 25 && c < 80 && |mem| >= 4000
  {
    Glyph(mem[160 * r + 2 * c], mem[160 * r + 2 * c + 1])
  }

  /** Video memory shows the last 25 rows. */
  ghost predicate Shows(mem: seq<byte>, rows: seq<Row>) {
    && |mem| >= 4000 && |rows| >= 25
    && forall r, c :: 0 <= r < 25 && 0 <= c < 80 ==> CellOf(mem, r, c) == rows[|rows| - 25 + r][c]
  }

  /** Byte for byte: character and colour of cell `c` in screen row `r`. */
  lemma {:induction false} ShownBytes(mem: seq<byte>, rows: seq<Row>, r: nat, c: nat)
    requires Shows(mem, rows) && r < 25 && c < 80
    ensures mem[160 * r + 2 * c] == rows[|rows| - 25 + r][c].ch && mem[160 * r + 2 * c + 1] == rows[|rows| - 25 + r][c].color
  {
    assert CellOf(mem, r, c) == rows[|rows| - 25 + r][c];
  }

  /** `get_offset` */
  function GetOffset(col: nat, row: nat): nat { 2 * (row * 80 + col) }

  class Screen {
    const vidmem: array<byte>
    var xpos: int
    var ypos: int
    ghost var log: Log

    ghost predicate Valid()
      reads this, vidmem
    {
      && vidmem.Length >= 4000 && log.Valid()
      && 0 <= xpos < 80 && 0 <= ypos < 25
      && xpos == log.col && ypos == log.row - (|log.rows| - 25)
      && Shows(vidmem[..], log.rows)
    }

    /** Any screen to start from: its rows are the first rows of the log. */
    constructor (mem: array<byte>, x: nat, y: nat)
      requires mem.Length >= 4000 && x < 80 && y < 25
      ensures vidmem == mem && xpos == x && ypos == y && Valid() && |log.rows| == 25
    {
      vidmem := mem;
      xpos, ypos := x, y;
      log := Log(RowsOf(mem[..]), y, x);
    }

    /** `set_char_at` */
    method SetCharAt(offset: nat, chr: byte, color: byte)
      requires offset + 1 < vidmem.Length
      modifies vidmem
      ensures vidmem[..] == old(vidmem[..])[offset := chr][offset + 1 := color]
    {
      vidmem[offset] := chr;
      vidmem[offset + 1] := color;
    }

    /** `scroll_ln`: every row moves up by one, the last becomes blank, no other byte changes. */
    method ScrollLn()
      requires vidmem.Length >= 4000
      modifies vidmem, `ypos
      ensures ypos == old(ypos) - 1
      ensures vidmem[4000..] == old(vidmem[4000..])
      ensures forall r, c :: 0 <= r < 24 && 0 <= c < 80 ==> CellOf(vidmem[..], r, c) == CellOf(old(vidmem[..]), r + 1, c)
      ensures forall c :: 0 <= c < 80 ==> CellOf(vidmem[..], 24, c) == Glyph(32, 7)
    {
      hide CellOf, ForwardCopied;
      ghost var was := vidmem[..];
      MemCpy(vidmem, GetOffset(0, 0), vidmem, GetOffset(0, 1), 3840);
      MovedUp(was);
      var col := 0;
      while col < 80
        invariant 0 <= col <= 80 && ypos == old(ypos)
        invariant vidmem[4000..] == was[4000..]
        invariant forall r, c :: 0 <= r < 24 && 0 <= c < 80 ==> CellOf(vidmem[..], r, c) == CellOf(was, r + 1, c)
        invariant forall c :: 0 <= c < col ==> CellOf(vidmem[..], 24, c) == Glyph(32, 7)
      {
        CellStored(vidmem[..], 24, col, Glyph(32, 7));
        SetCharAt(GetOffset(col, 24), 32, 7);
        col := col + 1;
      }
      ypos := ypos - 1;
    }

    /** The `newline:` part of `putchar`. The column may already be 80 here. */
    method Newline()
      requires vidmem.Length >= 4000 && log.OnScreen() && 0 <= ypos < 25
      requires ypos == log.row - (|log.rows| - 25) && Shows(vidmem[..], log.rows)
      modifies this, vidmem
      ensures Valid() && log == old(log).Break()
      ensures vidmem[4000..] == old(vidmem[4000..])
    {
      hide CellOf;
      xpos := 0;
      ypos := ypos + 1;
      log := log.Break();
      if ypos >= 25 {
        ScrollLn();
      }
    }

    /** The tab loop of `putchar`: four spaces into the same cell. */
    method TabSpaces(color: byte)
      requires vidmem.Length >= 4000 && 0 <= xpos < 80 && 0 <= ypos < 25
      modifies vidmem
      ensures vidmem[4000..] == old(vidmem[4000..])
      ensures forall j, k :: 0 <= j < 25 && 0 <= k < 80 && (j, k) != (ypos, xpos) ==>
        CellOf(vidmem[..], j, k) == CellOf(old(vidmem[..]), j, k)
    {
      hide CellOf;
      var i := 0;
      while i < 4
        invariant vidmem[4000..] == old(vidmem[4000..])
        invariant forall j, k :: 0 <= j < 25 && 0 <= k < 80 && (j, k) != (ypos, xpos) ==>
          CellOf(vidmem[..], j, k) == CellOf(old(vidmem[..]), j, k)
      {
        CellStored(vidmem[..], ypos, xpos, Glyph(32, color));
        SetCharAt((xpos + ypos * 80) * 2, 32, color);
        i := i + 1;
      }
    }

    method Putchar(c: byte, color: byte)
      requires Valid()
      modifies this, vidmem
      ensures Valid() && log == old(log).Put(Glyph(c, color))
      ensures var breaks := c == 10 || c == 13;
        && xpos == (if breaks || old(xpos) == 79 then 0 else old(xpos) + 1)
        && ypos == if (breaks || old(xpos) == 79) && old(ypos) < 24 then old(ypos) + 1 else old(ypos)
      ensures vidmem[4000..] == old(vidmem[4000..])
    {
      hide CellOf;
      if ypos + 1 == 80 {
        assert false; // the guard compares a row with COLS_MAX: this early scroll_ln is never reached
      }
      if c == TAB {
        TabSpaces(color);
      }
      if c == NEWLINE || c == RETURN {
        Newline();
        return;
      }
      StoreCell(c, color);
      if xpos >= 80 {
        Newline();
      }
    }

    /** The store of an ordinary character, and the step to the right. */
    method StoreCell(c: byte, color: byte)
      requires vidmem.Length >= 4000 && log.Valid() && 0 <= ypos < 25
      requires xpos == log.col && ypos == log.row - (|log.rows| - 25)
      requires forall j, k :: 0 <= j < 25 && 0 <= k < 80 && (j, k) != (ypos, xpos) ==>
        CellOf(vidmem[..], j, k) == log.rows[|log.rows| - 25 + j][k]
      modifies this, vidmem
      ensures log == old(log).Store(Glyph(c, color)) && xpos == old(xpos) + 1 && ypos == old(ypos)
      ensures Shows(vidmem[..], log.rows)
      ensures vidmem[4000..] == old(vidmem[4000..])
    {
      hide CellOf;
      CellStored(vidmem[..], ypos, xpos, Glyph(c, color));
      SetCharAt((xpos + ypos * 80) * 2, c, color);
      log := log.Store(Glyph(c, color));
      xpos := xpos + 1;
    }
  }

  /** Two byte stores change one cell and nothing else. */
  lemma {:induction false} CellStored(mem: seq<byte>, r: nat, c: nat, g: Glyph)
    requires |mem| >= 4000 && r < 25 && c < 80
    ensures var o := GetOffset(c, r);
      var stored := mem[o := g.ch][o + 1 := g.color];
      && stored[4000..] == mem[4000..]
      && forall j, k :: 0 <= j < 25 && 0 <= k < 80 ==> CellOf(stored, j, k) == if (j, k) == (r, c) then g else CellOf(mem, j, k)
  {
  }

  /** The copy in `scroll_ln` runs downwards in memory, so it moves whole rows intact. */
  lemma {:induction false} MovedUp(was: seq<byte>)
    requires |was| >= 4000
    ensures var now := ForwardCopied(was, 0, 160, 3840);
      && now[4000..] == was[4000..]
      && forall r, c :: 0 <= r < 24 && 0 <= c < 80 ==> CellOf(now, r, c) == CellOf(was, r + 1, c)
  {
    var now := ForwardCopied(was, 0, 160, 3840);
    assert now[4000..] == was[4000..];
  }

  function RowOf(mem: seq<byte>, r: nat): Row
    requires r < 25 && |mem| >= 4000
  {
    seq(80, c requires 0 <= c < 80 => CellOf(mem, r, c))
  }

  function RowsOf(mem: seq<byte>): (rows: seq<Row>)
    requires |mem| >= 4000
    ensures |rows| == 25 && Shows(mem, rows)
  {
    seq(25, r requires 0 <= r < 25 => RowOf(mem, r))
  }
}
