/** Formatted output: `printf`, `clrprintf` and `nprintf` of vga.c.
    A format is read as a list of pieces; what is printed is defined on the pieces. */
module Formatting {
  import opened CTypes
  import opened CMemory
  import opened CString
  import opened Console
  import opened Util

  const PERCENT: byte := 37
  const ZERO: byte := 48
  const SPACE: byte := 32

  /** An ordinary character, or a directive: zero flag, one-digit width, conversion character. */
  datatype Piece = Lit(ch: byte) | Dir(zero: bool, width: Option<byte>, conv: byte)

  /** A variadic argument: an int, or a string pointer that may be null. */
  datatype Arg = Int(v: s32) | Str(p: Option<seq<byte>>)

  predicate IsDigit(c: byte) { 48 <= c <= 57 }

  /** The pieces that formats are made of, each in its only spelling. */
  predicate WellFormed(p: Piece) {
    match p
    case Lit(ch) => ch != PERCENT && ch != 0
    case Dir(zero, width, conv) =>
      && conv != 0
      && (width.Some? ==> width.value <= 9 && (width.value == 0 ==> zero))
      && (width.None? ==> !IsDigit(conv))
  }

  function Spelling(p: Piece): (s: seq<byte>)
    requires WellFormed(p)
    ensures s != []
  {
    match p
    case Lit(ch) => [ch]
    case Dir(zero, width, conv) =>
      [PERCENT] + (if zero then [ZERO] else []) + (if width.Some? then [ZERO + width.value] else []) + [conv]
  }

  function Unparse(ps: seq<Piece>): seq<byte>
    requires forall i :: 0 <= i < |ps| ==> WellFormed(ps[i])
    decreases |ps|
  {
    if ps == [] then [] else Spelling(ps[0]) + Unparse(ps[1..])
  }

  /** The byte at `i` of a C string with bytes `f`. */
  function At(f: seq<byte>, i: nat): byte { if i < |f| then f[i] else 0 }

  /** The first piece of a non-empty format; None if the format ends inside the directive. */
  function ParseOne(f: seq<byte>): (r: Option<Piece>)
    requires f != [] && 0 !in f
    ensures r.Some? ==> WellFormed(r.value) && Spelling(r.value) <= f
  {
    if f[0] != PERCENT then Some(Lit(f[0]))
    else
      var zero := At(f, 1) == ZERO;
      var i := if zero then 2 else 1;
      var width := if IsDigit(At(f, i)) then Some(At(f, i) - ZERO) else None;
      var j := if width.Some? then i + 1 else i;
      if At(f, j) == 0 then None
      else
        assert Spelling(Dir(zero, width, f[j])) == f[..j + 1];
        Some(Dir(zero, width, f[j]))
  }

  function Parse(f: seq<byte>): (r: Option<seq<Piece>>)
    requires 0 !in f
    ensures r.Some? ==> (forall i :: 0 <= i < |r.value| ==> WellFormed(r.value[i]))
    decreases |f|
  {
    if f == [] then Some([])
    else match ParseOne(f)
      case None => None
      case Some(p) =>
        match Parse(f[|Spelling(p)|..])
        case None => None
        case Some(ps) => Some([p] + ps)
  }

  /** Reading a format back from its spelling gives the pieces, whatever follows the first one. */
  lemma {:induction false} ParseOneOfSpelling(p: Piece, rest: seq<byte>)
    requires WellFormed(p) && 0 !in Spelling(p) + rest
    ensures ParseOne(Spelling(p) + rest) == Some(p)
  {
  }

  lemma {:induction false} SpellingNoNul(ps: seq<Piece>)
    requires forall i :: 0 <= i < |ps| ==> WellFormed(ps[i])
    ensures 0 !in Unparse(ps)
    decreases |ps|
  {
    if ps != [] { SpellingNoNul(ps[1..]); }
  }

  /** Every list of pieces is what its spelling is read as, ... */
  lemma {:induction false} ParseUnparse(ps: seq<Piece>)
    requires forall i :: 0 <= i < |ps| ==> WellFormed(ps[i])
    ensures 0 !in Unparse(ps) && Parse(Unparse(ps)) == Some(ps)
    decreases |ps|
  {
    SpellingNoNul(ps);
    if ps != [] {
      var rest := Unparse(ps[1..]);
      ParseUnparse(ps[1..]);
      ParseOneOfSpelling(ps[0], rest);
      var f := Spelling(ps[0]) + rest;
      assert f[|Spelling(ps[0])|..] == rest;
      assert [ps[0]] + ps[1..] == ps;
    }
  }

  /** ... and every format that does not end inside a directive is the spelling of what it is read as. */
  lemma {:induction false} UnparseParse(f: seq<byte>)
    requires 0 !in f && Parse(f).Some?
    ensures Unparse(Parse(f).value) == f
    decreases |f|
  {
    hide ParseOne, WellFormed, Spelling;
    if f != [] {
      var p := ParseOne(f).value;
      UnparseParse(f[|Spelling(p)|..]);
      assert Parse(f).value[1..] == Parse(f[|Spelling(p)|..]).value;
    }
  }

  // ---------------------------------------------------------------- what a format prints

  const NULL_TEXT := Bytes("(null)")

  /** What fills a text up to a width. */
  function Filling(zero: bool, width: nat, text: seq<byte>): (s: seq<byte>)
    ensures |s| == if width > |text| then width - |text| else 0
  {
    seq(if width > |text| then width - |text| else 0, _ => if zero then ZERO else SPACE)
  }

  function WidthOf(width: Option<byte>): nat { if width.Some? then width.value else 0 }

  function Padding(zero: bool, width: Option<byte>, text: seq<byte>): (s: seq<byte>)
    ensures |s| == if width.Some? && width.value > |text| then width.value - |text| else 0
  {
    Filling(zero, WidthOf(width), text)
  }

  predicate Matches(p: Piece, a: Arg) {
    match p
    case Lit(_) => true
    case Dir(_, _, conv) => if conv == 115 then a.Str? && (a.p.Some? ==> 0 !in a.p.value) else a.Int?
  }

  /** The text of a directive's argument. */
  function ArgText(conv: byte, a: Arg): seq<byte>
    requires conv == 115 ==> a.Str?
    requires conv != 115 ==> a.Int?
  {
    if conv == 115 then (if a.p.Some? then a.p.value else NULL_TEXT)
    else if IsConv(conv) then Text(conv, a.v)
    else [a.v % 256]
  }

  /** Any other conversion character prints the argument as a character, without padding; so `%%`
      takes an argument and prints that. */
  function Field(p: Piece, a: Arg): seq<byte>
    requires p.Dir? && Matches(p, a)
  {
    var text := ArgText(p.conv, a);
    if p.conv == 115 || IsConv(p.conv) then Padding(p.zero, p.width, text) + text else text
  }

  /** A padded field is as long as the width or the text, whichever is longer, and ends in the text;
      zeros too go before a minus sign. */
  lemma {:induction false} FieldShape(p: Piece, a: Arg)
    requires p.Dir? && Matches(p, a) && (p.conv == 115 || IsConv(p.conv))
    ensures var text := ArgText(p.conv, a);
      var f := Field(p, a);
      && |f| == (if p.width.Some? && p.width.value > |text| then p.width.value else |text|)
      && f[|f| - |text|..] == text
      && forall i :: 0 <= i < |f| - |text| ==> f[i] == if p.zero then ZERO else SPACE
  {
  }

  predicate Accepts(ps: seq<Piece>, args: seq<Arg>)
    decreases |ps|
  {
    if ps == [] then true
    else if ps[0].Lit? then Accepts(ps[1..], args)
    else args != [] && Matches(ps[0], args[0]) && Accepts(ps[1..], args[1..])
  }

  function Render(ps: seq<Piece>, args: seq<Arg>): seq<byte>
    requires Accepts(ps, args)
    decreases |ps|
  {
    if ps == [] then []
    else if ps[0].Lit? then [ps[0].ch] + Render(ps[1..], args)
    else Field(ps[0], args[0]) + Render(ps[1..], args[1..])
  }

  predicate Printable(format: seq<byte>, args: seq<Arg>) {
    0 !in format && Parse(format).Some? && Accepts(Parse(format).value, args)
  }

  /** What a call prints. */
  function Output(format: seq<byte>, args: seq<Arg>): seq<byte>
    requires Printable(format, args)
  {
    Render(Parse(format).value, args)
  }

  function Paint(text: seq<byte>, color: byte): (gs: seq<Glyph>)
    ensures |gs| == |text|
  {
    seq(|text|, i requires 0 <= i < |text| => Glyph(text[i], color))
  }

  lemma {:induction false} PaintNothing(color: byte)
    ensures Paint([], color) == []
  {
  }

  lemma {:induction false} PaintConcat(a: seq<byte>, b: seq<byte>, color: byte)
    ensures Paint(a + b, color) == Paint(a, color) + Paint(b, color)
  {
  }

  // ---------------------------------------------------------------- the printing loops

  /** Prints `text` in one colour, as the `while (*p)` loop does. */
  method PutText(screen: Screen, text: seq<byte>, color: byte)
    requires screen.Valid()
    modifies screen, screen.vidmem
    ensures screen.Valid() && screen.log == old(screen.log).PutAll(Paint(text, color))
    ensures screen.vidmem[4000..] == old(screen.vidmem[4000..])
  {
    ghost var start := screen.log;
    var k := 0;
    assert Paint(text[..0], color) == [];
    while k < |text|
      invariant 0 <= k <= |text|
      invariant screen.Valid() && screen.log == start.PutAll(Paint(text[..k], color))
      invariant screen.vidmem[4000..] == old(screen.vidmem[4000..])
    {
      screen.Putchar(text[k], color);
      PutNext(start, text, k, color);
      k := k + 1;
    }
    assert text[..|text|] == text;
  }

  /** A printed text without line breaks, on the screen: its characters in their colour in rows of 80. */
  lemma {:induction false} TextStands(l: Log, text: seq<byte>, color: byte, i: nat)
    requires l.Valid() && i < |text|
    requires forall k :: 0 <= k < |text| ==> text[k] != 10 && text[k] != 13
    ensures l.PutAll(Paint(text, color)).Cell(l.row + (l.col + i) / 80, (l.col + i) % 80) == Glyph(text[i], color)
  {
    var gs := Paint(text, color);
    LineLayout(l, gs, i);
    EveryGlyphKept(l, gs, i);
  }

  lemma {:induction false} PutNext(l: Log, text: seq<byte>, k: nat, color: byte)
    requires l.Valid() && k < |text|
    ensures l.PutAll(Paint(text[..k + 1], color)) == l.PutAll(Paint(text[..k], color)).Put(Glyph(text[k], color))
  {
    var g := Glyph(text[k], color);
    var m := l.PutAll(Paint(text[..k], color));
    assert Paint(text[..k + 1], color) == Paint(text[..k], color) + [g];
    PutAllConcat(l, Paint(text[..k], color), [g]);
    assert m.PutAll([g]) == m.Put(g).PutAll([]);
  }

  /** The code at label `string`: padding up to the width, then the text. */
  method PutField(screen: Screen, text: seq<byte>, pad0: bool, pad: byte, color: byte)
    requires screen.Valid()
    modifies screen, screen.vidmem
    ensures screen.Valid() && screen.log == old(screen.log).PutAll(Paint(Padding(pad0, Some(pad), text) + text, color))
    ensures screen.vidmem[4000..] == old(screen.vidmem[4000..])
  {
    hide Paint, Shows, CellOf;
    ghost var start := screen.log;
    PaintNothing(color);
    var padding := Padding(pad0, Some(pad), text);
    var p2 := |text|;
    assert padding[..0] == [];
    while p2 < pad
      invariant |text| <= p2 && (p2 <= pad || p2 == |text|)
      invariant screen.Valid() && screen.log == start.PutAll(Paint(padding[..p2 - |text|], color))
      invariant screen.vidmem[4000..] == old(screen.vidmem[4000..])
    {
      screen.Putchar(if pad0 then ZERO else SPACE, color);
      PutNext(start, padding, p2 - |text|, color);
      p2 := p2 + 1;
    }
    assert padding[..|padding|] == padding;
    PutText(screen, text, color);
    PutAllConcat(start, Paint(padding, color), Paint(text, color));
    PaintConcat(padding, text, color);
  }

  /** One directive, from the character behind the `%` on. */
  method PutDirective(screen: Screen, format: seq<byte>, i: nat, color: byte, arg: Arg) returns (next: nat)
    requires screen.Valid() && i < |format| && 0 !in format && format[i] == PERCENT
    requires ParseOne(format[i..]).Some? && Matches(ParseOne(format[i..]).value, arg)
    modifies screen, screen.vidmem
    ensures next == i + |Spelling(ParseOne(format[i..]).value)| <= |format|
    ensures screen.Valid() && screen.log == old(screen.log).PutAll(Paint(Field(ParseOne(format[i..]).value, arg), color))
    ensures screen.vidmem[4000..] == old(screen.vidmem[4000..])
  {
    hide Paint, Padding, Text, Shows, CellOf, ParseOne, Field, ArgText, Spelling, WellFormed;
    ghost var p := ParseOne(format[i..]).value;
    var pad0, pad := false, 0;
    var c := At(format, i + 1);
    next := i + 2;
    if c == ZERO {
      pad0 := true;
      c := At(format, next);
      next := next + 1;
    }
    ghost var width: Option<byte> := if IsDigit(c) then Some(c - ZERO) else None;
    if 48 <= c <= 57 {
      pad := c - ZERO;
      c := At(format, next);
      next := next + 1;
    }
    DirectiveRead(format[i..]);
    assert p == Dir(pad0, width, c);
    PutArgument(screen, pad0, pad, width, c, color, arg);
  }

  /** The `switch` on the conversion character `c`. */
  method PutArgument(screen: Screen, pad0: bool, pad: byte, ghost width: Option<byte>, c: byte, color: byte, arg: Arg)
    requires screen.Valid() && Matches(Dir(pad0, width, c), arg)
    requires pad == if width.Some? then width.value else 0
    modifies screen, screen.vidmem
    ensures screen.Valid() && screen.log == old(screen.log).PutAll(Paint(Field(Dir(pad0, width, c), arg), color))
    ensures screen.vidmem[4000..] == old(screen.vidmem[4000..])
  {
    hide Paint, Padding, Text, Shows, CellOf;
    if c == 100 || c == 117 || c == 120 {
      var text := NumberText(c, arg.v);
      PutField(screen, text, pad0, pad, color);
      PadNothing(pad0, text);
    } else if c == 115 {
      var text := match arg.p { case Some(s) => s case None => NULL_TEXT };
      PutField(screen, text, pad0, pad, color);
      PadNothing(pad0, text);
    } else {
      PutText(screen, [arg.v % 256], color);
    }
  }

  /** `itoa(buf, c, ...); p = buf;`: the C string in the 64-byte buffer is the number's text. */
  method NumberText(conv: byte, v: s32) returns (text: seq<byte>)
    requires IsConv(conv)
    ensures text == Text(conv, v)
  {
    var buf := new byte[64];
    ghost var was := buf[..];
    Itoa(buf, conv, v);
    TextIsExact(conv, v);
    TextHeld(was, Text(conv, v));
    var n := StrLen(buf, 0);
    text := buf[..n];
  }

  lemma {:induction false} TextHeld(was: seq<byte>, text: seq<byte>)
    requires |text| < |was| && 0 !in text
    ensures var b := Poke(was, 0, text + [0]); Terminated(b, 0) && CStr(b, 0) == text && b[..|text|] == text
  {
    CStrUnique(Poke(was, 0, text + [0]), 0, text);
  }

  lemma {:induction false} PadNothing(zero: bool, text: seq<byte>)
    ensures Padding(zero, None, text) == Padding(zero, Some(0), text) == []
  {
  }

  /** The spelling of the directive that a format starts with, byte by byte. */
  lemma {:induction false} DirectiveRead(f: seq<byte>)
    requires f != [] && 0 !in f && f[0] == PERCENT && ParseOne(f).Some?
    ensures var zero := At(f, 1) == ZERO;
      var i := if zero then 2 else 1;
      var width := if IsDigit(At(f, i)) then Some((At(f, i) - ZERO) as byte) else None;
      var j := if width.Some? then i + 1 else i;
      ParseOne(f) == Some(Dir(zero, width, At(f, j))) && |Spelling(ParseOne(f).value)| == j + 1 <= |f|
  {
  }

  /** The loop shared by `printf` and `clrprintf`, which differ in the colour only. */
  method PutFormatted(screen: Screen, format: seq<byte>, color: byte, args: seq<Arg>)
    requires screen.Valid() && Printable(format, args)
    modifies screen, screen.vidmem
    ensures screen.Valid() && screen.log == old(screen.log).PutAll(Paint(Output(format, args), color))
    ensures screen.vidmem[4000..] == old(screen.vidmem[4000..])
  {
    hide Paint, Render, Parse, ParseOne, Accepts, Field, Matches, Spelling;
    ghost var start := screen.log;
    ghost var done: seq<byte> := [];
    PaintNothing(color);
    var i, k := 0, 0;
    assert format[0..] == format && args[0..] == args;
    while At(format, i) != 0
      invariant i <= |format| && k <= |args|
      invariant Printable(format[i..], args[k..])
      invariant Output(format, args) == done + Output(format[i..], args[k..])
      invariant screen.Valid() && screen.log == start.PutAll(Paint(done, color))
      invariant screen.vidmem[4000..] == old(screen.vidmem[4000..])
      decreases |format| - i
    {
      OutputStep(format[i..], args[k..]);
      ghost var piece: seq<byte>;
      if format[i] != PERCENT {
        piece := [format[i]];
        PutText(screen, [format[i]], color);
        assert format[i..][1..] == format[i + 1..];
        i := i + 1;
      } else {
        ghost var p := ParseOne(format[i..]).value;
        piece := Field(p, args[k]);
        ghost var at := i;
        i := PutDirective(screen, format, i, color, args[k]);
        assert format[at..][|Spelling(p)|..] == format[i..] && args[k..][1..] == args[k + 1..];
        k := k + 1;
      }
      PutAllConcat(start, Paint(done, color), Paint(piece, color));
      PaintConcat(done, piece, color);
      done := done + piece;
    }
    assert format[i..] == [];
    OutputNothing(args[k..]);
    assert done + [] == done;
  }

  lemma {:induction false} OutputNothing(args: seq<Arg>)
    ensures Printable([], args) && Output([], args) == []
  {
  }

  lemma {:induction false} OutputStep(f: seq<byte>, args: seq<Arg>)
    requires Printable(f, args) && f != []
    ensures f[0] != PERCENT ==> Printable(f[1..], args) && Output(f, args) == [f[0]] + Output(f[1..], args)
    ensures f[0] == PERCENT ==>
      && ParseOne(f).Some? && |Spelling(ParseOne(f).value)| <= |f| && ParseOne(f).value.Dir?
      && args != [] && Matches(ParseOne(f).value, args[0])
      && Printable(f[|Spelling(ParseOne(f).value)|..], args[1..])
      && Output(f, args) == Field(ParseOne(f).value, args[0]) + Output(f[|Spelling(ParseOne(f).value)|..], args[1..])
  {
    var p := ParseOne(f).value;
    var ps := Parse(f).value;
    assert ps == [p] + Parse(f[|Spelling(p)|..]).value;
    assert ps[1..] == Parse(f[|Spelling(p)|..]).value;
  }

  /** A text without `%` in front of a format prints as it stands. */
  lemma {:induction false} LiteralPrefix(text: seq<byte>, rest: seq<byte>, args: seq<Arg>)
    requires 0 !in text && PERCENT !in text && Printable(rest, args)
    ensures Printable(text + rest, args) && Output(text + rest, args) == text + Output(rest, args)
    decreases |text|
  {
    hide Printable, Output;
    if text == [] {
      assert text + rest == rest;
    } else {
      var f := text + rest;
      assert f[0] == text[0] && f[1..] == text[1..] + rest;
      LiteralPrefix(text[1..], rest, args);
      LiteralStep(f, args);
      assert [text[0]] + text[1..] == text;
      assert [f[0]] + (text[1..] + Output(rest, args)) == text + Output(rest, args);
    }
  }

  lemma {:induction false} LiteralStep(f: seq<byte>, args: seq<Arg>)
    requires f != [] && f[0] != PERCENT && f[0] != 0 && Printable(f[1..], args)
    ensures Printable(f, args) && Output(f, args) == [f[0]] + Output(f[1..], args)
  {
    var p, ps := Lit(f[0]), Parse(f[1..]).value;
    assert f == [f[0]] + f[1..];
    assert ParseOne(f) == Some(p) && Spelling(p) == [f[0]];
    assert Parse(f) == Some([p] + ps) && ([p] + ps)[0] == p && ([p] + ps)[1..] == ps;
  }

  /** A directive without zero flag and width prints its argument's text. */
  lemma {:induction false} PlainDirective(conv: byte, a: Arg, rest: seq<byte>, args: seq<Arg>)
    requires conv != 0 && !IsDigit(conv) && Matches(Dir(false, None, conv), a) && Printable(rest, args)
    ensures Printable([PERCENT, conv] + rest, [a] + args)
    ensures Output([PERCENT, conv] + rest, [a] + args) == ArgText(conv, a) + Output(rest, args)
  {
    hide ParseOne, Field, ArgText, Matches;
    var p := Dir(false, None, conv);
    var f := [PERCENT, conv] + rest;
    assert Spelling(p) == [PERCENT, conv] && f[2..] == rest;
    ParseOneOfSpelling(p, rest);
    PlainField(p, a);
    var ps := Parse(rest).value;
    assert Parse(f) == Some([p] + ps) && ([p] + ps)[1..] == ps && ([a] + args)[1..] == args;
  }

  lemma {:induction false} PlainField(p: Piece, a: Arg)
    requires p.Dir? && p.width.None? && Matches(p, a)
    ensures Field(p, a) == ArgText(p.conv, a)
  {
    hide Text;
    assert [] + ArgText(p.conv, a) == ArgText(p.conv, a);
  }

  lemma {:induction false} PlainText(text: seq<byte>)
    requires 0 !in text && PERCENT !in text
    ensures Printable(text, []) && Output(text, []) == text
  {
    OutputNothing([]);
    LiteralPrefix(text, [], []);
    assert text + [] == text;
  }

  method Printf(screen: Screen, format: seq<byte>, args: seq<Arg>)
    requires screen.Valid() && Printable(format, args)
    modifies screen, screen.vidmem
    ensures screen.Valid() && screen.log == old(screen.log).PutAll(Paint(Output(format, args), 7))
    ensures screen.vidmem[4000..] == old(screen.vidmem[4000..])
  {
    PutFormatted(screen, format, 7, args);
  }

  method ClrPrintf(screen: Screen, format: seq<byte>, color: byte, args: seq<Arg>)
    requires screen.Valid() && Printable(format, args)
    modifies screen, screen.vidmem
    ensures screen.Valid() && screen.log == old(screen.log).PutAll(Paint(Output(format, args), color))
    ensures screen.vidmem[4000..] == old(screen.vidmem[4000..])
  {
    PutFormatted(screen, format, color, args);
  }

  /** `nprintf` on bytes without `%`: exactly the first `n` bytes, NUL bytes among them included. */
  method NPrintf(screen: Screen, format: array<byte>, n: s32)
    requires screen.Valid() && n <= format.Length && format != screen.vidmem
    requires forall i :: 0 <= i < n ==> format[i] != PERCENT
    modifies screen, screen.vidmem
    ensures screen.Valid() && screen.log == old(screen.log).PutAll(Paint(if n <= 0 then [] else format[..n], 7))
    ensures screen.vidmem[4000..] == old(screen.vidmem[4000..])
  {
    ghost var start := screen.log;
    ghost var text := format[..];
    var left: int := n;
    var i := 0;
    PaintNothing(7);
    assert text[..0] == [];
    while left > 0
      invariant 0 <= i <= |text| && if n > 0 then i + left == n && left >= 0 else i == 0 && left == n
      invariant screen.Valid() && screen.log == start.PutAll(Paint(text[..i], 7))
      invariant format[..] == text
      invariant screen.vidmem[4000..] == old(screen.vidmem[4000..])
    {
      left := left - 1;
      var c := format[i];
      if c == PERCENT {
        assert false; // directives are outside this method's contract
      }
      screen.Putchar(c, 7);
      PutNext(start, text, i, 7);
      i := i + 1;
    }
  }
}
