/** The `printf` of vga.c against that of the C standard (section 7.21.6.1 of ISO C11), for directives with
    a zero flag, a width of any size, and a conversion d, u, x, s or c. */
module StandardPrintf {
  import opened CTypes
  import opened Util
  import opened Formatting

  const CHAR: byte := 99
  const STRING: byte := 115

  /** A directive of the standard; width 0 stands for none. */
  datatype Directive = Directive(zero: bool, width: nat, conv: byte)

  /** How it is written: the width is a decimal number. */
  function Spelled(d: Directive): seq<byte> {
    [PERCENT] + (if d.zero then [ZERO] else []) + (if d.width == 0 then [] else Digits(d.width, 10)) + [d.conv]
  }

  /** What the standard defines. A zero flag with `s` or `c`, and a null string, are undefined. */
  predicate Defined(d: Directive, a: Arg) {
    if IsConv(d.conv) then a.Int?
    else !d.zero && (if d.conv == CHAR then a.Int? else d.conv == STRING && a.Str? && a.p.Some? && 0 !in a.p.value)
  }

  /** A number as the standard converts it: its sign, and its digits. */
  function SignOf(conv: byte, v: s32): seq<byte> { if conv == 100 && v < 0 then [MINUS] else [] }

  function DigitsOf(conv: byte, v: s32): seq<byte> {
    var x: int := v;
    if conv == 100 then Digits(if x < 0 then -x else x, 10) else Digits(Wrap(x), Divisor(conv))
  }

  /** The argument's text without a width. */
  function TextOf(d: Directive, a: Arg): seq<byte>
    requires Defined(d, a)
  {
    if IsConv(d.conv) then SignOf(d.conv, a.v) + DigitsOf(d.conv, a.v)
    else if d.conv == CHAR then [a.v % 256]
    else a.p.value
  }

  /** The standard's field: spaces go in front of the sign, zeros behind it. */
  function StandardField(d: Directive, a: Arg): seq<byte>
    requires Defined(d, a)
  {
    var text := TextOf(d, a);
    var filling := Filling(d.zero, d.width, text);
    if d.zero then SignOf(d.conv, a.v) + filling + DigitsOf(d.conv, a.v) else filling + text
  }

  lemma {:induction false} NumberText(conv: byte, v: s32)
    requires IsConv(conv)
    ensures SignOf(conv, v) + DigitsOf(conv, v) == Text(conv, v)
  {
    hide Digits;
    var x: int := v;
    if conv == 100 { WrapSmall(if x < 0 then -x else x); }
  }

  /** The standard's directive that the code's piece stands for. */
  function Meant(p: Piece): Directive
    requires p.Dir?
  {
    Directive(p.zero, WidthOf(p.width), p.conv)
  }

  predicate Padded(d: Directive, a: Arg)
    requires Defined(d, a)
  {
    d.width > |TextOf(d, a)|
  }

  /** Where the code's padding goes wrong: zeros in front of a minus sign, and characters not padded. */
  predicate PadsRight(d: Directive, a: Arg)
    requires Defined(d, a)
  {
    Padded(d, a) ==> !(d.zero && d.conv == 100 && a.v < 0) && d.conv != CHAR
  }

  lemma {:induction false} DefinedMatches(p: Piece, a: Arg)
    requires p.Dir? && Defined(Meant(p), a)
    ensures Matches(p, a) && ArgText(p.conv, a) == TextOf(Meant(p), a)
  {
    hide Text, DigitsOf;
    if IsConv(p.conv) { NumberText(p.conv, a.v); }
  }

  /** A field of a directive that the code has read is the standard's exactly unless it is padded with zeros
      in front of a minus sign, or is a character to be padded. */
  lemma {:induction false} FieldStandardIff(p: Piece, a: Arg)
    requires p.Dir? && Defined(Meant(p), a)
    ensures Matches(p, a)
    ensures Field(p, a) == StandardField(Meant(p), a) <==> PadsRight(Meant(p), a)
  {
    hide Text, DigitsOf, Filling;
    DefinedMatches(p, a);
    var d := Meant(p);
    var text := TextOf(d, a);
    var filling := Filling(d.zero, d.width, text);
    assert filling == [] ==> filling + text == text;
    if d.zero {
      ZeroFieldIff(d, a);
    }
  }

  lemma {:induction false} ZeroFieldIff(d: Directive, a: Arg)
    requires Defined(d, a) && d.zero
    ensures Filling(true, d.width, TextOf(d, a)) + TextOf(d, a) == StandardField(d, a) <==> PadsRight(d, a)
  {
    hide DigitsOf;
    var sign, digits := SignOf(d.conv, a.v), DigitsOf(d.conv, a.v);
    var filling := Filling(true, d.width, sign + digits);
    assert filling + (sign + digits) == filling + sign + digits;
    if sign == [] {
      assert filling + sign + digits == filling + digits == sign + filling + digits;
    } else if filling == [] {
      assert filling + sign + digits == sign + digits == sign + filling + digits;
    } else {
      assert (filling + sign + digits)[0] == ZERO && (sign + filling + digits)[0] == MINUS;
    }
  }

  // ---------------------------------------------------------------- widths

  predicate AllDigits(t: seq<byte>) { forall k :: 0 <= k < |t| ==> IsDigit(t[k]) }

  /** A width in decimal: digits, not starting with 0, more than one from 10 on, and fewer than the width. */
  lemma {:induction false} WidthDigits(w: nat)
    requires w > 0
    ensures AllDigits(Digits(w, 10)) && Digits(w, 10)[0] != ZERO
    ensures w < 10 ==> Digits(w, 10) == [ZERO + w]
    ensures w >= 10 ==> 2 <= |Digits(w, 10)| < w
  {
    NoLeadingZero(w, 10);
    if w >= 10 { WidthDigits(w / 10); }
  }

  /** What the code makes of a directive: the digits of its width behind the first are the conversion and text. */
  lemma {:induction false} DirectiveRead(d: Directive, rest: seq<byte>)
    requires d.conv != 0 && !IsDigit(d.conv) && 0 !in rest
    ensures 0 !in Spelled(d) + rest
    ensures d.width == 0 ==> ParseOne(Spelled(d) + rest) == Some(Dir(d.zero, None, d.conv))
    ensures 0 < d.width < 10 ==> ParseOne(Spelled(d) + rest) == Some(Dir(d.zero, Some(d.width), d.conv))
    ensures d.width >= 10 ==>
      var w := Digits(d.width, 10);
      |w| >= 2 && IsDigit(w[0]) && ParseOne(Spelled(d) + rest) == Some(Dir(d.zero, Some(w[0] - ZERO), w[1]))
  {
    hide ParseOne, Digits;
    var w := Digits(d.width, 10);
    if d.width > 0 { WidthDigits(d.width); }
    if d.width < 10 {
      var p := Dir(d.zero, if d.width == 0 then None else Some(d.width), d.conv);
      assert Spelling(p) == Spelled(d);
      ParseOneOfSpelling(p, rest);
    } else {
      var p := Dir(d.zero, Some(w[0] - ZERO), w[1]);
      LongSpelled(d, rest);
      ParseOneOfSpelling(p, w[2..] + [d.conv] + rest);
    }
  }

  lemma {:induction false} LongSpelled(d: Directive, rest: seq<byte>)
    requires d.width >= 10 && d.conv != 0 && 0 !in rest
    ensures var w := Digits(d.width, 10);
      && |w| >= 2 && AllDigits(w) && 0 !in w[2..] + [d.conv] + rest && w[0] != ZERO
      && var p := Dir(d.zero, Some((w[0] - ZERO) as byte), w[1]);
         WellFormed(p) && Spelled(d) + rest == Spelling(p) + (w[2..] + [d.conv] + rest)
  {
    hide Digits;
    var w := Digits(d.width, 10);
    WidthDigits(d.width);
    assert w == [w[0]] + [w[1]] + w[2..];
  }

  /** The code reads a directive as it is meant exactly if its width has at most one digit. */
  lemma {:induction false} ReadAsMeantIff(d: Directive, rest: seq<byte>)
    requires d.conv != 0 && !IsDigit(d.conv) && 0 !in rest
    ensures 0 !in Spelled(d) + rest
    ensures var r := ParseOne(Spelled(d) + rest);
      (r.Some? && r.value.Dir? && Meant(r.value) == d) <==> d.width < 10
  {
    hide ParseOne, Digits;
    DirectiveRead(d, rest);
  }

  /** With a longer width the field comes out shorter than the width, in whatever way it is read. */
  lemma {:induction false} LongWidthOutput(d: Directive, a: Arg)
    requires d.width >= 10 && d.conv != 0 && !IsDigit(d.conv) && d.conv != PERCENT
    ensures Printable(Spelled(d), [a]) <==> a.Int?
    ensures a.Int? ==>
      var w := Digits(d.width, 10);
      |w| >= 2 && Output(Spelled(d), [a]) == [a.v % 256] + w[2..] + [d.conv] && |Output(Spelled(d), [a])| < d.width
  {
    hide ParseOne, Digits, Spelling, Text, Padding, Output, Printable;
    WidthDigits(d.width);
    LongSpelled(d, []);
    DirectiveRead(d, []);
    var w := Digits(d.width, 10);
    var p, tail := Dir(d.zero, Some(w[0] - ZERO), w[1]), w[2..] + [d.conv];
    assert tail + [] == tail && Spelled(d) + [] == Spelled(d);
    PlainText(tail);
    OneField(p, a, tail);
    assert IsDigit(w[1]) && !IsConv(w[1]) && w[1] != STRING;
    if a.Int? {
      assert Field(p, a) == [a.v % 256];
      assert [a.v % 256] + tail == [a.v % 256] + w[2..] + [d.conv];
    }
  }

  /** A format that is one directive and a text. */
  lemma {:induction false} OneField(p: Piece, a: Arg, text: seq<byte>)
    requires p.Dir? && WellFormed(p) && 0 !in text && PERCENT !in text
    ensures 0 !in Spelling(p) + text
    ensures Printable(Spelling(p) + text, [a]) <==> Matches(p, a)
    ensures Matches(p, a) ==> Output(Spelling(p) + text, [a]) == Field(p, a) + text
  {
    hide ParseOne, Field, Matches, Spelling;
    var f := Spelling(p) + text;
    SpellingHasNoNul(p);
    ParseOneOfSpelling(p, text);
    PlainText(text);
    assert f[|Spelling(p)|..] == text;
    var ps := [p] + Parse(text).value;
    assert Parse(f) == Some(ps) && ps[0] == p && ps[1..] == Parse(text).value;
    assert [a][1..] == [];
  }

  lemma {:induction false} SpellingHasNoNul(p: Piece)
    requires WellFormed(p)
    ensures 0 !in Spelling(p)
  {
  }

  /** `printf` is the standard's exactly so far: for every directive of the kinds above, whatever its width
      and its argument, the output is the standard's field if and only if the width has at most one digit
      and the padding goes right. */
  lemma {:induction false} DirectiveStandardIff(d: Directive, a: Arg)
    requires Defined(d, a)
    ensures Printable(Spelled(d), [a]) && Output(Spelled(d), [a]) == StandardField(d, a)
       <==> d.width < 10 && PadsRight(d, a)
  {
    hide ParseOne, Field, Digits, Text, DigitsOf;
    if d.width >= 10 {
      LongWidthOutput(d, a);
      StandardLength(d, a);
    } else {
      var p := Dir(d.zero, if d.width == 0 then None else Some(d.width), d.conv);
      if d.width > 0 { WidthDigits(d.width); }
      assert Spelling(p) == Spelled(d) && Spelled(d) + [] == Spelled(d);
      DefinedMatches(p, a);
      OneField(p, a, []);
      FieldStandardIff(p, a);
      assert Field(p, a) + [] == Field(p, a);
    }
  }

  lemma {:induction false} StandardLength(d: Directive, a: Arg)
    requires Defined(d, a)
    ensures |StandardField(d, a)| >= d.width
  {
    hide DigitsOf;
  }

  // ---------------------------------------------------------------- instances

  /** `%03d` of -1 is "0-1", where the standard has "-01". */
  lemma {:induction false} ZerosBeforeMinus()
    ensures Spelled(Directive(true, 3, 100)) == Bytes("%03d")
    ensures Printable(Bytes("%03d"), [Int(-1)]) && Output(Bytes("%03d"), [Int(-1)]) == Bytes("0-1")
    ensures StandardField(Directive(true, 3, 100), Int(-1)) == Bytes("-01")
  {
    hide Digits, Text, Field, StandardField, Output, Printable, Matches;
    var p := Dir(true, Some(3), 100);
    WidthDigits(3);
    FieldsOfMinusOne();
    assert Spelling(p) == [PERCENT, ZERO, 51, 100] == Bytes("%03d");
    OneField(p, Int(-1), []);
    assert Bytes("%03d") + [] == Bytes("%03d") && Bytes("0-1") + [] == Bytes("0-1");
  }

  lemma {:induction false} FieldsOfMinusOne()
    ensures Matches(Dir(true, Some(3), 100), Int(-1))
    ensures Field(Dir(true, Some(3), 100), Int(-1)) == Bytes("0-1")
    ensures StandardField(Directive(true, 3, 100), Int(-1)) == Bytes("-01")
  {
    hide Digits, Text;
    WidthDigits(1);
    NumberText(100, -1);
    assert SignOf(100, -1) == [MINUS] && DigitsOf(100, -1) == [49];
    assert [MINUS] + [49] == [MINUS, 49] == Text(100, -1);
    assert Filling(true, 3, [MINUS, 49]) == [ZERO];
    assert [ZERO] + [MINUS, 49] == Bytes("0-1") && [MINUS] + [ZERO] + [49] == Bytes("-01");
  }

  /** `%10d` of 5 is the character with code 5 and a "d". */
  lemma {:induction false} OneDigitWidth()
    ensures Spelled(Directive(false, 10, 100)) == Bytes("%10d")
    ensures Printable(Bytes("%10d"), [Int(5)]) && Output(Bytes("%10d"), [Int(5)]) == [5, 100]
  {
    hide Output, Printable;
    var d := Directive(false, 10, 100);
    assert Digits(10, 10) == [49, 48];
    assert Spelled(d) == [PERCENT, 49, 48, 100] == Bytes("%10d");
    LongWidthOutput(d, Int(5));
    assert [5] + [49, 48][2..] + [100] == [5, 100];
  }

  /** `%5d` of 42 is filled with spaces, ... */
  lemma {:induction false} SpacesFill()
    ensures Prints(Bytes("%5d"), Int(42), Bytes("   42"))
  {
    hide Output, Printable, Field, Matches, Text, Bytes;
    var p := Dir(false, Some(5), 100);
    assert Spelling(p) == [PERCENT, 53, 100];
    FortyTwo(p);
    TextBytes();
    OneDirectivePrints(p, Int(42));
  }

  /** ... `%05u` of 42 with zeros, ... */
  lemma {:induction false} ZerosFill()
    ensures Prints(Bytes("%05u"), Int(42), Bytes("00042"))
  {
    hide Output, Printable, Field, Matches, Text, Bytes;
    var p := Dir(true, Some(5), 117);
    assert Spelling(p) == [PERCENT, 48, 53, 117];
    FortyTwo(p);
    TextBytes();
    OneDirectivePrints(p, Int(42));
  }

  /** ... and a null string reads "(null)". */
  lemma {:induction false} NullPrints()
    ensures Prints(Bytes("%s"), Str(None), Bytes("(null)"))
  {
    hide Output, Printable, Field, Text, Bytes;
    var p := Dir(false, None, 115);
    assert Spelling(p) == [PERCENT, 115];
    TextBytes();
    NullField(p);
    OneDirectivePrints(p, Str(None));
  }

  lemma {:induction false} NullField(p: Piece)
    requires p == Dir(false, None, 115)
    ensures Matches(p, Str(None)) && Field(p, Str(None)) == NULL_TEXT
  {
    hide Bytes;
    PadNothing(false, NULL_TEXT);
    assert [] + NULL_TEXT == NULL_TEXT;
  }

  ghost predicate Prints(format: seq<byte>, a: Arg, text: seq<byte>) {
    Printable(format, [a]) && Output(format, [a]) == text
  }

  lemma {:induction false} OneDirectivePrints(p: Piece, a: Arg)
    requires WellFormed(p) && p.Dir? && Matches(p, a)
    ensures Prints(Spelling(p), a, Field(p, a))
  {
    hide Output, Printable, Field, Matches, Spelling;
    OneField(p, a, []);
    assert Spelling(p) + [] == Spelling(p) && Field(p, a) + [] == Field(p, a);
  }

  lemma {:induction false} TextBytes()
    ensures Bytes("%5d") == [37, 53, 100] && Bytes("   42") == [32, 32, 32, 52, 50]
    ensures Bytes("%05u") == [37, 48, 53, 117] && Bytes("00042") == [48, 48, 48, 52, 50]
    ensures Bytes("%s") == [37, 115] && Bytes("(null)") == [40, 110, 117, 108, 108, 41] == NULL_TEXT
  {
  }

  lemma {:induction false} FortyTwo(p: Piece)
    requires p == Dir(false, Some(5), 100) || p == Dir(true, Some(5), 117)
    ensures Matches(p, Int(42))
    ensures Field(p, Int(42)) == if p.zero then [48, 48, 48, 52, 50] else [32, 32, 32, 52, 50]
  {
    hide Text, Digits;
    assert Text(100, 42) == Text(117, 42) == [52, 50] by { DigitsOf42(); assert [] + [52, 50] == [52, 50]; TextSign(); }
    assert Filling(p.zero, 5, [52, 50]) == if p.zero then [48, 48, 48] else [32, 32, 32];
    assert [32, 32, 32] + [52, 50] == [32, 32, 32, 52, 50] && [48, 48, 48] + [52, 50] == [48, 48, 48, 52, 50];
  }

  lemma {:induction false} TextSign()
    ensures Text(100, 42) == [] + Digits(42, 10) && Text(117, 42) == [] + Digits(42, 10)
  {
    hide Digits;
  }

  lemma {:induction false} DigitsOf42()
    ensures Digits(42, 10) == [52, 50]
  {
    assert Digits(4, 10) == [52];
  }

  /** `%%` is no literal percent sign: it takes an argument and prints that as a character. */
  lemma {:induction false} PercentTakesArgument(args: seq<Arg>)
    ensures Printable([PERCENT, PERCENT], args) <==> args != [] && args[0].Int?
    ensures Printable([PERCENT, PERCENT], args) ==> Output([PERCENT, PERCENT], args) == [args[0].v % 256]
  {
    var f, p := [PERCENT, PERCENT], Dir(false, None, PERCENT);
    assert ParseOne(f) == Some(p) && Spelling(p) == f && f[2..] == [];
    var ps := [p];
    assert Parse(f) == Some([p] + []) && [p] + [] == ps && ps[1..] == [];
    assert Accepts(ps, args) <==> args != [] && Matches(p, args[0]) && Accepts([], args[1..]);
    if Accepts(ps, args) {
      assert Render(ps, args) == Field(p, args[0]) + Render([], args[1..]);
    }
  }
}
