/** Number printing: `itoa` of util.c. */
module Util {
  import opened CTypes
  import opened CMemory
  import opened CString

  const MINUS: byte := 45

  function Digit(d: nat): byte
    requires d < 16
  {
    if d < 10 then d + 48 else d - 10 + 97
  }

  function DigitValue(c: byte): int
  {
    if 48 <= c < 58 then c - 48 else if 97 <= c < 103 then c - 97 + 10 else -1
  }

  /** The digits of `n` as the loop finds them, least significant first. */
  function Reversed(n: nat, divisor: nat): (t: seq<byte>)
    requires 2 <= divisor <= 16
    ensures t != []
    decreases n
  {
    [Digit(n % divisor)] + if n / divisor == 0 then [] else Reversed(n / divisor, divisor)
  }

  /** The digits of `n` as they are read. */
  function Digits(n: nat, divisor: nat): (t: seq<byte>)
    requires 2 <= divisor <= 16
    ensures t != []
    decreases n
  {
    (if n / divisor == 0 then [] else Digits(n / divisor, divisor)) + [Digit(n % divisor)]
  }

  /** The number a digit string denotes in a base, or -1 if a character is no digit of the base. */
  function Value(t: seq<byte>, divisor: nat): int
    decreases |t|
  {
    if t == [] then 0
    else
      var high, d := Value(t[..|t| - 1], divisor), DigitValue(t[|t| - 1]);
      if high < 0 || !(0 <= d < divisor) then -1 else high * divisor + d
  }

  function Divisor(conv: byte): nat { if conv == 120 then 16 else 10 }

  predicate IsConv(conv: byte) { conv == 100 || conv == 117 || conv == 120 }  // d, u, x

  /** `unsigned long ud = d`, and `ud = -d` on 32 bits when a sign is printed. */
  function Magnitude(conv: byte, d: s32): u32 
  {
    var x: int := d;
    if conv == 100 && x < 0 then Wrap(-x) else Wrap(x)
  }

  function Text(conv: byte, d: s32): (t: seq<byte>)
    ensures 1 <= |t| <= 11
  {
    MagnitudeDigits(conv, d);
    (if conv == 100 && d < 0 then [MINUS] else []) + Digits(Magnitude(conv, d), Divisor(conv))
  }

  /** The number a text denotes: a minus sign negates. */
  function Number(t: seq<byte>, divisor: nat): int
  {
    if t != [] && t[0] == MINUS then -Value(t[1..], divisor) else Value(t, divisor)
  }

  lemma {:induction false} DivShrinks(n: nat, divisor: nat)
    requires 2 <= divisor
    ensures 0 <= n / divisor <= n && (n > 0 ==> n / divisor < n)
  {
  }

  lemma {:induction false} DigitsParse(n: nat, divisor: nat)
    requires divisor == 10 || divisor == 16
    ensures Value(Digits(n, divisor), divisor) == n
    decreases n
  {
    hide Value, DigitValue;
    var q, r := n / divisor, n % divisor;
    assert n == q * divisor + r by { DivMod(n, divisor); }
    var high := if q == 0 then [] else Digits(q, divisor);
    if q != 0 { DigitsParse(q, divisor); } else { ValueNothing(divisor); }
    ValueAppend(high, r, divisor);
  }

  lemma {:induction false} DivMod(n: nat, divisor: nat)
    requires divisor == 10 || divisor == 16
    ensures n == (n / divisor) * divisor + n % divisor
  {
    if divisor == 10 {
      assert n == n / 10 * 10 + n % 10;
    } else {
      assert n == n / 16 * 16 + n % 16;
    }
  }

  lemma {:induction false} ValueNothing(divisor: nat)
    ensures Value([], divisor) == 0
  {
  }

  lemma {:induction false} ValueAppend(t: seq<byte>, d: nat, divisor: nat)
    requires d < divisor <= 16 && Value(t, divisor) >= 0
    ensures Value(t + [Digit(d)], divisor) == Value(t, divisor) * divisor + d
  {
    assert (t + [Digit(d)])[..|t|] == t;
  }

  lemma {:induction false} NoLeadingZero(n: nat, divisor: nat)
    requires divisor == 10 || divisor == 16
    ensures Digits(n, divisor)[0] == 48 <==> n == 0
    ensures n == 0 ==> Digits(n, divisor) == [48]
    ensures Digits(n, divisor)[0] != MINUS
    decreases n
  {
    var q := n / divisor;
    if q != 0 { NoLeadingZero(q, divisor); }
  }

  function Pow(b: nat, k: nat): nat { if k == 0 then 1 else b * Pow(b, k - 1) }

  lemma {:induction false} DigitCount(n: nat, divisor: nat, k: nat)
    requires divisor == 10 || divisor == 16
    requires k >= 1 && n < Pow(divisor, k)
    ensures |Digits(n, divisor)| <= k
    decreases k
  {
    var q := n / divisor;
    if q != 0 {
      assert Pow(divisor, k) == divisor * Pow(divisor, k - 1);
      assert q < Pow(divisor, k - 1);
      DigitCount(q, divisor, k - 1);
    }
  }

  /** The digits are those of "0123456789abcdef". */
  lemma {:induction false} DigitIs(d: nat)
    requires d < 16
    ensures Digit(d) == Bytes("0123456789abcdef")[d] && DigitValue(Digit(d)) == d
  {
  }

  /** Three texts as they read. */
  lemma {:induction false} SmallTexts()
    ensures Text(100, -42) == Bytes("-42") && Text(117, 42) == Bytes("42") && Text(120, 0xab) == Bytes("ab")
  {
    hide Digits, Digit, Reversed, Value, Pow;
    SmallDigits();
    assert [MINUS] + Bytes("42") == Bytes("-42") && [] + Bytes("42") == Bytes("42") && [] + Bytes("ab") == Bytes("ab");
  }

  lemma {:induction false} SmallDigits()
    ensures Digits(42, 10) == Bytes("42") && Digits(0xab, 16) == Bytes("ab")
  {
    hide Digits, Reversed, Value;
    OneDigitIs(4, 10);
    OneDigitIs(10, 16);
    DigitsAppend(4, 2, 10);
    DigitsAppend(10, 11, 16);
    assert [Digit(4)] + [Digit(2)] == Bytes("42") && [Digit(10)] + [Digit(11)] == Bytes("ab");
  }

  /** The other way round: every digit string of a base without a leading zero is what its value is printed as. */
  lemma {:induction false} ParseDigits(t: seq<byte>, divisor: nat)
    requires divisor == 10 || divisor == 16
    requires t != [] && (|t| > 1 ==> t[0] != 48)
    requires forall k :: 0 <= k < |t| ==> 0 <= DigitValue(t[k]) < divisor
    ensures Value(t, divisor) >= 0 && Digits(Value(t, divisor), divisor) == t
    ensures t[0] != 48 ==> Value(t, divisor) > 0
    decreases |t|
  {
    hide Digits, Value, DigitValue, Digit;
    var high, d := t[..|t| - 1], DigitValue(t[|t| - 1]);
    DigitBack(t[|t| - 1]);
    assert t == high + [Digit(d)];
    if high == [] {
      ValueNothing(divisor);
      ValueAppend(high, d, divisor);
      OneDigitIs(d, divisor);
    } else {
      ParseDigits(high, divisor);
      ValueAppend(high, d, divisor);
      DigitsAppend(Value(high, divisor), d, divisor);
    }
  }

  lemma {:induction false} DigitBack(c: byte)
    requires DigitValue(c) >= 0
    ensures DigitValue(c) < 16 && Digit(DigitValue(c)) == c && (c != 48 ==> DigitValue(c) > 0)
  {
  }

  lemma {:induction false} OneDigitIs(d: nat, divisor: nat)
    requires (divisor == 10 || divisor == 16) && d < divisor
    ensures Digits(d, divisor) == [Digit(d)]
  {
    hide Digit;
    if divisor == 10 {
      assert d / 10 == 0 && d % 10 == d;
    } else {
      assert d / 16 == 0 && d % 16 == d;
    }
  }

  lemma {:induction false} DigitsAppend(n: nat, d: nat, divisor: nat)
    requires (divisor == 10 || divisor == 16) && d < divisor && n > 0
    ensures Digits(n * divisor + d, divisor) == Digits(n, divisor) + [Digit(d)] && n * divisor + d > 0
  {
    hide Digit;
    var m := n * divisor + d;
    if divisor == 10 {
      assert m / 10 == n && m % 10 == d;
    } else {
      assert m / 16 == n && m % 16 == d;
    }
  }

  /** For every 32-bit value the text denotes exactly that value, signed for `d` and unsigned for `u`
      and `x`; it has no leading zero but the digit of zero itself; it has a minus sign only for a
      negative `d`; and it fits 11 characters, so that `itoa` writes at most 12 bytes. The smallest
      integer, whose negation wraps, is no exception. */
  lemma {:induction false} TextIsExact(conv: byte, d: s32)
    requires IsConv(conv)
    ensures Number(Text(conv, d), Divisor(conv)) == if conv == 100 then d else Wrap(d)
    ensures Text(conv, d)[0] == 48 <==> d == 0
    ensures d == 0 ==> Text(conv, d) == [48]
    ensures Text(conv, d)[0] == MINUS <==> conv == 100 && d < 0
    ensures 1 <= |Text(conv, d)| <= 11 && 0 !in Text(conv, d)
  {
    hide Digits, Value, Pow;
    var m, b := Magnitude(conv, d), Divisor(conv);
    DigitsParse(m, b);
    NoLeadingZero(m, b);
    NoNul(m, b);
    if conv == 100 && d < 0 {
      assert Text(conv, d)[1..] == Digits(m, b);
    } else {
      assert Text(conv, d) == Digits(m, b);
    }
  }

  lemma {:induction false} MagnitudeDigits(conv: byte, d: s32)
    ensures |Digits(Magnitude(conv, d), Divisor(conv))| <= 10
  {
    PowTen();
    DigitCount(Magnitude(conv, d), Divisor(conv), if conv == 120 then 8 else 10);
  }

  lemma {:induction false} PowTen()
    ensures Pow(10, 10) == 10_000_000_000 && Pow(16, 8) == TWO32
  {
    assert Pow(10, 5) == 100_000 && Pow(16, 4) == 65536;
    assert Pow(10, 8) == 1000 * Pow(10, 5);
    assert Pow(10, 10) == 100 * Pow(10, 8);
    assert Pow(16, 6) == 256 * Pow(16, 4);
    assert Pow(16, 8) == 256 * Pow(16, 6);
  }

  lemma {:induction false} NoNul(n: nat, divisor: nat)
    requires 2 <= divisor <= 16
    ensures 0 !in Digits(n, divisor)
    decreases n
  {
    if n / divisor != 0 { NoNul(n / divisor, divisor); }
  }

  // ---------------------------------------------------------------- in-place reversal

  function Flip(s: seq<byte>): (r: seq<byte>)
    ensures |r| == |s|
  {
    if s == [] then [] else Flip(s[1..]) + [s[0]]
  }

  lemma {:induction false} FlipIs(s: seq<byte>, r: seq<byte>)
    requires |r| == |s| && forall k :: 0 <= k < |s| ==> r[k] == s[|s| - 1 - k]
    ensures Flip(s) == r
  {
    if s != [] {
      FlipIs(s[1..], r[..|r| - 1]);
    }
  }

  lemma {:induction false} FlipReversed(n: nat, divisor: nat)
    requires 2 <= divisor <= 16
    ensures Flip(Reversed(n, divisor)) == Digits(n, divisor)
    decreases n
  {
    hide Digit, Flip;
    var q := n / divisor;
    var tail := if q == 0 then [] else Reversed(q, divisor);
    DivShrinks(n, divisor);
    FlipPrepend(Digit(n % divisor), tail);
    if q != 0 { FlipReversed(q, divisor); } else { FlipNothing(); }
  }

  lemma {:induction false} FlipNothing()
    ensures Flip([]) == []
  {
  }

  lemma {:induction false} FlipPrepend(d: byte, t: seq<byte>)
    ensures Flip([d] + t) == Flip(t) + [d]
  {
    assert ([d] + t)[1..] == t;
  }

  /** The closing loop of `itoa`: bytes `lo` to `hi` swap ends. */
  method ReverseInPlace(buf: array<byte>, lo: nat, hi: nat)
    requires lo <= hi <= buf.Length
    modifies buf
    ensures buf[..] == Poke(old(buf[..]), lo, Flip(old(buf[lo..hi])))
  {
    hide Flip, Poke;
    ghost var was := buf[..];
    var p1, p2 := lo, hi - 1;
    while p1 < p2
      invariant lo <= p1 && p1 - lo == hi - 1 - p2 && p1 <= p2 + 2
      invariant forall k :: 0 <= k < buf.Length ==> buf[k] == was[if lo <= k < hi && !(p1 <= k <= p2) then lo + hi - 1 - k else k]
    {
      buf[p1], buf[p2] := buf[p2], buf[p1];
      p1 := p1 + 1;
      p2 := p2 - 1;
    }
    FlippedWindow(was, buf[..], lo, hi);
  }

  /** `reverse`: the string at the start of the buffer is turned round, the rest stays. */
  method Reverse(buf: array<byte>)
    requires Terminated(buf[..], 0)
    modifies buf
    ensures buf[..] == Poke(old(buf[..]), 0, Flip(CStr(old(buf[..]), 0)))
  {
    hide Flip, Poke, CStr;
    ghost var was := buf[..];
    var numb := StrLen(buf, 0);
    var g := 0;
    while g < numb / 2
      invariant 0 <= g <= numb / 2
      invariant forall k :: 0 <= k < buf.Length ==> buf[k] == was[if k < numb && !(g <= k < numb - g) then numb - 1 - k else k]
    {
      buf[g], buf[numb - 1 - g] := buf[numb - 1 - g], buf[g];
      g := g + 1;
    }
    FlippedWindow(was, buf[..], 0, numb);
  }

  /** Turning a string round twice gives it back. */
  lemma {:induction false} FlipTwice(s: seq<byte>)
    ensures Flip(Flip(s)) == s
  {
    FlipAt(s);
    FlipIs(Flip(s), s);
  }

  lemma {:induction false} FlipAt(s: seq<byte>)
    ensures forall k :: 0 <= k < |s| ==> Flip(s)[k] == s[|s| - 1 - k]
  {
    if s != [] { FlipAt(s[1..]); }
  }

  lemma {:induction false} FlippedWindow(was: seq<byte>, now: seq<byte>, lo: nat, hi: nat)
    requires lo <= hi <= |was| == |now|
    requires forall k :: 0 <= k < |now| && lo <= k < hi ==> now[k] == was[lo + hi - 1 - k]
    requires forall k :: 0 <= k < |now| && !(lo <= k < hi) ==> now[k] == was[k]
    ensures now == Poke(was, lo, Flip(was[lo..hi]))
  {
    FlipIs(was[lo..hi], now[lo..hi]);
  }

  lemma {:induction false} ReversedStep(n: nat, divisor: nat)
    requires 2 <= divisor <= 16
    ensures Reversed(n, divisor) == [Digit(n % divisor)] + if n / divisor == 0 then [] else Reversed(n / divisor, divisor)
  {
  }

  /** The digit loop: writes the digits of `n` from `start` on, least significant first. */
  method WriteDigits(buf: array<byte>, start: nat, n: u32, divisor: nat) returns (p: nat)
    requires 2 <= divisor <= 16 && start + |Reversed(n, divisor)| <= buf.Length
    modifies buf
    ensures p == start + |Reversed(n, divisor)|
    ensures buf[..] == Poke(old(buf[..]), start, Reversed(n, divisor))
  {
    hide Poke, Digit, Reversed;
    ghost var was, all := buf[..], Reversed(n, divisor);
    var ud: u32, more := n, true;
    p := start;
    PokeNothing(was, start, 0);
    ghost var done: seq<byte> := was[0..0];
    while more
      invariant p == start + |done| && start + |all| <= buf.Length
      invariant more ==> all == done + Reversed(ud, divisor)
      invariant !more ==> all == done
      invariant buf[..] == Poke(was, start, done)
      decreases more, ud
    {
      var digit := Digit(ud % divisor);
      ReversedStep(ud, divisor);
      DivShrinks(ud, divisor);
      PokeJoin(was, start, done, [digit]);
      PokeByte(buf[..], p, digit);
      buf[p] := digit;
      p, done := p + 1, done + [digit];
      ud := ud / divisor;
      more := ud != 0;
    }
  }

  method Itoa(buf: array<byte>, conv: byte, d: s32)
    requires IsConv(conv) && buf.Length >= 12
    modifies buf
    ensures buf[..] == Poke(old(buf[..]), 0, Text(conv, d) + [0])
  {
    hide Poke, Digits, Reversed, Flip;
    var x: int := d;
    var p := 0;
    var ud := Wrap(x);
    var divisor := 10;
    ghost var was := buf[..];
    ghost var sign: seq<byte> := was[0..0];
    PokeNothing(was, 0, 0);
    if conv == 100 && x < 0 {
      PokeByte(was, 0, MINUS);
      buf[0] := MINUS;
      p, sign := 1, [MINUS];
      ud := Wrap(-x);
    } else if conv == 120 {
      divisor := 16;
    }
    var start := p;
    FlipReversed(ud, divisor);
    ghost var r := Reversed(ud, divisor);
    assert Text(conv, d) == sign + Flip(r);
    p := WriteDigits(buf, start, ud, divisor);
    PokeJoin(was, 0, sign, r);
    PokeByte(buf[..], p, 0);
    PokeJoin(was, 0, sign + r, [0]);
    buf[p] := 0;
    assert buf[..] == Poke(was, 0, sign + r + [0]);
    ReverseInPlace(buf, start, p);
    NumberReversed(was, sign, r);
  }

  lemma {:induction false} NumberReversed(was: seq<byte>, sign: seq<byte>, r: seq<byte>)
    requires |sign| + |r| + 1 <= |was|
    ensures var b := Poke(was, 0, sign + r + [0]);
      var s, p := |sign|, |sign| + |r|;
      b[s..p] == r && Poke(b, s, Flip(r)) == Poke(was, 0, sign + Flip(r) + [0])
  {
    hide Flip;
  }
}
