/** The integer types of the C sources: 32-bit x86, `gcc -m32`. */
module CTypes {

  const TWO32: int := 0x1_0000_0000

  type byte = x: int | 0 <= x < 256
  type u16 = x: int | 0 <= x < 0x1_0000
  type u32 = x: int | 0 <= x < 0x1_0000_0000
  type s32 = x: int | -0x8000_0000 <= x < 0x8000_0000

  /** The value an `unsigned int` keeps of an arithmetic result. */
  function Wrap(x: int): u32 { x % 0x1_0000_0000 }

  function Low16(v: u32): u16 { v % 0x1_0000 }

  lemma {:induction false} WrapSmall(x: int)
    requires 0 <= x < TWO32
    ensures Wrap(x) == x
  {
  }

  lemma {:induction false} WrapAdd(x: int, y: int)
    ensures Wrap(Wrap(x) + y) == Wrap(x + y) == Wrap(x + Wrap(y))
  {
    hide Wrap;
    WrapAddLeft(x, y);
    WrapAddLeft(y, x);
  }

  lemma {:induction false} WrapAddLeft(x: int, y: int)
    ensures Wrap(Wrap(x) + y) == Wrap(x + y) == Wrap(y + x) == Wrap(y + Wrap(x))
  {
    var q, r := x / 0x1_0000_0000, Wrap(x);
    var q', r' := (r + y) / 0x1_0000_0000, Wrap(r + y);
    WrapIs(x + y, q + q', r');
    assert x + y == y + x && r + y == y + r;
  }

  lemma {:induction false} WrapIs(x: int, q: int, r: int)
    requires x == q * 0x1_0000_0000 + r && 0 <= r < TWO32
    ensures Wrap(x) == r
  {
  }

  datatype Option<+T> = None | Some(value: T)

  /** The bytes of a Dafny string literal (Latin-1). */
  function Bytes(s: string): (b: seq<byte>)
    requires forall i :: 0 <= i < |s| ==> s[i] as int < 256
    ensures |b| == |s|
  {
    seq(|s|, i requires 0 <= i < |s| => s[i] as int)
  }
}
