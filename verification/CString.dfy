/** NUL-terminated strings in byte blocks: `strlen`, `strcpy` and `strcmp` of string.c. */
module CString {
  import opened CTypes
  import opened CMemory

  /** There is a terminator at or after `p`. */
  predicate Terminated(m: seq<byte>, p: nat)
  {
    exists k :: p <= k < |m| && m[k] == 0
  }

  /** The string `s` stands at `p`: its bytes, none of them NUL, then a NUL. */
  predicate HoldsStr(m: seq<byte>, p: nat, s: seq<byte>)
  {
    p + |s| < |m| && m[p..p + |s|] == s && 0 !in s && m[p + |s|] == 0
  }

  /** The C string starting at `p`. */
  function CStr(m: seq<byte>, p: nat): (s: seq<byte>)
    requires Terminated(m, p)
    ensures HoldsStr(m, p, s)
    decreases |m| - p
  {
    if m[p] == 0 then [] else [m[p]] + CStr(m, p + 1)
  }

  lemma {:induction false} CStrUnique(m: seq<byte>, p: nat, s: seq<byte>)
    requires HoldsStr(m, p, s)
    ensures Terminated(m, p) && CStr(m, p) == s
  {
  }

  method StrLen(m: array<byte>, p: nat) returns (n: nat)
    requires Terminated(m[..], p)
    ensures n == |CStr(m[..], p)|
  {
    n := 0;
    ghost var s := CStr(m[..], p);
    assert forall k :: 0 <= k < |s| ==> m[..][p + k] == s[k] != 0;
    while m[p + n] != 0
      invariant n <= |s|
      decreases |s| - n
    {
      assert n < |s| by { assert m[..][p + |s|] == 0; }
      n := n + 1;
    }
  }

  /** The kernel's own `strcpy`. It tests the byte after the one it copied, so it always copies the
      first byte, then what follows up to the next NUL, and never writes a terminator. */
  method StrCpy(dest: array<byte>, d: nat, src: array<byte>, s: nat)
    requires dest != src && s < src.Length && Terminated(src[..], s + 1)
    requires d + 1 + |CStr(src[..], s + 1)| <= dest.Length
    modifies dest
    ensures dest[..] == Poke(old(dest[..]), d, [src[s]] + CStr(src[..], s + 1))
  {
    ghost var was, from := dest[..], src[..];
    ghost var n := 1 + |CStr(from, s + 1)|;
    StrCpySpan(from, s);
    dest[d] := src[s];
    var i := 1;
    while src[s + i] != 0
      invariant 1 <= i <= n
      invariant src[..] == from
      invariant dest[..] == Poke(was, d, from[s..s + i])
      decreases n - i
    {
      assert i < n by { assert from[s + n] == 0; }
      PokeExtend(was, d, from, s, i);
      dest[d + i] := src[s + i];
      i := i + 1;
    }
    assert i == n;
  }

  lemma {:induction false} StrCpySpan(m: seq<byte>, s: nat)
    requires s < |m| && Terminated(m, s + 1)
    ensures var n := 1 + |CStr(m, s + 1)|;
      && s + n < |m| && m[s..s + n] == [m[s]] + CStr(m, s + 1) && m[s + n] == 0
      && forall j :: s + 1 <= j < s + n ==> m[j] != 0
  {
  }

  /** The copied bytes are the source string exactly when that string is not empty. */
  lemma {:induction false} StrCpyCopiesIff(m: seq<byte>, s: nat)
    requires s < |m| && Terminated(m, s) && Terminated(m, s + 1)
    ensures [m[s]] + CStr(m, s + 1) == CStr(m, s) <==> CStr(m, s) != []
  {
  }

  /** After the copy the destination is the source's C string exactly when the byte behind it was
      already NUL: the terminator that `strcpy` omits must come from elsewhere. */
  lemma {:induction false} StrCpyTerminatedIff(was: seq<byte>, d: nat, s: seq<byte>)
    requires d + |s| < |was| && 0 !in s
    ensures HoldsStr(Poke(was, d, s), d, s) <==> was[d + |s|] == 0
  {
  }

  /** The bytes of a C string in memory, its terminator included. */
  lemma {:induction false} StringByte(m: seq<byte>, p: nat, k: nat)
    requires Terminated(m, p) && k <= |CStr(m, p)|
    ensures p + k < |m| && (m[p + k] == 0 <==> k == |CStr(m, p)|)
    ensures k < |CStr(m, p)| ==> m[p + k] == CStr(m, p)[k]
  {
    var s := CStr(m, p);
    if k < |s| { assert m[p..p + |s|][k] == s[k] && s[k] in s; }
  }

  /** Returns 0 exactly on equal strings; any other outcome is 1, never an ordering. */
  method StrCmp(a: array<byte>, p: nat, b: array<byte>, q: nat) returns (failed: int)
    requires Terminated(a[..], p) && Terminated(b[..], q)
    ensures failed == 0 || failed == 1
    ensures failed == 0 <==> CStr(a[..], p) == CStr(b[..], q)
  {
    hide CStr, Terminated;
    ghost var s, t := CStr(a[..], p), CStr(b[..], q);
    StringByte(a[..], p, 0);
    StringByte(b[..], q, 0);
    var i := 0;
    failed := 0;
    while a[p + i] != 0 && b[q + i] != 0
      invariant 0 <= i <= |s| && i <= |t|
      invariant p + i < a.Length && (a[p + i] == 0 <==> i == |s|)
      invariant q + i < b.Length && (b[q + i] == 0 <==> i == |t|)
      invariant s[..i] == t[..i] && failed == 0
      decreases |s| - i
    {
      StringByte(a[..], p, i);
      StringByte(b[..], q, i);
      if a[p + i] != b[q + i] {
        assert s[i] != t[i];
        failed := 1;
        break;
      }
      assert s[..i + 1] == s[..i] + [s[i]] && t[..i + 1] == t[..i] + [t[i]];
      i := i + 1;
      StringByte(a[..], p, i);
      StringByte(b[..], q, i);
    }
    if (a[p + i] == 0 && b[q + i] != 0) || (a[p + i] != 0 && b[q + i] == 0) {
      failed := 1;
    }
    assert failed == 0 ==> i == |s| == |t| && s[..i] == s && t[..i] == t;
  }
}
