/** Raw memory: blocks written in place, little-endian words, and the copy loops of sys.c. */
module CMemory {
  import opened CTypes

  /** `m` with `data` written at `a`. */
  function Poke<T>(m: seq<T>, a: nat, data: seq<T>): (r: seq<T>)
    requires a + |data| <= |m|
    ensures |r| == |m|
  {
    m[..a] + data + m[a + |data|..]
  }

  /** A window that a write does not touch keeps its bytes. */
  lemma {:induction false} PokeOutside<T>(m: seq<T>, a: nat, data: seq<T>, lo: nat, hi: nat)
    requires a + |data| <= |m| && lo <= hi <= |m|
    requires hi <= a || a + |data| <= lo
    ensures Poke(m, a, data)[lo..hi] == m[lo..hi]
  {
  }

  lemma {:induction false} PokeInside<T>(m: seq<T>, a: nat, data: seq<T>)
    requires a + |data| <= |m|
    ensures Poke(m, a, data)[a..a + |data|] == data
  {
  }

  lemma {:induction false} PokeAll<T>(m: seq<T>, data: seq<T>)
    requires |m| == |data|
    ensures Poke(m, 0, data) == data
  {
  }

  lemma {:induction false} PokeByte<T>(m: seq<T>, a: nat, v: T)
    requires a < |m|
    ensures Poke(m, a, [v]) == m[a := v]
  {
  }

  lemma {:induction false} PokeJoin<T>(m: seq<T>, a: nat, x: seq<T>, y: seq<T>)
    requires a + |x| + |y| <= |m|
    ensures Poke(Poke(m, a, x), a + |x|, y) == Poke(m, a, x + y)
  {
  }

  /** A write inside a window is a write to the window. */
  lemma {:induction false} PokeNested<T>(m: seq<T>, h: nat, w: seq<T>, a: nat, data: seq<T>)
    requires h + |w| <= |m| && a + |data| <= |w|
    ensures Poke(Poke(m, h, w), h + a, data) == Poke(m, h, Poke(w, a, data))
  {
  }

  /** A window of a window. */
  lemma {:induction false} SubWindow<T>(m: seq<T>, base: nat, w: seq<T>, at: nat, len: nat)
    requires base + |w| <= |m| && m[base..base + |w|] == w && at + len <= |w|
    ensures m[base + at..base + at + len] == w[at..at + len]
  {
    assert forall k :: 0 <= k < |w| ==> w[k] == m[base..base + |w|][k] == m[base + k];
  }

  // ---------------------------------------------------------------- little-endian words

  /** The low `n` bytes of `v`, least significant first. */
  function LittleEndian(v: nat, n: nat): (b: seq<byte>)
    ensures |b| == n
    decreases v, n
  {
    if n == 0 then [] else [v % 256] + LittleEndian(v / 256, n - 1)
  }

  function U32Bytes(v: u32): (b: seq<byte>)
    ensures |b| == 4
  {
    LittleEndian(v, 4)
  }

  function LoadU32(m: seq<byte>, a: nat): u32
    requires a + 4 <= |m|
  {
    var b0: int, b1: int, b2: int, b3: int := m[a], m[a + 1], m[a + 2], m[a + 3];
    b0 + 0x100 * b1 + 0x1_0000 * b2 + 0x100_0000 * b3
  }

  lemma {:induction false} LoadStored(m: seq<byte>, a: nat, v: u32)
    requires a + 4 <= |m| && m[a..a + 4] == U32Bytes(v)
    ensures LoadU32(m, a) == v
  {
    var b := m[a..a + 4];
    assert b[0] == m[a] && b[1] == m[a + 1] && b[2] == m[a + 2] && b[3] == m[a + 3];
    var v1 := v / 256;
    var v2 := v1 / 256;
    var v3 := v2 / 256;
    assert LittleEndian(v3, 1) == [v3 % 256] + LittleEndian(v3 / 256, 0);
    assert LittleEndian(v2, 2) == [v2 % 256] + LittleEndian(v3, 1);
    assert LittleEndian(v1, 3) == [v1 % 256] + LittleEndian(v2, 2);
    assert LittleEndian(v, 4) == [v % 256] + LittleEndian(v1, 3);
    assert b == [v % 256, v1 % 256, v2 % 256, v3 % 256];
    assert 0 <= v3 < 256;
  }

  /** Least significant byte first, as on x86. */
  lemma {:induction false} LeastFirst(v: u32)
    ensures U32Bytes(v) == [v % 0x100, v / 0x100 % 0x100, v / 0x1_0000 % 0x100, v / 0x100_0000]
  {
    assert LittleEndian(v / 0x100_0000, 1) == [v / 0x100_0000 % 256] + LittleEndian(v / 0x1_0000_0000, 0);
    assert LittleEndian(v / 0x1_0000, 2) == [v / 0x1_0000 % 256] + LittleEndian(v / 0x100_0000, 1);
    assert LittleEndian(v / 0x100, 3) == [v / 0x100 % 256] + LittleEndian(v / 0x1_0000, 2);
  }

  lemma {:induction false} LoadSame(m: seq<byte>, a: nat, m': seq<byte>, a': nat)
    requires a + 4 <= |m| && a' + 4 <= |m'| && m[a..a + 4] == m'[a'..a' + 4]
    ensures LoadU32(m, a) == LoadU32(m', a')
  {
    var w, w' := m[a..a + 4], m'[a'..a' + 4];
    assert w[0] == m[a] && w[1] == m[a + 1] && w[2] == m[a + 2] && w[3] == m[a + 3];
    assert w'[0] == m'[a'] && w'[1] == m'[a' + 1] && w'[2] == m'[a' + 2] && w'[3] == m'[a' + 3];
  }

  /** A word load sees a word store exactly, and sees nothing of a store elsewhere. */
  lemma {:induction false} LoadAfterPoke(m: seq<byte>, a: nat, v: u32, c: nat)
    requires a + 4 <= |m| && c + 4 <= |m|
    requires c == a || c + 4 <= a || a + 4 <= c
    ensures LoadU32(Poke(m, a, U32Bytes(v)), c) == if c == a then v else LoadU32(m, c)
  {
    if c == a {
      var p := Poke(m, a, U32Bytes(v));
      assert p[a..a + 4] == U32Bytes(v);
      LoadStored(p, a, v);
    } else {
      PokeOutside(m, a, U32Bytes(v), c, c + 4);
      LoadSame(m, c, Poke(m, a, U32Bytes(v)), c);
    }
  }

  method Write(m: array<byte>, a: nat, data: seq<byte>)
    requires a + |data| <= m.Length
    modifies m
    ensures m[..] == Poke(old(m[..]), a, data)
  {
    forall k | 0 <= k < |data| {
      m[a + k] := data[k];
    }
  }

  method StoreU32(m: array<byte>, a: nat, v: u32)
    requires a + 4 <= m.Length
    modifies m
    ensures m[..] == Poke(old(m[..]), a, U32Bytes(v))
  {
    Write(m, a, U32Bytes(v));
  }

  // ---------------------------------------------------------------- memcpy and memmove

  /** What a copy should do: the destination window holds the source's original elements. */
  function Moved<T>(m: seq<T>, d: nat, s: nat, n: nat): seq<T>
    requires d + n <= |m| && s + n <= |m|
  {
    Poke(m, d, m[s..s + n])
  }

  /** What an ascending copy does inside one block. Once the destination runs into the source
      from above, the loop reads back what it wrote: the first `d - s` elements repeat. */
  function ForwardCopied<T>(m: seq<T>, d: nat, s: nat, n: nat): (r: seq<T>)
    requires d + n <= |m| && s + n <= |m|
    ensures |r| == |m|
  {
    seq(|m|, j requires 0 <= j < |m| =>
      if j < d || d + n <= j then m[j]
      else if d <= s then m[s + (j - d)]
      else RepeatPeriod(j - d, d - s); m[s + (j - d) % (d - s)])
  }

  lemma {:induction false} RepeatPeriod(i: nat, p: int)
    requires p > 0
    ensures 0 <= i % p <= i && i % p < p
    ensures i < p ==> i % p == i
    ensures i >= p ==> (i - p) % p == i % p
  {
    if i >= p {
      var q, r := i / p, i % p;
      assert i - p == (q - 1) * p + r;
      ModUnique(i - p, p, q - 1, r);
    }
  }

  lemma {:induction false} ModUnique(x: nat, p: int, q: int, r: int)
    requires p > 0 && x == q * p + r && 0 <= r < p
    ensures x % p == r
  {
    var q', r' := x / p, x % p;
    assert x == q' * p + r';
    var e := q - q';
    assert e * p == r' - r;
    assert e >= 1 ==> e * p >= p;
    assert e <= -1 ==> e * p <= -p;
  }

  lemma {:induction false} ForwardStep<T>(m: seq<T>, d: nat, s: nat, i: nat)
    requires d + i < |m| && s + i < |m|
    ensures var f := ForwardCopied(m, d, s, i); f[d + i := f[s + i]] == ForwardCopied(m, d, s, i + 1)
  {
    var f := ForwardCopied(m, d, s, i);
    if d > s {
      RepeatPeriod(i, d - s);
      assert f[s + i] == m[s + i % (d - s)];
    }
  }

  lemma {:induction false} PokeExtend<T>(m: seq<T>, d: nat, data: seq<T>, s: nat, i: nat)
    requires d + i < |m| && s + i < |data|
    ensures Poke(m, d, data[s..s + i])[d + i := data[s + i]] == Poke(m, d, data[s..s + i + 1])
  {
  }

  /** `memcpy` (and `memcpy32`, the same loop on words) between two blocks or inside one. */
  method MemCpy<T>(dest: array<T>, d: nat, src: array<T>, s: nat, n: nat)
    requires d + n <= dest.Length && s + n <= src.Length
    modifies dest
    ensures dest != src ==> dest[..] == Poke(old(dest[..]), d, old(src[s..s + n]))
    ensures dest == src ==> dest[..] == ForwardCopied(old(dest[..]), d, s, n)
  {
    hide Poke, ForwardCopied;
    ghost var was, from := old(dest[..]), old(src[..]);
    CopyNothing(was, d, from, s);
    var i := 0;
    while i < n
      invariant i <= n
      invariant dest != src ==> src[..] == from && dest[..] == Poke(was, d, from[s..s + i])
      invariant dest == src ==> dest[..] == ForwardCopied(was, d, s, i)
    {
      if dest == src { ForwardStep(was, d, s, i); } else { PokeExtend(was, d, from, s, i); }
      dest[d + i] := src[s + i];
      i := i + 1;
    }
    assert from[s..s + n] == old(src[s..s + n]);
  }

  lemma {:induction false} CopyNothing<T>(m: seq<T>, d: nat, data: seq<T>, s: nat)
    requires d <= |m| && s <= |data|
    ensures Poke(m, d, data[s..s]) == m
    ensures s <= |m| ==> ForwardCopied(m, d, s, 0) == m
  {
  }

  lemma {:induction false} PokeNothing<T>(m: seq<T>, d: nat, s: nat)
    requires d <= |m| && s <= |m|
    ensures Poke(m, d, m[s..s]) == m
  {
  }

  lemma {:induction false} PokeSame<T>(m: seq<T>, d: nat, n: nat)
    requires d + n <= |m|
    ensures Poke(m, d, m[d..d + n]) == m
  {
  }

  lemma {:induction false} PokePrepend<T>(m: seq<T>, d: nat, s: nat, k: nat, n: nat)
    requires k < n && d + n <= |m| && s + n <= |m| && s < d
    ensures var p := Poke(m, d + k + 1, m[s + k + 1..s + n]);
      p[s + k] == m[s + k] && p[d + k := p[s + k]] == Poke(m, d + k, m[s + k..s + n])
  {
  }

  lemma {:induction false} PokeAppend<T>(m: seq<T>, d: nat, s: nat, i: nat)
    requires d + i < |m| && s + i < |m| && d < s
    ensures var p := Poke(m, d, m[s..s + i]);
      p[s + i] == m[s + i] && p[d + i := p[s + i]] == Poke(m, d, m[s..s + i + 1])
  {
  }

  /** `memmove` (and `memmove32`) inside one block. */
  method MemMove<T>(mem: array<T>, d: nat, s: nat, n: nat)
    requires d + n <= mem.Length && s + n <= mem.Length
    modifies mem
    ensures mem[..] == Moved(old(mem[..]), d, s, n)
  {
    hide Poke;
    ghost var was := old(mem[..]);
    if s == d {
      PokeSame(was, d, n);
      return;
    }
    if d > s {
      var k := n;
      PokeNothing(was, d + n, s + n);
      while k > 0
        invariant 0 <= k <= n
        invariant mem[..] == Poke(was, d + k, was[s + k..s + n])
      {
        k := k - 1;
        PokePrepend(was, d, s, k, n);
        mem[d + k] := mem[s + k];
      }
    } else {
      var i := 0;
      PokeNothing(was, d, s);
      while i < n
        invariant 0 <= i <= n
        invariant mem[..] == Poke(was, d, was[s..s + i])
      {
        PokeAppend(was, d, s, i);
        mem[d + i] := mem[s + i];
        i := i + 1;
      }
    }
  }

  /** memcpy is a correct copy for every content exactly when the destination does not start
      inside the source range. `scroll_ln` copies downwards, so it is on the safe side. */
  lemma {:induction false} MemCpyCorrectIff(size: nat, d: nat, s: nat, n: nat)
    requires d + n <= size && s + n <= size
    ensures (forall m: seq<byte> | |m| == size :: ForwardCopied(m, d, s, n) == Moved(m, d, s, n))
        <==> !(s < d < s + n)
  {
    hide ForwardCopied, Moved;
    if s < d < s + n {
      var m: seq<byte> := seq(size, i => if i == d then 1 else 0);
      OverlapRepeats(m, d, s, n);
      assert m[s] != m[d];
    } else {
      forall m: seq<byte> | |m| == size
        ensures ForwardCopied(m, d, s, n) == Moved(m, d, s, n)
      {
        ForwardCopiedIsMoved(m, d, s, n);
      }
    }
  }

  /** Behind the first `d - s` elements the ascending copy puts the source's first element once more. */
  lemma {:induction false} OverlapRepeats<T>(m: seq<T>, d: nat, s: nat, n: nat)
    requires d + n <= |m| && s < d < s + n
    ensures ForwardCopied(m, d, s, n)[d + (d - s)] == m[s]
    ensures |Moved(m, d, s, n)| == |m| && Moved(m, d, s, n)[d + (d - s)] == m[d]
  {
    RepeatPeriod(d - s, d - s);
    assert m[s..s + n][d - s] == m[d];
  }

  lemma {:induction false} ForwardCopiedIsMoved<T>(m: seq<T>, d: nat, s: nat, n: nat)
    requires d + n <= |m| && s + n <= |m| && !(s < d < s + n)
    ensures ForwardCopied(m, d, s, n) == Moved(m, d, s, n)
  {
    var f, g := ForwardCopied(m, d, s, n), Moved(m, d, s, n);
    forall j | 0 <= j < |m|
      ensures f[j] == g[j]
    {
      if d <= j < d + n && d > s { RepeatPeriod(j - d, d - s); }
    }
  }
}
