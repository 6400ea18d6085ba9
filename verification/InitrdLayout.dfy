/** The ramdisk image: the layout that initrd/mkinitrd.c writes and initrd.c reads. */
module InitrdLayout {
  import opened CTypes
  import opened CMemory
  import opened CString

  const HEADER_SIZE := 76  // magic, name[64], three bytes of padding, offset, length
  const NAME_SIZE := 64
  const NAME_AT := 1
  const OFFSET_AT := 68
  const LENGTH_AT := 72
  const MAX_HEADERS := 64
  const TABLE_AT := 4      // behind the file count
  const TABLE_SIZE := 4864 // 64 headers
  const DATA_AT := 4868
  const MAGIC: byte := 0xBF

  /** A header as the loader reads it: its name is the C string in the name array. */
  datatype Header = Header(magic: int, name: seq<byte>, offset: int, length: int)

  datatype File = File(name: seq<byte>, content: seq<byte>)

  predicate ValidName(name: seq<byte>) { 1 <= |name| < NAME_SIZE && 0 !in name }

  ghost predicate ValidFiles(files: seq<File>) {
    |files| < MAX_HEADERS && forall i :: 0 <= i < |files| ==> ValidName(files[i].name)
  }

  ghost predicate DistinctNames(files: seq<File>) {
    forall i, j :: 0 <= i < j < |files| ==> files[i].name != files[j].name
  }

  /** Every name fits its array with a terminator: what the writer's `strcpy` needs. */
  predicate NamesFit(files: seq<File>) {
    forall i :: 0 <= i < |files| ==> |files[i].name| < NAME_SIZE
  }

  /** Where file `i` starts in the image: contents are packed in order behind the header table. */
  function Start(files: seq<File>, i: nat): (at: nat)
    requires i <= |files|
    ensures at >= DATA_AT
  {
    if i == 0 then DATA_AT else Start(files, i - 1) + |files[i - 1].content|
  }

  /** Where header `i` stands in the table, and in an image at `base`. */
  function Slot(i: nat): nat { 76 * i }
  function HeaderAddr(base: nat, i: nat): nat { base + 4 + Slot(i) }

  // ---------------------------------------------------------------- the writer's image

  /** A header's 76 bytes after the writer filled it in; `w` is what they held before. */
  function EncodeHeader(w: seq<byte>, f: File, off: u32): (r: seq<byte>)
    requires |w| == HEADER_SIZE && |f.name| < NAME_SIZE
    ensures |r| == HEADER_SIZE
  {
    var named := Poke(w, NAME_AT, f.name + [0]);
    var placed := Poke(named, OFFSET_AT, U32Bytes(off));
    var sized := Poke(placed, LENGTH_AT, U32Bytes(Wrap(|f.content|)));
    Poke(sized, 0, [MAGIC])
  }

  function WriteHeader(t: seq<byte>, h: nat, f: File, off: u32): (r: seq<byte>)
    requires h + HEADER_SIZE <= |t| && |f.name| < NAME_SIZE
    ensures |r| == |t|
  {
    Poke(t, h, EncodeHeader(t[h..h + HEADER_SIZE], f, off))
  }

  /** The header array after `k` files, over whatever bytes the uninitialised array held. */
  function Table(files: seq<File>, k: nat, stale: seq<byte>): (t: seq<byte>)
    requires k <= |files| <= MAX_HEADERS && |stale| == TABLE_SIZE
    requires NamesFit(files)
    ensures |t| == |stale|
  {
    if k == 0 then stale
    else WriteHeader(Table(files, k - 1, stale), Slot(k - 1), files[k - 1], Wrap(Start(files, k - 1)))
  }

  function Contents(files: seq<File>, k: nat): (c: seq<byte>)
    requires k <= |files|
    ensures |c| == Start(files, k) - DATA_AT
  {
    if k == 0 then [] else Contents(files, k - 1) + files[k - 1].content
  }

  function Image(count: u32, files: seq<File>, stale: seq<byte>): (img: seq<byte>)
    requires |files| <= MAX_HEADERS && |stale| == TABLE_SIZE
    requires NamesFit(files)
    ensures |img| == Start(files, |files|)
  {
    U32Bytes(count) + Table(files, |files|, stale) + Contents(files, |files|)
  }

  // ---------------------------------------------------------------- what an image at an address holds

  function DecodeHeader(w: seq<byte>): Header
    requires |w| == HEADER_SIZE
  {
    Header(w[0], if Terminated(w, NAME_AT) then CStr(w, NAME_AT) else w[NAME_AT..],
           LoadU32(w, OFFSET_AT), LoadU32(w, LENGTH_AT))
  }

  /** The header in memory at `h`. */
  function HeaderOf(m: seq<byte>, h: nat): Header
    requires h + HEADER_SIZE <= |m|
  {
    DecodeHeader(m[h..h + HEADER_SIZE])
  }

  /** The header that file `i` must have, its offset counted from `bias`. */
  function HeaderFor(files: seq<File>, i: nat, bias: nat): Header
    requires i < |files|
  {
    Header(MAGIC, files[i].name, Start(files, i) + bias, |files[i].content|)
  }

  /** Memory `m` holds the archive of `files` at `base`, with the first `k` headers relocated. */
  ghost predicate Holds(m: seq<byte>, base: nat, files: seq<File>, k: nat) {
    && ValidFiles(files) && k <= |files|
    && base + Start(files, |files|) <= |m|
    && LoadU32(m, base) == |files|
    && (forall i :: 0 <= i < |files| ==> HeaderHeld(m, base, files, i, k))
    && (forall i :: 0 <= i < |files| ==> ContentAt(m, base, files, i))
  }

  predicate HeaderHeld(m: seq<byte>, base: nat, files: seq<File>, i: nat, k: nat)
    requires i < |files|
  {
    && HeaderAddr(base, i + 1) <= |m|
    && HeaderOf(m, HeaderAddr(base, i)) == HeaderFor(files, i, if i < k then base else 0)
  }

  predicate ContentAt(m: seq<byte>, base: nat, files: seq<File>, i: nat)
    requires i < |files|
  {
    && base + Start(files, i) + |files[i].content| <= |m|
    && m[base + Start(files, i)..base + Start(files, i) + |files[i].content|] == files[i].content
  }

  /** File regions are packed: in order, disjoint, behind the table and inside the image. */
  lemma {:induction false} RegionsPacked(files: seq<File>, i: nat, j: nat)
    requires i < j <= |files|
    ensures DATA_AT <= Start(files, i) && Start(files, i) + |files[i].content| <= Start(files, j)
    ensures j == i + 1 ==> Start(files, i) + |files[i].content| == Start(files, j)
  {
    if i + 1 < j { RegionsPacked(files, i, j - 1); }
  }

  /** What the loader reads out of a header in memory, field by field. */
  lemma {:induction false} HeaderFields(m: seq<byte>, h: nat)
    requires h + HEADER_SIZE <= |m| && ValidName(HeaderOf(m, h).name)
    ensures HoldsStr(m, h + NAME_AT, HeaderOf(m, h).name)
    ensures LoadU32(m, h + OFFSET_AT) == HeaderOf(m, h).offset && LoadU32(m, h + LENGTH_AT) == HeaderOf(m, h).length
  {
    hide LoadU32, CStr;
    var w := m[h..h + HEADER_SIZE];
    var name := DecodeHeader(w).name;
    assert HoldsStr(w, NAME_AT, name);
    SubWindow(m, h, w, NAME_AT, |name|);
    SubWindow(m, h, w, NAME_AT + |name|, 1);
    assert m[h + NAME_AT + |name|] == m[h + NAME_AT + |name|..h + NAME_AT + |name| + 1][0];
    SubWindow(m, h, w, OFFSET_AT, 4);
    SubWindow(m, h, w, LENGTH_AT, 4);
    LoadSame(m, h + OFFSET_AT, w, OFFSET_AT);
    LoadSame(m, h + LENGTH_AT, w, LENGTH_AT);
  }

  /** The loader decodes what the writer encoded, whatever the header held before. */
  lemma {:induction false} HeaderRoundTrip(w: seq<byte>, f: File, off: u32)
    requires |w| == HEADER_SIZE && ValidName(f.name) && |f.content| < TWO32
    ensures DecodeHeader(EncodeHeader(w, f, off)) == Header(MAGIC, f.name, off, |f.content|)
  {
    hide LittleEndian, CStr, LoadU32, Poke;
    WrapSmall(|f.content|);
    var str, ob, lb := f.name + [0], U32Bytes(off), U32Bytes(|f.content|);
    var named := Poke(w, NAME_AT, str);
    var placed := Poke(named, OFFSET_AT, ob);
    var sized := Poke(placed, LENGTH_AT, lb);
    var r := Poke(sized, 0, [MAGIC]);
    var z := NAME_AT + |str|;
    PokeInside(w, NAME_AT, str);
    PokeInside(named, OFFSET_AT, ob);
    PokeInside(placed, LENGTH_AT, lb);
    PokeInside(sized, 0, [MAGIC]);
    PokeOutside(named, OFFSET_AT, ob, NAME_AT, z);
    PokeOutside(placed, LENGTH_AT, lb, NAME_AT, z);
    PokeOutside(placed, LENGTH_AT, lb, OFFSET_AT, OFFSET_AT + 4);
    PokeOutside(sized, 0, [MAGIC], NAME_AT, z);
    PokeOutside(sized, 0, [MAGIC], OFFSET_AT, OFFSET_AT + 4);
    PokeOutside(sized, 0, [MAGIC], LENGTH_AT, LENGTH_AT + 4);
    assert r[0..1][0] == MAGIC;
    StringStands(r, NAME_AT, f.name);
    LoadStored(r, OFFSET_AT, off);
    LoadStored(r, LENGTH_AT, |f.content|);
  }

  lemma {:induction false} StringStands(m: seq<byte>, p: nat, s: seq<byte>)
    requires p + |s| < |m| && m[p..p + |s| + 1] == s + [0] && 0 !in s
    ensures Terminated(m, p) && CStr(m, p) == s
  {
    hide CStr;
    SubWindow(m, p, s + [0], 0, |s|);
    SubWindow(m, p, s + [0], |s|, 1);
    assert m[p + |s|..p + |s| + 1][0] == 0;
    CStrUnique(m, p, s);
  }

  lemma {:induction false} HeaderWritten(t: seq<byte>, h: nat, f: File, off: u32)
    requires h + HEADER_SIZE <= |t| && ValidName(f.name) && |f.content| < TWO32
    ensures HeaderOf(WriteHeader(t, h, f, off), h) == Header(MAGIC, f.name, off, |f.content|)
  {
    var e := EncodeHeader(t[h..h + HEADER_SIZE], f, off);
    HeaderRoundTrip(t[h..h + HEADER_SIZE], f, off);
    assert WriteHeader(t, h, f, off)[h..h + HEADER_SIZE] == e;
  }

  lemma {:induction false} WriteKeepsHeader(t: seq<byte>, h: nat, f: File, off: u32, h': nat)
    requires h + HEADER_SIZE <= |t| && |f.name| < NAME_SIZE
    requires h' + HEADER_SIZE <= h || h + HEADER_SIZE <= h' <= |t| - HEADER_SIZE
    ensures HeaderOf(WriteHeader(t, h, f, off), h') == HeaderOf(t, h')
  {
    hide DecodeHeader, EncodeHeader, Poke;
    PokeOutside(t, h, EncodeHeader(t[h..h + HEADER_SIZE], f, off), h', h' + HEADER_SIZE);
  }

  lemma {:induction false} TableHolds(files: seq<File>, k: nat, stale: seq<byte>, i: nat)
    requires ValidFiles(files) && i < k <= |files| && |stale| == TABLE_SIZE
    requires Start(files, |files|) < TWO32
    ensures HeaderOf(Table(files, k, stale), Slot(i)) == HeaderFor(files, i, 0)
  {
    hide EncodeHeader, HeaderOf, WriteHeader;
    RegionsPacked(files, k - 1, |files|);
    var t := Table(files, k - 1, stale);
    var f, off := files[k - 1], Wrap(Start(files, k - 1));
    if i == k - 1 {
      HeaderWritten(t, Slot(k - 1), f, off);
    } else {
      TableHolds(files, k - 1, stale, i);
      WriteKeepsHeader(t, Slot(k - 1), f, off, Slot(i));
    }
  }

  lemma {:induction false} ContentsHold(files: seq<File>, k: nat, i: nat)
    requires i < k <= |files|
    ensures var at := Start(files, i) - DATA_AT;
      at + |files[i].content| <= |Contents(files, k)| && Contents(files, k)[at..at + |files[i].content|] == files[i].content
  {
    if i < k - 1 {
      ContentsHold(files, k - 1, i);
    }
  }

  /** Writer meets reader: wherever the image of `files` is placed, memory holds the archive. */
  lemma {:induction false} ImageHolds(files: seq<File>, stale: seq<byte>, m: seq<byte>, base: nat)
    requires ValidFiles(files) && |stale| == TABLE_SIZE
    requires Start(files, |files|) < TWO32
    requires var img := Image(|files|, files, stale);
      base + |img| <= |m| && m[base..base + |img|] == img
    ensures Holds(m, base, files, 0)
  {
    var n := |files|;
    var img := Image(n, files, stale);
    assert m[base..base + 4] == img[..4] == U32Bytes(n);
    LoadStored(m, base, n);
    forall i | 0 <= i < n
      ensures HeaderHeld(m, base, files, i, 0)
    {
      ImageHeader(files, stale, m, base, i);
    }
    forall i | 0 <= i < n
      ensures ContentAt(m, base, files, i)
    {
      ImageContent(files, stale, m, base, i);
    }
  }

  lemma {:induction false} MiddlePart<T>(a: seq<T>, b: seq<T>, c: seq<T>, at: nat, len: nat)
    requires at + len <= |b|
    ensures (a + b + c)[|a| + at..|a| + at + len] == b[at..at + len]
  {
  }

  lemma {:induction false} LastPart<T>(a: seq<T>, b: seq<T>, c: seq<T>, at: nat, len: nat)
    requires at + len <= |c|
    ensures (a + b + c)[|a| + |b| + at..|a| + |b| + at + len] == c[at..at + len]
  {
  }

  lemma {:induction false} ImageHeader(files: seq<File>, stale: seq<byte>, m: seq<byte>, base: nat, i: nat)
    requires ValidFiles(files) && |stale| == TABLE_SIZE && i < |files|
    requires Start(files, |files|) < TWO32
    requires var img := Image(|files|, files, stale);
      base + |img| <= |m| && m[base..base + |img|] == img
    ensures HeaderHeld(m, base, files, i, 0)
  {
    hide DecodeHeader, Start, Table, Contents, LittleEndian, HeaderFor;
    var img := Image(|files|, files, stale);
    var t := Table(files, |files|, stale);
    TableHolds(files, |files|, stale, i);
    var h := Slot(i);
    MiddlePart(U32Bytes(|files|), t, Contents(files, |files|), h, HEADER_SIZE);
    assert TABLE_AT + h + HEADER_SIZE <= |img|;
    SubWindow(m, base, img, TABLE_AT + h, HEADER_SIZE);
  }

  lemma {:induction false} ImageContent(files: seq<File>, stale: seq<byte>, m: seq<byte>, base: nat, i: nat)
    requires ValidFiles(files) && |stale| == TABLE_SIZE && i < |files| < TWO32
    requires var img := Image(|files|, files, stale);
      base + |img| <= |m| && m[base..base + |img|] == img
    ensures ContentAt(m, base, files, i)
  {
    hide Start, Table, Contents, LittleEndian;
    var img := Image(|files|, files, stale);
    var c := Contents(files, |files|);
    ContentsHold(files, |files|, i);
    var at, len := Start(files, i), |files[i].content|;
    LastPart(U32Bytes(|files|), Table(files, |files|, stale), c, at - DATA_AT, len);
    SubWindow(m, base, img, at, len);
  }

  /** The image byte by byte where it matters: the count at 0, header `i` at 4 + 76*i with its magic at 0, its
      name at 1, its offset at 68 and its length at 72, the first file at 4868 and each file at its offset. */
  lemma {:induction false} ImageLayout(files: seq<File>, stale: seq<byte>, i: nat)
    requires ValidFiles(files) && |stale| == TABLE_SIZE && i < |files|
    requires Start(files, |files|) < TWO32
    ensures var img, h, f := Image(|files|, files, stale), 4 + 76 * i, files[i];
      && h + 76 <= 4868 <= |img| && LoadU32(img, 0) == |files|
      && img[h] == 0xBF && HoldsStr(img, h + 1, f.name)
      && LoadU32(img, h + 68) == Start(files, i) && LoadU32(img, h + 72) == |f.content|
      && Start(files, i) + |f.content| <= |img| && img[Start(files, i)..Start(files, i) + |f.content|] == f.content
      && Start(files, 0) == 4868
  {
    hide Image, LoadU32, HoldsStr, Table, LittleEndian;
    var img := Image(|files|, files, stale);
    ImageHolds(files, stale, img, 0);
    assert HeaderHeld(img, 0, files, i, 0) && ContentAt(img, 0, files, i);
    HeaderFields(img, HeaderAddr(0, i));
  }

  // ---------------------------------------------------------------- relocation

  function OffsetField(base: nat, i: nat): nat { HeaderAddr(base, i) + OFFSET_AT }

  /** `file_headers[i].offset += location` */
  function AddBase(m: seq<byte>, base: nat, i: nat): (r: seq<byte>)
    requires HeaderAddr(base, i + 1) <= |m|
    ensures |r| == |m|
  {
    var a := OffsetField(base, i);
    Poke(m, a, U32Bytes(Wrap(LoadU32(m, a) + base)))
  }

  lemma {:induction false} AddBaseElsewhere(m: seq<byte>, base: nat, i: nat, lo: nat, hi: nat)
    requires HeaderAddr(base, i + 1) <= |m| && lo <= hi <= |m|
    requires hi <= OffsetField(base, i) || OffsetField(base, i) + 4 <= lo
    ensures AddBase(m, base, i)[lo..hi] == m[lo..hi]
  {
    PokeOutside(m, OffsetField(base, i), U32Bytes(Wrap(LoadU32(m, OffsetField(base, i)) + base)), lo, hi);
  }

  lemma {:induction false} AddBaseLoad(m: seq<byte>, base: nat, i: nat, c: nat)
    requires HeaderAddr(base, i + 1) <= |m| && c + 4 <= |m|
    requires var a := OffsetField(base, i); c == a || c + 4 <= a || a + 4 <= c
    ensures LoadU32(AddBase(m, base, i), c) == if c == OffsetField(base, i) then Wrap(LoadU32(m, c) + base) else LoadU32(m, c)
  {
    LoadAfterPoke(m, OffsetField(base, i), Wrap(LoadU32(m, OffsetField(base, i)) + base), c);
  }

  /** Memory after the loader has added `base` to the first `k` header offsets. */
  function Relocated(m: seq<byte>, base: nat, k: nat): (r: seq<byte>)
    requires HeaderAddr(base, k) <= |m|
    ensures |r| == |m|
  {
    if k == 0 then m else AddBase(Relocated(m, base, k - 1), base, k - 1)
  }

  /** Relocation adds `base` to exactly the first `k` offset fields ... */
  lemma {:induction false} RelocatedOffset(m: seq<byte>, base: nat, k: nat, i: nat)
    requires HeaderAddr(base, k) <= |m| && HeaderAddr(base, i + 1) <= |m|
    ensures LoadU32(Relocated(m, base, k), OffsetField(base, i))
         == if i < k then Wrap(LoadU32(m, OffsetField(base, i)) + base) else LoadU32(m, OffsetField(base, i))
  {
    hide AddBase, LoadU32, Wrap;
    if k > 0 {
      RelocatedOffset(m, base, k - 1, i);
      assert Relocated(m, base, k) == AddBase(Relocated(m, base, k - 1), base, k - 1);
      AddBaseLoad(Relocated(m, base, k - 1), base, k - 1, OffsetField(base, i));
    }
  }

  /** ... and changes no other byte. */
  lemma {:induction false} RelocatedElsewhere(m: seq<byte>, base: nat, k: nat, j: nat)
    requires HeaderAddr(base, k) <= |m| && j < |m|
    requires forall i :: 0 <= i < k ==> !(OffsetField(base, i) <= j < OffsetField(base, i) + 4)
    ensures Relocated(m, base, k)[j] == m[j]
  {
    if k > 0 {
      RelocatedElsewhere(m, base, k - 1, j);
      assert !(OffsetField(base, k - 1) <= j < OffsetField(base, k - 1) + 4);
      AddBaseElsewhere(Relocated(m, base, k - 1), base, k - 1, j, j + 1);
      var p, r := Relocated(m, base, k - 1), Relocated(m, base, k);
      assert r[j..j + 1][0] == p[j..j + 1][0];
    }
  }

  /** A window that meets no offset field keeps its bytes. */
  lemma {:induction false} RelocatedWindow(m: seq<byte>, base: nat, k: nat, lo: nat, hi: nat)
    requires HeaderAddr(base, k) <= |m| && lo <= hi <= |m|
    requires hi <= base + TABLE_AT || HeaderAddr(base, k) <= lo
    ensures Relocated(m, base, k)[lo..hi] == m[lo..hi]
  {
    if k > 0 {
      RelocatedWindow(m, base, k - 1, lo, hi);
      AddBaseElsewhere(Relocated(m, base, k - 1), base, k - 1, lo, hi);
    }
  }

  /** One loop iteration rebases its own header and leaves every other header as it was. */
  lemma {:induction false} AddBaseHeader(m: seq<byte>, base: nat, k: nat, i: nat)
    requires HeaderAddr(base, k + 1) <= |m| && HeaderAddr(base, i + 1) <= |m|
    requires ValidName(HeaderOf(m, HeaderAddr(base, i)).name)
    ensures var d := HeaderOf(m, HeaderAddr(base, i));
      HeaderOf(AddBase(m, base, k), HeaderAddr(base, i)) == if i == k then d.(offset := Wrap(d.offset + base)) else d
  {
    hide DecodeHeader, Poke;
    var h := HeaderAddr(base, i);
    if i == k {
      HeaderFields(m, h);
      HeaderRebased(m, h, Wrap(HeaderOf(m, h).offset + base));
    } else {
      AddBaseElsewhere(m, base, k, h, h + HEADER_SIZE);
    }
  }

  lemma {:induction false} HeaderRebased(m: seq<byte>, h: nat, v: u32)
    requires h + HEADER_SIZE <= |m| && ValidName(HeaderOf(m, h).name)
    ensures HeaderOf(Poke(m, h + OFFSET_AT, U32Bytes(v)), h) == HeaderOf(m, h).(offset := v)
  {
    var b := U32Bytes(v);
    var w := m[h..h + HEADER_SIZE];
    var w' := Poke(m, h + OFFSET_AT, b)[h..h + HEADER_SIZE];
    assert w' == Poke(w, OFFSET_AT, b);
    LoadAfterPoke(w, OFFSET_AT, v, OFFSET_AT);
    LoadAfterPoke(w, OFFSET_AT, v, LENGTH_AT);
    var name := HeaderOf(m, h).name;
    assert HoldsStr(w, NAME_AT, name);
    PokeOutside(w, OFFSET_AT, b, NAME_AT, NAME_AT + |name|);
    CStrUnique(w', NAME_AT, name);
  }

  /** The loop leaves names and lengths alone and rebases exactly the first `k` headers. */
  lemma {:induction false} RelocatedHeader(m: seq<byte>, base: nat, k: nat, i: nat)
    requires HeaderAddr(base, k) <= |m| && HeaderAddr(base, i + 1) <= |m|
    requires ValidName(HeaderOf(m, HeaderAddr(base, i)).name)
    ensures var d := HeaderOf(m, HeaderAddr(base, i));
      HeaderOf(Relocated(m, base, k), HeaderAddr(base, i)) == if i < k then d.(offset := Wrap(d.offset + base)) else d
  {
    hide AddBase, HeaderOf;
    if k > 0 {
      RelocatedHeader(m, base, k - 1, i);
      AddBaseHeader(Relocated(m, base, k - 1), base, k - 1, i);
    }
  }

  /** After relocation the archive is still all there, now with absolute addresses. */
  lemma {:induction false} RelocatedHolds(m: seq<byte>, base: nat, files: seq<File>, k: nat)
    requires Holds(m, base, files, 0) && k <= |files|
    requires base + Start(files, |files|) < TWO32
    ensures HeaderAddr(base, k) <= |m| && Holds(Relocated(m, base, k), base, files, k)
  {
    hide HeaderHeld, ContentAt, Relocated;
    var r := Relocated(m, base, k);
    RelocatedWindow(m, base, k, base, base + 4);
    LoadSame(m, base, r, base);
    forall i | 0 <= i < |files|
      ensures HeaderHeld(r, base, files, i, k)
    {
      RelocatedHeaderHeld(m, base, files, k, i);
    }
    forall i | 0 <= i < |files|
      ensures ContentAt(r, base, files, i)
    {
      RelocatedContent(m, base, files, k, i);
    }
  }

  lemma {:induction false} RelocatedHeaderHeld(m: seq<byte>, base: nat, files: seq<File>, k: nat, i: nat)
    requires Holds(m, base, files, 0) && k <= |files| && i < |files|
    requires base + Start(files, |files|) < TWO32
    ensures HeaderHeld(Relocated(m, base, k), base, files, i, k)
  {
    hide HeaderOf, Relocated, ContentAt;
    assert HeaderHeld(m, base, files, i, 0);
    RegionsPacked(files, i, |files|);
    RelocatedHeader(m, base, k, i);
    WrapSmall(Start(files, i) + base);
  }

  lemma {:induction false} RelocatedContent(m: seq<byte>, base: nat, files: seq<File>, k: nat, i: nat)
    requires Holds(m, base, files, 0) && k <= |files| && i < |files|
    ensures ContentAt(Relocated(m, base, k), base, files, i)
  {
    hide Relocated, HeaderHeld;
    assert ContentAt(m, base, files, i);
    RelocatedWindow(m, base, k, base + Start(files, i), base + Start(files, i) + |files[i].content|);
  }
}
