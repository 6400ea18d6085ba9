/** The ramdisk driver (initrd.c) and the file system calls that dispatch to it (filesystem.c). */
module Initrd {
  import opened CTypes
  import opened CMemory
  import opened CString
  import opened InitrdLayout
  import opened FileSystem

  const DEV := Bytes("dev")

  /** The least index at which `key` stands. */
  function FirstIndex(names: seq<seq<byte>>, key: seq<byte>): (r: Option<nat>)
    ensures r.Some? <==> key in names
    ensures r.Some? ==> r.value < |names| && names[r.value] == key && key !in names[..r.value]
  {
    if names == [] then None
    else if names[0] == key then Some(0)
    else match FirstIndex(names[1..], key)
      case None => None
      case Some(i) => assert names[..i + 1] == [names[0]] + names[1..][..i]; Some(i + 1)
  }

  /** What `initrd_read` returns, in 32-bit arithmetic as the code has it. */
  function ReadCount(length: u32, offset: u32, size: u32): u32
  {
    if offset > length then 0
    else if Wrap(offset + size) > length then length - offset
    else size
  }

  /** What a read should return: what is left of the file, at most `size` bytes. */
  function Clamped(length: u32, offset: u32, size: u32): u32
  {
    if offset > length then 0 else if size <= length - offset then size else length - offset
  }

  /** The code clamps right exactly when `offset+size` does not wrap, or the offset is past the end. */
  lemma {:induction false} ReadCountIff(length: u32, offset: u32, size: u32)
    ensures ReadCount(length, offset, size) == Clamped(length, offset, size) <==> offset > length || offset + size < TWO32
    ensures offset <= length && offset + size >= TWO32 ==> ReadCount(length, offset, size) == size > length - offset
  {
  }

  function LengthAt(m: seq<byte>, base: nat, i: nat): u32
    requires HeaderAddr(base, i + 1) <= |m|
  {
    LoadU32(m, HeaderAddr(base, i) + LENGTH_AT)
  }

  /** The address of byte `offset` of file `i`. */
  function AddressOf(m: seq<byte>, base: nat, i: nat, offset: u32): u32
    requires HeaderAddr(base, i + 1) <= |m|
  {
    Wrap(LoadU32(m, OffsetField(base, i)) + offset)
  }

  /** The bytes of such a read are all inside memory; past the end of the file nothing is read. */
  predicate Reachable(m: seq<byte>, base: nat, i: nat, offset: u32, size: u32) {
    && HeaderAddr(base, i + 1) <= |m|
    && (offset <= LengthAt(m, base, i) ==> ReadsInside(m, base, i, offset, size))
  }

  predicate ReadsInside(m: seq<byte>, base: nat, i: nat, offset: u32, size: u32)
    requires HeaderAddr(base, i + 1) <= |m|
  {
    AddressOf(m, base, i, offset) + ReadCount(LengthAt(m, base, i), offset, size) <= |m|
  }

  /** What a read of file `i` copies out of memory. */
  function ReadBytes(m: seq<byte>, base: nat, i: nat, offset: u32, size: u32): (r: seq<byte>)
    requires Reachable(m, base, i, offset, size)
    ensures |r| == ReadCount(LengthAt(m, base, i), offset, size)
  {
    if offset > LengthAt(m, base, i) then []
    else
      var a := AddressOf(m, base, i, offset);
      m[a..a + ReadCount(LengthAt(m, base, i), offset, size)]
  }

  /** In a loaded archive a read returns the file's own bytes, as many as are left, at most `size`, and past
      the end it is always possible and returns nothing. */
  lemma {:induction false} ReadServed(m: seq<byte>, base: nat, files: seq<File>, i: nat, offset: u32, size: u32)
    requires Holds(m, base, files, |files|) && base + Start(files, |files|) < TWO32 && i < |files|
    requires offset > |files[i].content| || offset + size < TWO32
    ensures Reachable(m, base, i, offset, size) && LengthAt(m, base, i) == |files[i].content|
    ensures var n := Clamped(|files[i].content|, offset, size);
      ReadBytes(m, base, i, offset, size) == if offset > |files[i].content| then [] else files[i].content[offset..offset + n]
  {
    hide LoadU32, Holds, HeaderOf, Start;
    ServedHeader(m, base, files, i);
    if offset > |files[i].content| {
      return;
    }
    ReadCountIff(|files[i].content|, offset, size);
    var n := Clamped(|files[i].content|, offset, size);
    WrapSmall(base + Start(files, i) + offset);
    SubWindow(m, base + Start(files, i), files[i].content, offset, n);
  }

  lemma {:induction false} ServedHeader(m: seq<byte>, base: nat, files: seq<File>, i: nat)
    requires Holds(m, base, files, |files|) && base + Start(files, |files|) < TWO32 && i < |files|
    ensures HeaderAddr(base, i + 1) <= |m| && ContentAt(m, base, files, i)
    ensures LoadU32(m, OffsetField(base, i)) == base + Start(files, i)
    ensures LengthAt(m, base, i) == |files[i].content|
    ensures base + Start(files, i) + |files[i].content| < TWO32
  {
    hide HeaderOf, ContentAt, LoadU32;
    assert HeaderHeld(m, base, files, i, |files|);
    assert ContentAt(m, base, files, i);
    HeaderFields(m, HeaderAddr(base, i));
    RegionsPacked(files, i, |files|);
  }

  /** The address given for a byte of a served file is where that byte stands; one past the end, it is the
      end of the file's region. */
  lemma {:induction false} AddressServed(m: seq<byte>, base: nat, files: seq<File>, i: nat, offset: u32)
    requires Holds(m, base, files, |files|) && base + Start(files, |files|) < TWO32 && i < |files|
    requires offset <= |files[i].content|
    ensures HeaderAddr(base, i + 1) <= |m| && LengthAt(m, base, i) == |files[i].content|
    ensures var a := AddressOf(m, base, i, offset);
      a == base + Start(files, i) + offset && (offset < |files[i].content| ==> a < |m| && m[a] == files[i].content[offset])
  {
    hide LoadU32, Holds, Start;
    ServedHeader(m, base, files, i);
    var at := base + Start(files, i);
    WrapSmall(at + offset);
    assert m[at..at + |files[i].content|] == files[i].content;
  }

  /** Reads that each start where the one before stopped. */
  function Chunks(m: seq<byte>, base: nat, i: nat, offset: u32, sizes: seq<u32>): (r: seq<byte>)
    ensures sizes == [] ==> r == []
    decreases |sizes|
  {
    if sizes == [] || !Reachable(m, base, i, offset, sizes[0]) then []
    else
      var r := ReadBytes(m, base, i, offset, sizes[0]);
      r + Chunks(m, base, i, Wrap(offset + |r|), sizes[1..])
  }

  function Sum(sizes: seq<u32>): nat
  {
    if sizes == [] then 0 else sizes[0] + Sum(sizes[1..])
  }

  /** No read of the sequence has its `offset+size` wrap. */
  predicate NoneWraps(length: u32, offset: u32, sizes: seq<u32>)
    requires offset <= length
    decreases |sizes|
  {
    sizes == [] || (offset + sizes[0] < TWO32 && NoneWraps(length, offset + Clamped(length, offset, sizes[0]), sizes[1..]))
  }

  /** Chunked reading gives back the file from `offset` on, without gap or overlap: all of it as
      soon as the sizes add up to what is left. */
  lemma {:induction false} ChunksServed(m: seq<byte>, base: nat, files: seq<File>, i: nat, offset: u32, sizes: seq<u32>)
    requires Holds(m, base, files, |files|) && base + Start(files, |files|) < TWO32 && i < |files|
    requires offset <= |files[i].content| < TWO32 && NoneWraps(|files[i].content|, offset, sizes)
    ensures var c := files[i].content;
      Chunks(m, base, i, offset, sizes) == if offset + Sum(sizes) >= |c| then c[offset..] else c[offset..offset + Sum(sizes)]
    decreases |sizes|
  {
    hide Holds, Chunks, Start, HeaderOf, Clamped, Sum;
    var c := files[i].content;
    if sizes != [] {
      ChunkStep(m, base, files, i, offset, sizes);
      var n := Clamped(|c|, offset, sizes[0]);
      ClampedEnds(|c|, offset, sizes[0]);
      ChunksServed(m, base, files, i, offset + n, sizes[1..]);
      SumStep(sizes);
      Joined(c, offset, sizes[0], Sum(sizes[1..]));
    } else {
      ChunkNone(m, base, i, offset);
      NothingLeft(c, offset);
    }
  }

  lemma {:induction false} ChunkStep(m: seq<byte>, base: nat, files: seq<File>, i: nat, offset: u32, sizes: seq<u32>)
    requires Holds(m, base, files, |files|) && base + Start(files, |files|) < TWO32 && i < |files| && sizes != []
    requires offset <= |files[i].content| < TWO32 && offset + sizes[0] < TWO32
    ensures var c := files[i].content;
      var n := Clamped(|c|, offset, sizes[0]);
      Chunks(m, base, i, offset, sizes) == c[offset..offset + n] + Chunks(m, base, i, offset + n, sizes[1..])
  {
    hide Holds, ReadBytes, Reachable, Start;
    ReadServed(m, base, files, i, offset, sizes[0]);
    WrapSmall(offset + Clamped(|files[i].content|, offset, sizes[0]));
  }

  lemma {:induction false} ChunkNone(m: seq<byte>, base: nat, i: nat, offset: u32)
    ensures Chunks(m, base, i, offset, []) == []
  {
  }

  lemma {:induction false} ClampedEnds(length: u32, offset: u32, size: u32)
    requires offset <= length
    ensures var n := Clamped(length, offset, size);
      n <= length - offset && (if n < size then offset + n == length else n == size)
  {
  }

  lemma {:induction false} SumStep(sizes: seq<u32>)
    requires sizes != []
    ensures Sum(sizes) == sizes[0] + Sum(sizes[1..])
  {
  }

  lemma {:induction false} NothingLeft(c: seq<byte>, offset: nat)
    requires offset <= |c|
    ensures Sum([]) == 0 && c[offset..offset] == [] && (offset == |c| ==> c[offset..] == [])
  {
  }

  /** What one read gives and what is read after it join without a seam. */
  lemma {:induction false} Joined(c: seq<byte>, offset: u32, size: u32, more: nat)
    requires offset <= |c| < TWO32
    ensures var n := Clamped(|c|, offset, size);
      && n <= |c| - offset
      && c[offset..offset + n] + (if offset + n + more >= |c| then c[offset + n..] else c[offset + n..offset + n + more])
         == if offset + size + more >= |c| then c[offset..] else c[offset..offset + size + more]
  {
    var n := Clamped(|c|, offset, size);
    SplitAt(c, offset, offset + n, more);
    if n < size { assert c[offset..offset + n] == c[offset..]; }
  }

  lemma {:induction false} SplitAt(c: seq<byte>, lo: nat, mid: nat, more: nat)
    requires lo <= mid <= |c|
    ensures c[lo..mid] + (if mid + more >= |c| then c[mid..] else c[mid..mid + more])
         == if mid + more >= |c| then c[lo..] else c[lo..mid + more]
  {
  }

  /** All headers of the table can be read, and every name is a C string the name arrays can take. */
  ghost predicate Loadable(m: seq<byte>, base: nat, n: nat) {
    && HeaderAddr(base, n) <= |m|
    && forall i :: 0 <= i < n ==> ValidName(TableName(m, base, i))
  }

  function TableName(m: seq<byte>, base: nat, i: nat): seq<byte>
    requires HeaderAddr(base, i + 1) <= |m|
  {
    HeaderOf(m, HeaderAddr(base, i)).name
  }

  /** A C string literal in memory of its own. */
  method Literal(s: seq<byte>) returns (a: array<byte>)
    requires 0 !in s
    ensures fresh(a) && a.Length == |s| + 1 && HoldsStr(a[..], 0, s)
  {
    var t := s + [0];
    a := new byte[|s| + 1](i requires 0 <= i < |t| => t[i]);
    assert a[..] == t;
  }

  /** `strcpy` into a name array that is still all zero: only so does the copy come out terminated. */
  method CopyName(dest: array<byte>, src: array<byte>, s: nat, ghost name: seq<byte>)
    requires dest != src && dest.Length == NAME_MAX && HoldsStr(src[..], s, name) && ValidName(name)
    requires forall k :: 0 <= k < dest.Length ==> dest[k] == 0
    modifies dest
    ensures HoldsStr(dest[..], 0, name)
  {
    ghost var was := dest[..];
    StrCpySource(src[..], s, name);
    StrCpy(dest, 0, src, s);
    StrCpyTerminatedIff(was, 0, name);
  }

  lemma {:induction false} StrCpySource(m: seq<byte>, s: nat, name: seq<byte>)
    requires HoldsStr(m, s, name) && name != []
    ensures s < |m| && Terminated(m, s + 1) && [m[s]] + CStr(m, s + 1) == name
  {
    assert m[s + |name|] == 0;
    CStrUnique(m, s, name);
    StrCpyCopiesIff(m, s);
  }

  /** `strcpy(dirent.name, s); dirent.name[strlen(s)] = 0;` over whatever the array held. */
  method CopyAndTerminate(dest: array<byte>, src: array<byte>, ghost name: seq<byte>)
    requires dest != src && dest.Length == NAME_MAX && HoldsStr(src[..], 0, name) && ValidName(name)
    modifies dest
    ensures HoldsStr(dest[..], 0, name)
  {
    StrCpySource(src[..], 0, name);
    CStrUnique(src[..], 0, name);
    StrCpy(dest, 0, src, 0);
    ghost var copied := dest[..];
    var n := StrLen(src, 0);
    dest[n] := 0;
    assert dest[..] == copied[n := 0];
    assert dest[..][..n] == copied[..n] == name;
  }

  lemma {:induction false} FirstIndexIs(names: seq<seq<byte>>, key: seq<byte>, i: nat)
    requires i < |names| && names[i] == key && key !in names[..i]
    ensures FirstIndex(names, key) == Some(i)
  {
    var r := FirstIndex(names, key).value;
    forall k | 0 <= k < i ensures names[k] != key { assert names[k] in names[..i]; }
    forall k | 0 <= k < r ensures names[k] != key { assert names[k] in names[..r]; }
  }

  lemma {:induction false} HeldIsLoadable(m: seq<byte>, base: nat, files: seq<File>)
    requires Holds(m, base, files, 0)
    ensures base + 4 <= |m| && LoadU32(m, base) == |files| && Loadable(m, base, |files|)
  {
    hide HeaderOf, LoadU32, ContentAt;
    assert HeaderAddr(base, |files|) <= |m|;
    forall i | 0 <= i < |files|
      ensures ValidName(TableName(m, base, i))
    {
      assert HeaderHeld(m, base, files, i, 0);
      assert ValidName(files[i].name);
    }
  }

  lemma {:induction false} RelocatedNothing(m: seq<byte>, base: nat)
    requires base + 4 <= |m|
    ensures Relocated(m, base, 0) == m
  {
  }

  lemma {:induction false} RelocateStep(m: seq<byte>, base: nat, i: nat, n: nat)
    requires base + 4 <= |m| && Loadable(m, base, n) && i < n
    ensures HeaderAddr(base, i + 1) <= |m|
    ensures Relocated(m, base, i + 1) == AddBase(Relocated(m, base, i), base, i)
    ensures LoadU32(Relocated(m, base, i + 1), base) == LoadU32(m, base)
    ensures TableName(Relocated(m, base, i + 1), base, i) == TableName(m, base, i)
    ensures HeaderOf(Relocated(m, base, i + 1), HeaderAddr(base, i)).length == HeaderOf(m, HeaderAddr(base, i)).length
  {
    hide HeaderOf, AddBase, LoadU32;
    assert ValidName(TableName(m, base, i));
    RelocatedWindow(m, base, i + 1, base, base + 4);
    LoadSame(m, base, Relocated(m, base, i + 1), base);
    RelocatedHeader(m, base, i + 1, i);
  }

  class Driver {
    const ram: array<byte>          // memory, by address
    const dirent: Dirent            // the static directory entry all calls share
    var header: nat                 // initrd_header; file_headers is 4 bytes behind it
    var root: FsNode?
    var dev: FsNode?
    var rootNodes: seq<FsNode>
    var nrootNodes: u32
    ghost var names: seq<seq<byte>> // the file names, in table order

    ghost predicate Valid()
      reads this, dirent, root, dev, rootNodes, set n | n in rootNodes :: n.name
    {
      && root != null && dev != null && root != dev
      && IsDirectory(root) && IsDirectory(dev)
      && ram != dirent.name && dirent.name.Length == NAME_MAX
      && nrootNodes == |rootNodes| == |names|
      && HeaderAddr(header, |names|) <= ram.Length
      && forall i :: 0 <= i < |rootNodes| ==> IsFileNode(i)
    }

    static ghost predicate IsDirectory(n: FsNode)
      reads n
    {
      n.flags == FS_DIR && n.inode == 0 && n.readCb == Null && n.readdirCb == InitrdReaddir && n.finddirCb == InitrdFinddir
    }

    ghost predicate IsFileNode(i: nat)
      requires i < |rootNodes| == |names|
      reads this, dirent, rootNodes, set n | n in rootNodes :: n.name
    {
      var n := rootNodes[i];
      && n.name != dirent.name && n.name != ram
      && n.name.Length == NAME_MAX && HoldsStr(n.name[..], 0, names[i]) && ValidName(names[i])
      && n.inode == i && n.flags == FS_FILE && n.readCb == InitrdRead
      && n.readdirCb == Null && n.finddirCb == Null
      && n != root && n != dev
    }

    /** Node `i` repeats the name and length of header `i` of the table in `m`. */
    ghost predicate Mirrors(m: seq<byte>, base: nat, i: nat)
      requires i < |rootNodes| == |names| && HeaderAddr(base, i + 1) <= |m|
      reads this, rootNodes
    {
      var d := HeaderOf(m, HeaderAddr(base, i));
      names[i] == d.name && rootNodes[i].length == d.length
    }

    constructor (memory: array<byte>)
      ensures ram == memory && fresh(dirent) && fresh(dirent.name) && dirent.name.Length == NAME_MAX
      ensures rootNodes == [] && names == []
    {
      ram := memory;
      dirent := new Dirent();
      header, root, dev, rootNodes, nrootNodes, names := 0, null, null, [], 0, [];
    }

    // -------------------------------------------------------------- loading

    static lemma FixedNames()
      ensures ValidName(Bytes("initrd")) && ValidName(DEV)
    {
    }

    /** The assignments that make the root directory, and again those that make /dev. */
    static method DirNode(name: seq<byte>) returns (n: FsNode)
      requires ValidName(name)
      ensures fresh(n) && fresh(n.name) && IsDirectory(n)
      ensures n.flags == 2 && n.readCb == Null && n.readdirCb == InitrdReaddir && n.finddirCb == InitrdFinddir
      ensures n.writeCb == n.openCb == n.closeCb == Null && n.mask == n.uid == n.gid == n.impl == 0 && n.ptr == null
      ensures n.name.Length == NAME_MAX && HoldsStr(n.name[..], 0, name) && n.inode == n.length == 0
    {
      hide HoldsStr;
      n := new FsNode();
      var lit := Literal(name);
      CopyName(n.name, lit, 0, name);
      n.Fill(FS_DIR, 0, 0, Null, InitrdReaddir, InitrdFinddir);
    }

    /** The rest of one loop iteration: node `i` from header `i`. Its name is terminated only
        because the node's memory starts out zero. */
    method FileNode(i: u32) returns (n: FsNode)
      requires HeaderAddr(header, i + 1) <= ram.Length && ValidName(TableName(ram[..], header, i))
      ensures fresh(n) && fresh(n.name) && n.name.Length == NAME_MAX
      ensures HoldsStr(n.name[..], 0, TableName(ram[..], header, i))
      ensures n.writeCb == n.openCb == n.closeCb == Null && n.mask == n.uid == n.gid == n.impl == 0 && n.ptr == null
      ensures n.inode == i && n.flags == 1 && n.readCb == InitrdRead && n.readdirCb == Null && n.finddirCb == Null
      ensures n.length == HeaderOf(ram[..], HeaderAddr(header, i)).length
    {
      hide HeaderOf, HoldsStr, LoadU32;
      var h := HeaderAddr(header, i);
      HeaderFields(ram[..], h);
      n := new FsNode();
      CopyName(n.name, ram, h + NAME_AT, TableName(ram[..], header, i));
      n.Fill(FS_FILE, i, LoadU32(ram[..], h + LENGTH_AT), InitrdRead, Null, Null);
    }

    /** What the loop keeps: `i` headers rebased, and `i` nodes made from the original headers. */
    ghost predicate Loading(m: seq<byte>, location: nat, i: nat)
      reads this, dirent, ram, root, dev, rootNodes, set n | n in rootNodes :: n.name
    {
      && header == location && location + 4 <= |m| == ram.Length && Loadable(m, location, nrootNodes)
      && nrootNodes == LoadU32(m, location) == LoadU32(ram[..], location)
      && root != null && dev != null && root != dev && IsDirectory(root) && IsDirectory(dev)
      && ram != dirent.name && dirent.name.Length == NAME_MAX
      && |rootNodes| == |names| == i <= nrootNodes
      && ram[..] == Relocated(m, location, i)
      && (forall j :: 0 <= j < i ==> IsFileNode(j))
      && (forall j :: 0 <= j < i ==> Mirrors(m, location, j))
    }

    /** Header `i` is rebased; its name and length are the original ones. */
    method Rebase(location: u32, i: u32, ghost m: seq<byte>)
      requires i < nrootNodes && Loading(m, location, i)
      modifies ram
      ensures ram[..] == Relocated(m, location, i + 1)
      ensures LoadU32(ram[..], location) == LoadU32(m, location)
      ensures HeaderAddr(location, i + 1) <= |m|
      ensures TableName(ram[..], location, i) == TableName(m, location, i) && ValidName(TableName(m, location, i))
      ensures HeaderOf(ram[..], HeaderAddr(location, i)).length == HeaderOf(m, HeaderAddr(location, i)).length
    {
      hide HeaderOf, LoadU32, Mirrors, IsFileNode;
      RelocateStep(m, location, i, nrootNodes);
      var a := OffsetField(location, i);
      StoreU32(ram, a, Wrap(LoadU32(ram[..], a) + location));
    }

    /** One iteration: rebase header `i`, make node `i`. */
    method LoadOne(location: u32, i: u32, ghost m: seq<byte>)
      requires i < nrootNodes && Loading(m, location, i)
      modifies this, ram
      ensures nrootNodes == old(nrootNodes) && root == old(root) && dev == old(dev)
      ensures forall n :: n in rootNodes ==> n in old(rootNodes) || fresh(n.name)
      ensures Loading(m, location, i + 1)
    {
      hide HeaderOf, LoadU32, Relocated;
      Rebase(location, i, m);
      var node := FileNode(i);
      rootNodes, names := rootNodes + [node], names + [TableName(m, location, i)];
      forall j | 0 <= j < i
        ensures IsFileNode(j) && Mirrors(m, location, j)
      {
        assert old(IsFileNode(j) && Mirrors(m, location, j));
      }
    }

    /** `initialise_initrd` */
    method Initialise(location: u32) returns (r: FsNode)
      requires location + 4 <= ram.Length && Loadable(ram[..], location, LoadU32(ram[..], location))
      requires ram != dirent.name && dirent.name.Length == NAME_MAX
      modifies this, ram
      ensures Valid() && r == root && header == location
      ensures forall i :: 0 <= i < |rootNodes| ==> fresh(rootNodes[i].name)
      ensures HoldsStr(root.name[..], 0, Bytes("initrd")) && HoldsStr(dev.name[..], 0, DEV)
      ensures |names| == LoadU32(old(ram[..]), location)
      ensures HeaderAddr(location, |names|) <= ram.Length && ram[..] == Relocated(old(ram[..]), location, |names|)
      ensures forall i :: 0 <= i < |names| ==> Mirrors(old(ram[..]), location, i)
    {
      hide Relocated, IsFileNode, Mirrors, TableName, HoldsStr, Bytes, HeaderOf, LoadU32;
      ghost var m := ram[..];
      FixedNames();
      header := location;
      root := DirNode(Bytes("initrd"));
      dev := DirNode(DEV);
      nrootNodes := LoadU32(ram[..], location);
      rootNodes, names := [], [];
      RelocatedNothing(m, location);
      var i: u32 := 0;
      while i < LoadU32(ram[..], location)
        invariant i <= nrootNodes && Loading(m, location, i)
        invariant forall n :: n in rootNodes ==> fresh(n.name)
        invariant ram != root.name && HoldsStr(root.name[..], 0, Bytes("initrd"))
        invariant ram != dev.name && HoldsStr(dev.name[..], 0, DEV)
        decreases nrootNodes - i
      {
        LoadOne(location, i, m);
        i := i + 1;
      }
      r := root;
    }

    /** The driver is loaded with the archive of `files`. */
    ghost predicate Serves(files: seq<File>)
      reads this, dirent, ram, root, dev, rootNodes, set n | n in rootNodes :: n.name
    {
      && Valid() && |names| == |files|
      && header + Start(files, |files|) < TWO32
      && Holds(ram[..], header, files, |files|)
      && forall i :: 0 <= i < |files| ==> names[i] == files[i].name && rootNodes[i].length == |files[i].content|
    }

    /** Loading the writer's archive, wherever it was placed. */
    method Mount(location: u32, ghost files: seq<File>) returns (r: FsNode)
      requires Holds(ram[..], location, files, 0) && location + Start(files, |files|) < TWO32
      requires ram != dirent.name && dirent.name.Length == NAME_MAX
      modifies this, ram
      ensures Serves(files) && r == root && header == location
      ensures forall i :: 0 <= i < |rootNodes| ==> fresh(rootNodes[i].name)
      ensures ram[..] == Relocated(old(ram[..]), location, |files|)
    {
      hide HeaderOf, Relocated, Start, LoadU32, ContentAt;
      ghost var m := ram[..];
      HeldIsLoadable(m, location, files);
      r := Initialise(location);
      RelocatedHolds(m, location, files, |files|);
      forall i | 0 <= i < |files|
        ensures names[i] == files[i].name && rootNodes[i].length == |files[i].content|
      {
        assert Mirrors(m, location, i);
        assert HeaderHeld(m, location, files, i, 0);
      }
    }

    // -------------------------------------------------------------- the callbacks

    /** `initrd_get_file_content_offset`. For a served file it is the address of the byte at `offset`. */
    method GetFileContentOffset(node: FsNode, offset: u32, ghost files: seq<File>) returns (a: u32)
      requires HeaderAddr(header, node.inode + 1) <= ram.Length
      ensures Serves(files) && node.inode < |files| ==>
        var c := files[node.inode].content;
        && (offset > |c| ==> a == 0)
        && (offset <= |c| ==> a == header + Start(files, node.inode) + offset)
        && (offset < |c| ==> a < ram.Length && ram[a] == c[offset])
      ensures a == if offset > LengthAt(ram[..], header, node.inode) then 0 else AddressOf(ram[..], header, node.inode, offset)
    {
      hide LoadU32, Start, Holds;
      var h := HeaderAddr(header, node.inode);
      ghost var i := node.inode;
      if Serves(files) && i < |files| {
        ServedHeader(ram[..], header, files, i);
        if offset <= |files[i].content| { AddressServed(ram[..], header, files, i, offset); }
      }
      if offset > LoadU32(ram[..], h + LENGTH_AT) {
        return 0;
      }
      return Wrap(LoadU32(ram[..], h + OFFSET_AT) + offset);
    }

    /** `initrd_read`, into `buffer` from position `b` on. */
    method InitrdReadFile(node: FsNode, offset: u32, size: u32, buffer: array<byte>, b: nat) returns (n: u32)
      requires buffer != ram && Reachable(ram[..], header, node.inode, offset, size)
      requires b + ReadCount(LengthAt(ram[..], header, node.inode), offset, size) <= buffer.Length
      modifies buffer
      ensures n == |ReadBytes(ram[..], header, node.inode, offset, size)|
      ensures buffer[..] == Poke(old(buffer[..]), b, ReadBytes(ram[..], header, node.inode, offset, size))
    {
      hide LoadU32, Poke;
      var h := HeaderAddr(header, node.inode);
      var length := LoadU32(ram[..], h + LENGTH_AT);
      if offset > length {
        PokeNothing(buffer[..], b, 0);
        assert ReadBytes(ram[..], header, node.inode, offset, size) == [] == buffer[..][0..0];
        return 0;
      }
      n := size;
      if Wrap(offset + size) > length {
        n := length - offset;
      }
      MemCpy(buffer, b, ram, Wrap(LoadU32(ram[..], h + OFFSET_AT) + offset), n);
    }

    /** `initrd_readdir`. Whatever the shared entry held before, its name afterwards is exactly the
        listed one: the explicit terminator makes up for the one `strcpy` omits. */
    method InitrdReaddirAt(node: FsNode, index: u32) returns (d: Dirent?)
      requires Valid()
      modifies dirent, dirent.name
      ensures Valid()
      ensures d == null <==> !(node == root && index == 0) && !(1 <= index <= |names|)
      ensures d != null ==> d == dirent
      ensures d != null && index == 0 ==> HoldsStr(d.name[..], 0, Bytes("dev")) && d.ino == 0
      ensures d != null && index > 0 ==> HoldsStr(d.name[..], 0, names[index - 1]) && d.ino == rootNodes[index - 1].inode == index - 1
    {
      if node == root && index == 0 {
        var lit := Literal(DEV);
        CopyAndTerminate(dirent.name, lit, DEV);
        dirent.ino := 0;
        forall j | 0 <= j < |rootNodes| ensures IsFileNode(j) { assert old(IsFileNode(j)); }
        return dirent;
      }
      if Wrap(index - 1) >= nrootNodes {
        return null;
      }
      var file := rootNodes[index - 1];
      assert IsFileNode(index - 1);
      CopyAndTerminate(dirent.name, file.name, names[index - 1]);
      dirent.ino := file.inode;
      forall j | 0 <= j < |rootNodes| ensures IsFileNode(j) { assert old(IsFileNode(j)); }
      return dirent;
    }

    /** What a path component names on a directory node. */
    ghost function Resolved(node: FsNode, key: seq<byte>): FsNode?
      requires |rootNodes| == |names|
      reads this
    {
      if node == root && key == DEV then dev
      else match FirstIndex(names, key)
        case None => null
        case Some(i) => rootNodes[i]
    }

    /** An answer to a lookup, told by the listed names alone: /dev for "dev" on the root, else the node of the
        first file of the name, and null for a name that is nowhere. */
    ghost predicate LeadsTo(node: FsNode, key: seq<byte>, r: FsNode?)
      requires |rootNodes| == |names|
      reads this
    {
      && (r == null <==> !(node == root && key == Bytes("dev")) && key !in names)
      && (node == root && key == Bytes("dev") ==> r == dev)
      && (!(node == root && key == Bytes("dev")) ==>
            forall i :: 0 <= i < |names| && names[i] == key && key !in names[..i] ==> r == rootNodes[i])
    }

    lemma ResolvedIs(node: FsNode, key: seq<byte>)
      requires Valid()
      ensures LeadsTo(node, key, Resolved(node, key))
      ensures Resolved(node, key) == null <==> !(node == root && key == Bytes("dev")) && key !in names
    {
      hide IsFileNode, FirstIndex, Bytes;
      if !(node == root && key == DEV) {
        forall i | 0 <= i < |names| && names[i] == key && key !in names[..i]
          ensures FirstIndex(names, key) == Some(i)
        {
          FirstIndexIs(names, key, i);
        }
      }
    }

    /** `initrd_finddir` */
    method InitrdFinddirName(node: FsNode, name: array<byte>, p: nat) returns (r: FsNode?)
      requires Valid() && Terminated(name[..], p)
      ensures r == Resolved(node, CStr(name[..], p))
      ensures LeadsTo(node, CStr(name[..], p), r)
    {
      hide CStr, HoldsStr, LoadU32, Bytes;
      ghost var key := CStr(name[..], p);
      FixedNames();
      ResolvedIs(node, key);
      var lit := Literal(DEV);
      var differs := StrCmp(name, p, lit, 0);
      CStrUnique(lit[..], 0, DEV);
      if node == root && differs == 0 {
        return dev;
      }
      var i := 0;
      while i < nrootNodes
        invariant 0 <= i <= nrootNodes
        invariant key !in names[..i]
      {
        assert IsFileNode(i);
        CStrUnique(rootNodes[i].name[..], 0, names[i]);
        differs := StrCmp(name, p, rootNodes[i].name, 0);
        if differs == 0 {
          FirstIndexIs(names, key, i);
          return rootNodes[i];
        }
        i := i + 1;
      }
      assert names[..i] == names;
      return null;
    }

    // -------------------------------------------------------------- filesystem.c

    method ReadFs(node: FsNode, offset: u32, size: u32, buffer: array<byte>, b: nat) returns (n: u32)
      requires node.readCb == Null || node.readCb == InitrdRead
      requires node.readCb == InitrdRead ==>
        && buffer != ram && Reachable(ram[..], header, node.inode, offset, size)
        && b + ReadCount(LengthAt(ram[..], header, node.inode), offset, size) <= buffer.Length
      modifies buffer
      ensures node.readCb == Null ==> n == 0 && buffer[..] == old(buffer[..])
      ensures node.readCb == InitrdRead ==>
        && n == |ReadBytes(ram[..], header, node.inode, offset, size)|
        && buffer[..] == Poke(old(buffer[..]), b, ReadBytes(ram[..], header, node.inode, offset, size))
    {
      if node.readCb != Null {
        n := InitrdReadFile(node, offset, size, buffer, b);
      } else {
        n := 0;
      }
    }

    method ReaddirFs(node: FsNode, index: u32) returns (d: Dirent?)
      requires Valid() && (node.readdirCb == Null || node.readdirCb == InitrdReaddir)
      modifies dirent, dirent.name
      ensures Valid()
      ensures d == null <==>
        node.flags % 8 != 2 || node.readdirCb == Null || (!(node == root && index == 0) && !(1 <= index <= |names|))
      ensures d != null ==> d == dirent
      ensures d != null && index == 0 ==> HoldsStr(d.name[..], 0, Bytes("dev")) && d.ino == 0
      ensures d != null && index > 0 ==> HoldsStr(d.name[..], 0, names[index - 1]) && d.ino == rootNodes[index - 1].inode == index - 1
    {
      if node.IsDir() && node.readdirCb != Null {
        d := InitrdReaddirAt(node, index);
      } else {
        d := null;
      }
    }

    method FinddirFs(node: FsNode, name: array<byte>, p: nat) returns (r: FsNode?)
      requires Valid() && (node.finddirCb == Null || node.finddirCb == InitrdFinddir)
      requires Terminated(name[..], p)
      ensures r == if node.flags % 8 == 2 && node.finddirCb != Null then Resolved(node, CStr(name[..], p)) else null
      ensures node.flags % 8 == 2 && node.finddirCb != Null ==> LeadsTo(node, CStr(name[..], p), r)
    {
      if node.IsDir() && node.finddirCb != Null {
        r := InitrdFinddirName(node, name, p);
      } else {
        r := null;
      }
    }
  }
}
