/** The archive from end to end: what initrd/mkinitrd.c writes is what the kernel reads back. */
module RoundTrip {
  import opened CTypes
  import opened CMemory
  import opened CString
  import opened InitrdLayout
  import opened FileSystem
  import opened Initrd
  import opened MkInitrd

  /** The names in the header table at `base`. */
  function TableNames(m: seq<byte>, base: nat, n: nat): (names: seq<seq<byte>>)
    requires HeaderAddr(base, n) <= |m|
    ensures |names| == n
  {
    seq(n, i requires 0 <= i < n => TableName(m, base, i))
  }

  /** For every list of files, whatever the unused header bytes were, wherever the image is placed:
      after relocation the loader's table lists the files' names in order, a name leads to the first
      file that has it, and reading that file's whole length gives exactly its bytes. */
  lemma {:induction false} ArchiveRoundTrip(files: seq<File>, stale: seq<byte>, m: seq<byte>, base: nat, k: nat)
    requires ValidFiles(files) && |stale| == TABLE_SIZE && k < |files|
    requires base + Start(files, |files|) < TWO32
    requires var img := Image(|files|, files, stale);
      base + |img| <= |m| && m[base..base + |img|] == img
    ensures HeaderAddr(base, |files|) <= |m|
    ensures var r := Relocated(m, base, |files|);
      && (forall i :: 0 <= i < |files| ==> TableNames(r, base, |files|)[i] == files[i].name)
      && (DistinctNames(files) ==> FirstIndex(TableNames(r, base, |files|), files[k].name) == Some(k))
      && Reachable(r, base, k, 0, LengthAt(r, base, k))
      && ReadBytes(r, base, k, 0, LengthAt(r, base, k)) == files[k].content
  {
    hide HeaderOf, Image, Relocated, ContentAt, LoadU32, Start, Reachable, ReadBytes;
    ImageHolds(files, stale, m, base);
    RelocatedHolds(m, base, files, |files|);
    var r := Relocated(m, base, |files|);
    var names := TableNames(r, base, |files|);
    forall i | 0 <= i < |files|
      ensures names[i] == files[i].name
    {
      assert HeaderHeld(r, base, files, i, |files|);
    }
    if DistinctNames(files) {
      forall j | 0 <= j < k ensures names[..k][j] != files[k].name {}
      FirstIndexIs(names, files[k].name, k);
    }
    ServedHeader(r, base, files, k);
    ReadServed(r, base, files, k, 0, |files[k].content|);
    assert files[k].content[0..|files[k].content|] == files[k].content;
  }

  /** Write the archive, let the boot loader place it at `location`, load it. */
  method WriteAndMount(tool: seq<byte>, sources: seq<Source>, host: Host, ram: array<byte>, location: u32)
    returns (driver: Driver)
    requires |sources| < MAX_HEADERS && AllPresent(sources, host)
    requires var files := Wanted(sources, host);
      ValidFiles(files) && location + Start(files, |files|) <= ram.Length < TWO32
    modifies ram
    ensures fresh(driver) && fresh(driver.dirent) && fresh(driver.dirent.name)
    ensures driver.ram == ram && driver.header == location
    ensures forall i :: 0 <= i < |driver.rootNodes| ==> fresh(driver.rootNodes[i].name)
    ensures driver.Serves(Wanted(sources, host))
  {
    hide HeaderOf, Image, ContentAt, LoadU32, Start, Poke;
    ghost var files := Wanted(sources, host);
    forall i | 0 <= i < |sources| ensures |sources[i].name| < NAME_SIZE { assert ValidName(files[i].name); }
    var img, stale := WriteSources(tool, sources, host);
    Write(ram, location, img.value);
    PokeInside(old(ram[..]), location, img.value);
    ImageHolds(files, stale, ram[..], location);
    driver := new Driver(ram);
    var root := driver.Mount(location, files);
  }

  /** Find a file by name and read its whole length, through the file system calls. */
  method ReadByName(driver: Driver, name: seq<byte>, ghost files: seq<File>, ghost k: nat) returns (bytes: array<byte>)
    requires driver.Serves(files) && k < |files|
    requires name == files[k].name && name != DEV && DistinctNames(files)
    ensures fresh(bytes) && bytes[..] == files[k].content
  {
    hide HeaderOf, Holds, Start, Reachable, ReadBytes, LengthAt, HoldsStr, CStr, LoadU32;
    assert driver.IsFileNode(k);
    var key := Literal(name);
    CStrUnique(key[..], 0, name);
    forall j | 0 <= j < k ensures driver.names[..k][j] != name {}
    FirstIndexIs(driver.names, name, k);
    var node := driver.FinddirFs(driver.root, key, 0);
    ServedHeader(driver.ram[..], driver.header, files, k);
    ReadServed(driver.ram[..], driver.header, files, k, 0, node.length);
    bytes := new byte[node.length](_ => 0);
    ghost var zeros := bytes[..];
    var count := driver.ReadFs(node, 0, node.length, bytes, 0);
    PokeAll(zeros, files[k].content);
  }

  /** Reading a served file piece by piece, each read going on where the last one stopped, until nothing is
      left: the pieces are the file. */
  method ReadInChunks(driver: Driver, node: FsNode, chunk: u32, ghost files: seq<File>, ghost k: nat)
    returns (bytes: seq<byte>)
    requires driver.Serves(files) && k < |files| && node == driver.rootNodes[k]
    requires 0 < chunk && |files[k].content| + chunk < TWO32
    ensures bytes == files[k].content
  {
    hide HeaderOf, Holds, Start, Reachable, ReadBytes, LengthAt, HoldsStr;
    assert driver.IsFileNode(k);
    ghost var content := files[k].content;
    var buffer := new byte[chunk](_ => 0);
    var offset: u32, more := 0, true;
    bytes := [];
    while more
      invariant driver.Serves(files) && node == driver.rootNodes[k]
      invariant offset == |bytes| <= |content| && bytes == content[..offset]
      invariant more || offset == |content|
      decreases more, |content| - offset
    {
      var piece := ReadOne(driver, node, offset, chunk, buffer, files, k);
      assert content[..offset] + content[offset..offset + |piece|] == content[..offset + |piece|];
      bytes := bytes + piece;
      offset := offset + |piece|;
      more := |piece| > 0;
    }
    assert content[..|content|] == content;
  }

  /** One `read_fs` of a served file at any offset, through a buffer of the size asked for. */
  method ReadOne(driver: Driver, node: FsNode, offset: u32, chunk: u32, buffer: array<byte>, ghost files: seq<File>, ghost k: nat)
    returns (piece: seq<byte>)
    requires driver.Serves(files) && k < |files| && node == driver.rootNodes[k]
    requires offset > |files[k].content| || offset + chunk < TWO32
    requires buffer.Length == chunk && Unused(driver, buffer)
    modifies buffer
    ensures driver.Serves(files)
    ensures var n := Clamped(|files[k].content|, offset, chunk);
      piece == if offset > |files[k].content| then [] else files[k].content[offset..offset + n]
  {
    hide HeaderOf, Holds, Start, Reachable, ReadBytes, LengthAt, HoldsStr;
    assert driver.IsFileNode(k);
    ServedHeader(driver.ram[..], driver.header, files, k);
    ReadServed(driver.ram[..], driver.header, files, k, offset, chunk);
    ReadCountIff(|files[k].content|, offset, chunk);
    ghost var was := buffer[..];
    var n := driver.ReadFs(node, offset, chunk, buffer, 0);
    piece := buffer[..n];
    PokeInside(was, 0, ReadBytes(driver.ram[..], driver.header, node.inode, offset, chunk));
    forall j | 0 <= j < |files| ensures driver.IsFileNode(j) { assert old(driver.IsFileNode(j)); }
  }

  /** The buffer is none of the driver's memory. */
  ghost predicate Unused(driver: Driver, buffer: array<byte>)
    reads driver, driver.rootNodes
  {
    && buffer != driver.ram && buffer != driver.dirent.name
    && forall i :: 0 <= i < |driver.rootNodes| ==> driver.rootNodes[i].name != buffer
  }

  /** The round trip through the real calls, for up to 63 files: what the host has under a path is what the
      kernel reads under the name given with it. */
  method WriteLoadRead(tool: seq<byte>, sources: seq<Source>, host: Host, ram: array<byte>, location: u32, k: nat)
    returns (bytes: array<byte>)
    requires k < |sources| < MAX_HEADERS && AllPresent(sources, host)
    requires forall i :: 0 <= i < |sources| ==> ValidName(sources[i].name)
    requires forall i, j :: 0 <= i < j < |sources| ==> sources[i].name != sources[j].name
    requires sources[k].name != Bytes("dev")
    requires location + Start(Wanted(sources, host), |sources|) <= ram.Length < TWO32
    modifies ram
    ensures bytes[..] == host[sources[k].path]
  {
    hide Start;
    ghost var files := Wanted(sources, host);
    var driver := WriteAndMount(tool, sources, host, ram, location);
    bytes := ReadByName(driver, sources[k].name, files, k);
  }
}
