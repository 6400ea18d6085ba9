/** The directory enumeration and display loop of kmain.c (lines 99 to 124). */
module Kmain {
  import opened CTypes
  import opened CMemory
  import opened CString
  import opened InitrdLayout
  import opened FileSystem
  import opened Initrd
  import opened Console
  import opened Util
  import opened Formatting
  import opened RoundTrip
  import opened MkInitrd

  const TEAL: byte := 9
  const PROGRAM := Bytes("program.mod")

  // ---------------------------------------------------------------- the texts

  /** The int that a `uint32_t` argument is read as. */
  function AsInt(u: u32): s32 { if u < 0x8000_0000 then u else u - 0x1_0000_0000 }

  /** "Found file: %s\n" and "File location: 0x%x\n" */
  const FOUND := Bytes("Found file: ") + ([PERCENT, 115] + [NEWLINE])
  const LOCATION := Bytes("File location: 0x") + ([PERCENT, 120] + [NEWLINE])
  const DIRECTORY := [NEWLINE] + Bytes("(directory)") + [NEWLINE]
  const CONTENTS := [NEWLINE] + Bytes("contents: ")

  function FoundLine(name: seq<byte>): seq<byte> { Bytes("Found file: ") + name + [NEWLINE] }
  function LocationLine(a: u32): seq<byte> { Bytes("File location: 0x") + Digits(a, 16) + [NEWLINE] }

  lemma {:induction false} OneDirective(text: seq<byte>, conv: byte, a: Arg)
    requires 0 !in text && PERCENT !in text
    requires conv != 0 && !IsDigit(conv) && Matches(Dir(false, None, conv), a)
    ensures var f := text + ([PERCENT, conv] + [NEWLINE]);
      Printable(f, [a]) && Output(f, [a]) == text + ArgText(conv, a) + [NEWLINE]
  {
    PlainText([NEWLINE]);
    PlainDirective(conv, a, [NEWLINE], []);
    assert [a] + [] == [a];
    LiteralPrefix(text, [PERCENT, conv] + [NEWLINE], [a]);
  }

  lemma {:induction false} FoundPrints(name: seq<byte>)
    requires 0 !in name
    ensures Printable(FOUND, [Str(Some(name))]) && Output(FOUND, [Str(Some(name))]) == FoundLine(name)
  {
    OneDirective(Bytes("Found file: "), 115, Str(Some(name)));
  }

  lemma {:induction false} LocationPrints(a: u32)
    ensures Printable(LOCATION, [Int(AsInt(a))]) && Output(LOCATION, [Int(AsInt(a))]) == LocationLine(a)
  {
    hide Printable, Output, Digits;
    OneDirective(Bytes("File location: 0x"), 120, Int(AsInt(a)));
    assert Magnitude(120, AsInt(a)) == a;
    assert [] + Digits(a, 16) == Digits(a, 16);
  }

  // ---------------------------------------------------------------- the report

  function Names(files: seq<File>): (names: seq<seq<byte>>)
    ensures |names| == |files|
  {
    seq(|files|, i requires 0 <= i < |files| => files[i].name)
  }

  /** What `nprintf` shows of a file: its `int` count is negative from 2 GiB on. */
  function Shown(content: seq<byte>): seq<byte> { if |content| < 0x8000_0000 then content else [] }

  /** The address printed for an entry. /dev has inode 0, so the code prints header 0's offset. */
  function EntryAddress(files: seq<File>, base: nat, first: u32, key: seq<byte>): u32
    requires key == DEV || key in Names(files)
    requires base + Start(files, |files|) < TWO32
  {
    if key == DEV then first
    else
      var i := FirstIndex(Names(files), key).value;
      RegionsPacked(files, i, |files|);
      base + Start(files, i)
  }

  /** Everything one loop iteration prints. */
  function Entry(files: seq<File>, base: nat, first: u32, key: seq<byte>): seq<Glyph>
    requires (key == DEV || key in Names(files)) && base + Start(files, |files|) < TWO32
  {
    Paint(FoundLine(key), TEAL) + Paint(LocationLine(EntryAddress(files, base, first, key)), TEAL)
    + Paint(TailText(files, key), 7)
  }

  /** What follows the two lines: a note for the directory, the contents of the first file of the name. */
  function TailText(files: seq<File>, key: seq<byte>): seq<byte>
    requires key == DEV || key in Names(files)
  {
    if key == DEV then DIRECTORY
    else CONTENTS + Shown(files[FirstIndex(Names(files), key).value].content) + [NEWLINE]
  }

  /** The name listed at `i`. */
  function ListedName(files: seq<File>, i: nat): (key: seq<byte>)
    requires i <= |files|
    ensures key == DEV || key in Names(files)
  {
    if i == 0 then DEV else assert Names(files)[i - 1] == files[i - 1].name; files[i - 1].name
  }

  /** The first `k` entries: "dev" once, then the files in header order. */
  function Report(files: seq<File>, base: nat, first: u32, k: nat): seq<Glyph>
    requires k <= |files| + 1 && base + Start(files, |files|) < TWO32
    decreases k
  {
    if k == 0 then []
    else Report(files, base, first, k - 1) + Entry(files, base, first, ListedName(files, k - 1))
  }

  /** A file is what its own name leads to exactly if it is not called "dev" and no file before it has the
      name; then its entry shows this very file. */
  lemma {:induction false} EntryIsOwn(driver: Driver, files: seq<File>, first: u32, i: nat)
    requires driver.Serves(files) && i < |files|
    ensures driver.Resolved(driver.root, files[i].name) == driver.rootNodes[i]
       <==> files[i].name != DEV && files[i].name !in Names(files)[..i]
    ensures files[i].name != DEV && files[i].name !in Names(files)[..i] ==>
      && files[i].name in Names(files)
      && EntryAddress(files, driver.header, first, files[i].name) == driver.header + Start(files, i)
      && TailText(files, files[i].name) == CONTENTS + Shown(files[i].content) + [NEWLINE]
  {
    hide Start, Holds, HoldsStr;
    var name := files[i].name;
    assert driver.IsFileNode(i) && driver.names == Names(files) && Names(files)[i] == name;
    var r := FirstIndex(Names(files), name).value;
    assert driver.IsFileNode(r);
    if name !in Names(files)[..i] {
      FirstIndexIs(Names(files), name, i);
    } else if r == i {
      assert false;
    }
  }

  /** With distinct names, none of them "dev", that holds of every file. */
  lemma {:induction false} DistinctAreOwn(files: seq<File>, i: nat)
    requires i < |files| && DistinctNames(files)
    ensures files[i].name !in Names(files)[..i]
  {
    forall j | 0 <= j < i ensures Names(files)[..i][j] != files[i].name {}
  }

  /** A file below 2 GiB is shown whole, and a larger one not at all. */
  lemma {:induction false} ShownWhole(content: seq<byte>)
    ensures Shown(content) == content <==> |content| < 0x8000_0000
    ensures |content| >= 0x8000_0000 ==> Shown(content) == []
  {
  }

  /** The entry of a file below 2 GiB, as it reads on the screen. */
  lemma {:induction false} FileEntryReads(files: seq<File>, base: nat, first: u32, i: nat)
    requires i < |files| && base + Start(files, |files|) < TWO32
    requires files[i].name != DEV && files[i].name !in Names(files)[..i] && |files[i].content| < 0x8000_0000
    ensures files[i].name in Names(files) && base + Start(files, i) < TWO32
    ensures Entry(files, base, first, files[i].name) ==
        Paint(Bytes("Found file: ") + files[i].name + [10], 9)
      + Paint(Bytes("File location: 0x") + Digits(base + Start(files, i), 16) + [10], 9)
      + Paint([10] + Bytes("contents: ") + files[i].content + [10], 7)
  {
    hide Paint, Bytes, Start, Digits, FirstIndex;
    assert Names(files)[i] == files[i].name;
    FirstIndexIs(Names(files), files[i].name, i);
    RegionsPacked(files, i, |files|);
  }

  /** The entry of /dev. */
  lemma {:induction false} DevEntryReads(files: seq<File>, base: nat, first: u32)
    requires base + Start(files, |files|) < TWO32
    ensures Entry(files, base, first, Bytes("dev")) ==
        Paint(Bytes("Found file: ") + Bytes("dev") + [10], 9)
      + Paint(Bytes("File location: 0x") + Digits(first, 16) + [10], 9)
      + Paint([10] + Bytes("(directory)") + [10], 7)
  {
    hide Paint, Bytes, Start, Digits;
  }

  /** The report: /dev, and then the files in header order, nothing between. */
  lemma {:induction false} ReportParts(files: seq<File>, base: nat, first: u32)
    requires base + Start(files, |files|) < TWO32
    ensures Report(files, base, first, 1) == Entry(files, base, first, Bytes("dev"))
    ensures forall i :: 0 <= i < |files| ==> files[i].name in Names(files)
    ensures forall i :: 0 <= i < |files| ==>
      Report(files, base, first, i + 2) == Report(files, base, first, i + 1) + Entry(files, base, first, files[i].name)
  {
    hide Entry, Start, Bytes;
    assert Report(files, base, first, 0) == [];
    forall i | 0 <= i < |files|
      ensures files[i].name in Names(files) && ListedName(files, i + 1) == files[i].name
    {
      assert Names(files)[i] == files[i].name;
    }
  }

  // ---------------------------------------------------------------- the loop

  /** Files that `nprintf` can show: no directives in their contents. */
  ghost predicate Showable(files: seq<File>) {
    forall i :: 0 <= i < |files| ==> PERCENT !in files[i].content
  }

  /** The same of what a name leads to. */
  predicate CanShow(files: seq<File>, key: seq<byte>)
    requires key == DEV || key in Names(files)
  {
    key == DEV || PERCENT !in files[FirstIndex(Names(files), key).value].content
  }

  /** The console's memory is none of the driver's. */
  ghost predicate Apart(driver: Driver, screen: Screen)
    reads driver, driver.rootNodes
  {
    && screen.vidmem != driver.ram && screen.vidmem != driver.dirent.name
    && forall i :: 0 <= i < |driver.rootNodes| ==> driver.rootNodes[i].name != screen.vidmem
  }

  /** `buf = malloc(fsnode->length)` and `read_fs` into it. */
  method ReadContents(driver: Driver, node: FsNode, ghost files: seq<File>, ghost i: nat) returns (buf: array<byte>, sz: u32)
    requires driver.Serves(files) && i < |files| && node == driver.rootNodes[i]
    ensures fresh(buf) && buf[..] == files[i].content && sz == |files[i].content|
  {
    hide HeaderOf, Holds, Start, Reachable, ReadBytes, LengthAt, LoadU32, HoldsStr;
    assert driver.IsFileNode(i);
    ghost var content := files[i].content;
    ServedHeader(driver.ram[..], driver.header, files, i);
    ReadServed(driver.ram[..], driver.header, files, i, 0, node.length);
    buf := new byte[node.length](_ => 0);
    ghost var zeros := buf[..];
    sz := driver.ReadFs(node, 0, node.length, buf, 0);
    PokeAll(zeros, content);
  }

  /** The `else` part: read the file into a fresh buffer and show the buffer. */
  method ShowContents(driver: Driver, screen: Screen, node: FsNode, ghost files: seq<File>, ghost i: nat)
    requires driver.Serves(files) && screen.Valid() && Apart(driver, screen)
    requires i < |files| && node == driver.rootNodes[i] && PERCENT !in files[i].content
    modifies screen, screen.vidmem
    ensures screen.Valid()
    ensures screen.log == old(screen.log).PutAll(Paint(CONTENTS + Shown(files[i].content) + [NEWLINE], 7))
  {
    hide HeaderOf, Holds, Start, Paint, Output, Printable, HoldsStr, Shows, CellOf;
    ghost var start, content := screen.log, files[i].content;
    PlainText(CONTENTS);
    PlainText([NEWLINE]);
    Printf(screen, CONTENTS, []);
    var buf, sz := ReadContents(driver, node, files, i);
    assert buf[..] == content;
    forall k | 0 <= k < |content| ensures buf[k] != PERCENT { assert buf[..][k] in content; }
    NPrintf(screen, buf, AsInt(sz));
    assert Shown(content) == if AsInt(sz) <= 0 then [] else buf[..AsInt(sz)];
    Printf(screen, [NEWLINE], []);
    PutThree(start, CONTENTS, Shown(content), [NEWLINE]);
  }

  lemma {:induction false} PutThree(l: Log, a: seq<byte>, b: seq<byte>, c: seq<byte>)
    requires l.Valid()
    ensures l.PutAll(Paint(a, 7)).PutAll(Paint(b, 7)).PutAll(Paint(c, 7)) == l.PutAll(Paint(a + b + c, 7))
  {
    PaintConcat(a, b, 7);
    PaintConcat(a + b, c, 7);
    PutAllConcat(l, Paint(a, 7), Paint(b, 7));
    PutAllConcat(l, Paint(a + b, 7), Paint(c, 7));
  }

  /** The archive is loaded, and at an address where its end is still below 2^32. */
  ghost predicate Loaded(driver: Driver, files: seq<File>)
    reads driver, driver.dirent, driver.ram, driver.root, driver.dev, driver.rootNodes
    reads set n | n in driver.rootNodes :: n.name
  {
    && driver.Serves(files)
    && driver.ram.Length >= 4868 + driver.header
    && driver.header + Start(files, |files|) < TWO32
  }

  /** And the console is in order, and they do not share memory. */
  ghost predicate Ready(driver: Driver, screen: Screen, files: seq<File>)
    reads driver, driver.dirent, driver.ram, driver.root, driver.dev, driver.rootNodes
    reads set n | n in driver.rootNodes :: n.name
    reads screen, screen.vidmem
  {
    Loaded(driver, files) && screen.Valid() && Apart(driver, screen)
  }

  /** Header 0's offset field, which is what the code prints for /dev. */
  ghost function FirstOffset(driver: Driver): u32
    requires driver.ram.Length >= 4868 + driver.header
    reads driver, driver.ram
  {
    LoadU32(driver.ram[..], OffsetField(driver.header, 0))
  }

  /** One iteration of the loop, with the entry that `readdir_fs` returned. */
  method ShowEntry(driver: Driver, screen: Screen, entry: Dirent, programAddr: u32,
                   ghost files: seq<File>, ghost key: seq<byte>) returns (newAddr: u32)
    requires Ready(driver, screen, files)
    requires (key == DEV || key in Names(files)) && CanShow(files, key)
    requires entry == driver.dirent && HoldsStr(entry.name[..], 0, key)
    modifies screen, screen.vidmem
    ensures Ready(driver, screen, files) && FirstOffset(driver) == old(FirstOffset(driver))
    ensures screen.log == old(screen.log).PutAll(Entry(files, driver.header, FirstOffset(driver), key))
    ensures newAddr == if key == PROGRAM then EntryAddress(files, driver.header, FirstOffset(driver), key) else programAddr
  {
    hide Ready, Start, Paint, FoundLine, LocationLine, EntryAddress, FirstOffset, HoldsStr, TailText;
    ReadyFits(driver, screen, files);
    ghost var start := screen.log;
    ghost var a := EntryAddress(files, driver.header, FirstOffset(driver), key);
    var name := EntryName(entry, key);
    var node, address := Locate(driver, entry, files, key);
    newAddr := programAddr;
    var isProgram := EntryIs(entry, key, PROGRAM);
    if isProgram {
      newAddr := address;
    }
    ShowLines(driver, screen, name, address, files);
    ShowTail(driver, screen, node, files, key);
    PutAllConcat(start, Paint(FoundLine(key), TEAL) + Paint(LocationLine(a), TEAL), Paint(TailText(files, key), 7));
  }

  lemma {:induction false} ReadyFits(driver: Driver, screen: Screen, files: seq<File>)
    requires Ready(driver, screen, files)
    ensures driver.ram.Length >= 4868 + driver.header && driver.header + Start(files, |files|) < TWO32
    ensures screen.Valid() && Loaded(driver, files)
  {
  }

  /** The node of an entry, and the address printed for it. */
  method Locate(driver: Driver, entry: Dirent, ghost files: seq<File>, ghost key: seq<byte>)
    returns (node: FsNode, address: u32)
    requires Loaded(driver, files) && (key == DEV || key in Names(files))
    requires entry == driver.dirent && HoldsStr(entry.name[..], 0, key)
    ensures address == EntryAddress(files, driver.header, FirstOffset(driver), key)
    ensures node == driver.Resolved(driver.root, key)
  {
    hide HeaderOf, Holds, Start, LoadU32, EntryAddress, AddressOf, LengthAt, HoldsStr;
    EntryNode(driver, files, key);
    CStrUnique(entry.name[..], 0, key);
    node := driver.FinddirFs(driver.root, entry.name, 0);
    address := driver.GetFileContentOffset(node, 0, files);
  }

  /** The directory note, or the contents. */
  method ShowTail(driver: Driver, screen: Screen, node: FsNode, ghost files: seq<File>, ghost key: seq<byte>)
    requires Ready(driver, screen, files) && (key == DEV || key in Names(files))
    requires node == driver.Resolved(driver.root, key) && CanShow(files, key)
    modifies screen, screen.vidmem
    ensures Ready(driver, screen, files) && FirstOffset(driver) == old(FirstOffset(driver))
    ensures screen.log == old(screen.log).PutAll(Paint(TailText(files, key), 7))
  {
    hide HeaderOf, Holds, Start, LoadU32, Paint, EntryAddress, AddressOf, Shown, Shows;
    EntryNode(driver, files, key);
    if node.IsDir() {
      PlainText(DIRECTORY);
      Printf(screen, DIRECTORY, []);
    } else {
      ShowContents(driver, screen, node, files, FirstIndex(Names(files), key).value);
    }
  }

  /** The characters behind the pointer `node->name`. */
  method EntryName(entry: Dirent, ghost key: seq<byte>) returns (name: seq<byte>)
    requires HoldsStr(entry.name[..], 0, key)
    ensures name == key && 0 !in name && Terminated(entry.name[..], 0) && CStr(entry.name[..], 0) == key
  {
    CStrUnique(entry.name[..], 0, key);
    var n := StrLen(entry.name, 0);
    name := entry.name[..n];
  }

  /** `strcmp(node->name, ...) == 0` */
  method EntryIs(entry: Dirent, ghost key: seq<byte>, text: seq<byte>) returns (same: bool)
    requires HoldsStr(entry.name[..], 0, key) && 0 !in text
    ensures same <==> key == text
  {
    CStrUnique(entry.name[..], 0, key);
    var lit := Literal(text);
    CStrUnique(lit[..], 0, text);
    var differs := StrCmp(entry.name, 0, lit, 0);
    same := differs == 0;
  }

  method ShowLines(driver: Driver, screen: Screen, name: seq<byte>, address: u32, ghost files: seq<File>)
    requires Ready(driver, screen, files) && 0 !in name
    modifies screen, screen.vidmem
    ensures Ready(driver, screen, files) && FirstOffset(driver) == old(FirstOffset(driver))
    ensures screen.log == old(screen.log).PutAll(Paint(FoundLine(name), TEAL) + Paint(LocationLine(address), TEAL))
  {
    hide HeaderOf, Holds, Start, LoadU32, Shows, Paint, FoundLine, LocationLine, Output, Printable;
    ghost var start := screen.log;
    FoundPrints(name);
    ClrPrintf(screen, FOUND, TEAL, [Str(Some(name))]);
    LocationPrints(address);
    ClrPrintf(screen, LOCATION, TEAL, [Int(AsInt(address))]);
    PutAllConcat(start, Paint(FoundLine(name), TEAL), Paint(LocationLine(address), TEAL));
  }

  /** What `finddir_fs` and `initrd_get_file_content_offset` give for a listed name. */
  lemma {:induction false} EntryNode(driver: Driver, files: seq<File>, key: seq<byte>)
    requires driver.Serves(files) && (key == DEV || key in Names(files))
    ensures HeaderAddr(driver.header, 1) <= driver.ram.Length && driver.names == Names(files)
    ensures driver.ram.Length >= 4868 + driver.header
    ensures var node := driver.Resolved(driver.root, key);
      && node != null && HeaderAddr(driver.header, node.inode + 1) <= driver.ram.Length
      && AddressOf(driver.ram[..], driver.header, node.inode, 0) == EntryAddress(files, driver.header, FirstOffset(driver), key)
      && (key == DEV ==> node == driver.dev && node.IsDir())
      && (key != DEV ==>
            FirstIndex(Names(files), key).Some? && node == driver.rootNodes[FirstIndex(Names(files), key).value] && !node.IsDir())
  {
    hide HeaderOf, LoadU32, ContentAt;
    if key == DEV {
      WrapSmall(FirstOffset(driver));
    } else {
      var i := FirstIndex(Names(files), key).value;
      assert driver.IsFileNode(i);
      ServedHeader(driver.ram[..], driver.header, files, i);
      WrapSmall(driver.header + Start(files, i));
    }
  }

  /** `readdir_fs(fs_root, i)` on a loaded archive. */
  method ReadEntry(driver: Driver, i: u32, ghost files: seq<File>) returns (entry: Dirent?)
    requires Loaded(driver, files) && i <= |files| + 1
    modifies driver.dirent, driver.dirent.name
    ensures Loaded(driver, files) && FirstOffset(driver) == old(FirstOffset(driver))
    ensures entry == null <==> i == |files| + 1
    ensures entry != null ==> entry == driver.dirent && HoldsStr(entry.name[..], 0, ListedName(files, i))
  {
    hide HoldsStr, Holds, Start;
    EntryNode(driver, files, DEV);
    entry := driver.ReaddirFs(driver.root, i);
  }

  /** The same beside a console, which it does not touch. */
  method NextEntry(driver: Driver, screen: Screen, i: u32, ghost files: seq<File>) returns (entry: Dirent?)
    requires Ready(driver, screen, files) && i <= |files| + 1
    modifies driver.dirent, driver.dirent.name
    ensures Ready(driver, screen, files) && FirstOffset(driver) == old(FirstOffset(driver))
    ensures entry == null <==> i == |files| + 1
    ensures entry != null ==> entry == driver.dirent && HoldsStr(entry.name[..], 0, ListedName(files, i))
  {
    hide HoldsStr, Loaded, Shows, CellOf, ListedName;
    entry := ReadEntry(driver, i, files);
  }

  /** One iteration's look-up, and its check for the program. */
  method Visit(driver: Driver, entry: Dirent, programAddr: u32, ghost files: seq<File>, ghost i: nat, ghost was: u32)
    returns (node: FsNode, address: u32, newAddr: u32)
    requires Loaded(driver, files) && i <= |files|
    requires entry == driver.dirent && HoldsStr(entry.name[..], 0, ListedName(files, i))
    requires programAddr == ProgramAfter(files, driver.header, FirstOffset(driver), i, was)
    ensures node == driver.Resolved(driver.root, ListedName(files, i))
    ensures address == EntryAddress(files, driver.header, FirstOffset(driver), ListedName(files, i))
    ensures newAddr == ProgramAfter(files, driver.header, FirstOffset(driver), i + 1, was)
  {
    hide HoldsStr, Start, EntryAddress, FirstOffset, ProgramAfter, ListedName, CStr, LoadU32;
    ghost var key := ListedName(files, i);
    node, address := Locate(driver, entry, files, key);
    newAddr := programAddr;
    var isProgram := EntryIs(entry, key, PROGRAM);
    if isProgram {
      newAddr := address;
    }
    ProgramStep(files, driver.header, FirstOffset(driver), i, was);
  }

  /** What the loop finds out without showing it, for every archive: each entry's node and address in the
      order of the listing, its end, and the program's address. */
  method ListAll(driver: Driver, programAddr: u32, ghost files: seq<File>)
    returns (nodes: seq<FsNode?>, addresses: seq<u32>, newAddr: u32)
    requires driver.Serves(files)
    modifies driver.dirent, driver.dirent.name
    ensures Loaded(driver, files) && |nodes| == |addresses| == |files| + 1
    ensures forall i :: 0 <= i <= |files| ==>
      && nodes[i] == driver.Resolved(driver.root, ListedName(files, i))
      && addresses[i] == EntryAddress(files, driver.header, FirstOffset(driver), ListedName(files, i))
    ensures newAddr == if PROGRAM in Names(files) then EntryAddress(files, driver.header, FirstOffset(driver), PROGRAM) else programAddr
  {
    hide Loaded, HoldsStr, Start, EntryAddress, FirstOffset, ProgramAfter, ListedName, Names, CStr, LoadU32;
    IsLoaded(driver, files);
    ghost var base, first := driver.header, FirstOffset(driver);
    ProgramAtStart(files, base, first, programAddr);
    nodes, addresses, newAddr := [], [], programAddr;
    var i := 0;
    var entry := ReadEntry(driver, i, files);
    while entry != null
      invariant Loaded(driver, files) && driver.header == base && |driver.rootNodes| == |driver.names|
      invariant driver.ram.Length >= 4868 + base && FirstOffset(driver) == first
      invariant i <= |files| + 1 && (entry == null <==> i == |files| + 1)
      invariant entry != null ==> entry == driver.dirent && HoldsStr(entry.name[..], 0, ListedName(files, i))
      invariant |nodes| == |addresses| == i
      invariant forall j :: 0 <= j < i ==> nodes[j] == driver.Resolved(driver.root, ListedName(files, j))
      invariant forall j :: 0 <= j < i ==> addresses[j] == EntryAddress(files, base, first, ListedName(files, j))
      invariant newAddr == ProgramAfter(files, base, first, i, programAddr)
      decreases |files| + 1 - i
    {
      var node, address: u32;
      node, address, newAddr := Visit(driver, entry, newAddr, files, i, programAddr);
      nodes, addresses := nodes + [node], addresses + [address];
      i := i + 1;
      entry := ReadEntry(driver, i, files);
    }
    ProgramAtEnd(files, base, first, programAddr);
  }

  /** The names met before entry `i`. */
  function Met(files: seq<File>, i: nat): seq<seq<byte>>
    requires i <= |files| + 1
  {
    if i == 0 then [] else Names(files)[..i - 1]
  }

  /** `program_addr` after `i` entries. */
  function ProgramAfter(files: seq<File>, base: nat, first: u32, i: nat, was: u32): u32
    requires i <= |files| + 1 && base + Start(files, |files|) < TWO32
  {
    if PROGRAM in Met(files, i) then
      assert PROGRAM in Names(files);
      EntryAddress(files, base, first, PROGRAM)
    else was
  }

  lemma {:induction false} ReportStep(files: seq<File>, base: nat, first: u32, i: nat, l: Log)
    requires i <= |files| && base + Start(files, |files|) < TWO32 && l.Valid()
    ensures l.PutAll(Report(files, base, first, i)).PutAll(Entry(files, base, first, ListedName(files, i)))
         == l.PutAll(Report(files, base, first, i + 1))
  {
    hide Entry, ListedName, Names, Start;
    PutAllConcat(l, Report(files, base, first, i), Entry(files, base, first, ListedName(files, i)));
  }

  lemma {:induction false} ProgramStep(files: seq<File>, base: nat, first: u32, i: nat, was: u32)
    requires i <= |files| && base + Start(files, |files|) < TWO32
    ensures ProgramAfter(files, base, first, i + 1, was)
         == if ListedName(files, i) == PROGRAM then EntryAddress(files, base, first, PROGRAM) else ProgramAfter(files, base, first, i, was)
  {
    hide EntryAddress, Start;
    DevIsNotProgram();
    MetStep(files, i);
  }

  lemma {:induction false} MetStep(files: seq<File>, i: nat)
    requires i <= |files|
    ensures Met(files, i + 1) == if i == 0 then [] else Met(files, i) + [ListedName(files, i)]
  {
  }

  lemma {:induction false} DevIsNotProgram()
    ensures DEV != PROGRAM
  {
    assert |DEV| == 3;
  }

  /** The whole loop. It ends, because the index runs into the end of the listing; it shows "dev" once
      and every file once in header order; and it finds the program's address if there is a program. */
  method Enumerate(driver: Driver, screen: Screen, programAddr: u32, ghost files: seq<File>) returns (newAddr: u32)
    requires driver.Serves(files) && screen.Valid() && Apart(driver, screen) && Showable(files)
    modifies screen, screen.vidmem, driver.dirent, driver.dirent.name
    ensures Ready(driver, screen, files)
    ensures screen.log == old(screen.log).PutAll(Report(files, driver.header, FirstOffset(driver), |files| + 1))
    ensures newAddr == if PROGRAM in Names(files) then EntryAddress(files, driver.header, FirstOffset(driver), PROGRAM) else programAddr
  {
    hide Ready, HoldsStr, Start, Report, Entry, EntryAddress, FirstOffset, ProgramAfter, ListedName;
    IsReady(driver, screen, files);
    ghost var start, base, first := screen.log, driver.header, FirstOffset(driver);
    ReportStart(files, base, first, programAddr, start);
    newAddr := programAddr;
    var i := 0;
    var entry := NextEntry(driver, screen, i, files);
    while entry != null
      invariant Ready(driver, screen, files) && driver.header == base
      invariant driver.ram.Length >= 4868 + base && FirstOffset(driver) == first
      invariant i <= |files| + 1 && (entry == null <==> i == |files| + 1)
      invariant entry != null ==> entry == driver.dirent && HoldsStr(entry.name[..], 0, ListedName(files, i))
      invariant screen.log == start.PutAll(Report(files, base, first, i))
      invariant newAddr == ProgramAfter(files, base, first, i, programAddr)
      decreases |files| + 1 - i
    {
      ghost var key := ListedName(files, i);
      AllShown(files, key);
      newAddr := ShowEntry(driver, screen, entry, newAddr, files, key);
      ReportStep(files, base, first, i, start);
      ProgramStep(files, base, first, i, programAddr);
      i := i + 1;
      entry := NextEntry(driver, screen, i, files);
    }
    ProgramAtEnd(files, base, first, programAddr);
  }

  lemma {:induction false} AllShown(files: seq<File>, key: seq<byte>)
    requires Showable(files) && (key == DEV || key in Names(files))
    ensures CanShow(files, key)
  {
  }

  lemma {:induction false} IsLoaded(driver: Driver, files: seq<File>)
    requires driver.Serves(files)
    ensures Loaded(driver, files) && driver.ram.Length >= 4868 + driver.header
    ensures driver.header + Start(files, |files|) < TWO32 && |driver.rootNodes| == |driver.names|
  {
    EntryNode(driver, files, DEV);
  }

  lemma {:induction false} IsReady(driver: Driver, screen: Screen, files: seq<File>)
    requires driver.Serves(files) && screen.Valid() && Apart(driver, screen)
    ensures Ready(driver, screen, files)
    ensures driver.ram.Length >= 4868 + driver.header && driver.header + Start(files, |files|) < TWO32
  {
    EntryNode(driver, files, DEV);
  }

  lemma {:induction false} ProgramAtStart(files: seq<File>, base: nat, first: u32, was: u32)
    requires base + Start(files, |files|) < TWO32
    ensures ProgramAfter(files, base, first, 0, was) == was
  {
  }

  lemma {:induction false} ReportStart(files: seq<File>, base: nat, first: u32, was: u32, l: Log)
    requires base + Start(files, |files|) < TWO32 && l.Valid()
    ensures l.PutAll(Report(files, base, first, 0)) == l && ProgramAfter(files, base, first, 0, was) == was
  {
  }

  lemma {:induction false} ProgramAtEnd(files: seq<File>, base: nat, first: u32, was: u32)
    requires base + Start(files, |files|) < TWO32
    ensures ProgramAfter(files, base, first, |files| + 1, was)
         == if PROGRAM in Names(files) then EntryAddress(files, base, first, PROGRAM) else was
  {
    assert Met(files, |files| + 1) == Names(files);
  }

  // ---------------------------------------------------------------- from the host's files to the screen

  /** Writing the archive, mounting it and enumerating it prints the report of the host's own files, in the
      order of the arguments. Without any file the offset printed for /dev is stale. */
  method WriteAndReport(tool: seq<byte>, sources: seq<Source>, host: Host, ram: array<byte>, location: u32,
                        screen: Screen, programAddr: u32) returns (newAddr: u32, ghost first: u32)
    requires |sources| < MAX_HEADERS && AllPresent(sources, host)
    requires var files := Wanted(sources, host);
      ValidFiles(files) && Showable(files) && location + Start(files, |files|) <= ram.Length < TWO32
    requires screen.Valid() && screen.vidmem != ram
    modifies ram, screen, screen.vidmem
    ensures screen.Valid() && (sources != [] ==> first == location + DATA_AT)
    ensures var files := Wanted(sources, host);
      && screen.log == old(screen.log).PutAll(Report(files, location, first, |files| + 1))
      && newAddr == if Bytes("program.mod") in Names(files) then EntryAddress(files, location, first, Bytes("program.mod")) else programAddr
  {
    hide HeaderOf, Holds, Start, Report, EntryAddress, LoadU32, Wanted, Shows, CellOf;
    ghost var files := Wanted(sources, host);
    var driver := WriteAndMount(tool, sources, host, ram, location);
    IsLoaded(driver, files);
    FirstIsData(driver, files);
    first := FirstOffset(driver);
    newAddr := Enumerate(driver, screen, programAddr, files);
  }

  lemma {:induction false} FirstIsData(driver: Driver, files: seq<File>)
    requires Loaded(driver, files)
    ensures files != [] ==> FirstOffset(driver) == driver.header + DATA_AT
  {
    hide HeaderOf, ContentAt, LoadU32;
    if files != [] {
      ServedHeader(driver.ram[..], driver.header, files, 0);
    }
  }
}
