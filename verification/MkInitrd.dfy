/** The archive writer, `main` of initrd/mkinitrd.c. */
module MkInitrd {
  import opened CTypes
  import opened CMemory
  import opened InitrdLayout

  /** The host's files, by path. */
  type Host = map<seq<byte>, seq<byte>>

  /** `main` takes its argument count as a `char`. */
  function CharOf(x: int): (c: int)
    ensures -128 <= c < 128
    ensures x >= 0 ==> c <= x
  {
    (x + 128) % 256 - 128
  }

  /** `(argc-1)/2`, truncating towards zero. */
  function NHeaders(argc: int): int
  {
    var n := CharOf(argc) - 1;
    if n >= 0 then n / 2 else -(-n / 2)
  }

  /** The count is the number of pairs exactly up to 63 pairs, and in no case overruns the array. */
  lemma {:induction false} NHeadersExactIff(pairs: nat)
    ensures NHeaders(1 + 2 * pairs) == pairs <==> pairs <= 63
    ensures NHeaders(1 + 2 * pairs) < MAX_HEADERS
  {
    var q := (2 * pairs + 129) / 256;
    assert 2 * pairs + 129 == 256 * q + (2 * pairs + 129) % 256;
  }

  /** For any number of argument pairs, the `char` keeps its remainder, from 64 on as a negative number; an
      argument too many makes no difference while it counts right. */
  lemma {:induction false} NHeadersValue(pairs: nat)
    ensures var k := pairs % 128;
      NHeaders(1 + 2 * pairs) == if k < 64 then k else k - 128
    ensures pairs < 63 ==> NHeaders(2 + 2 * pairs) == pairs
  {
    var q, k := pairs / 128, pairs % 128;
    assert pairs == 128 * q + k;
    assert 1 + 2 * pairs + 128 == 256 * q + (2 * k + 129);
    if k < 64 {
      assert (1 + 2 * pairs + 128) % 256 == 2 * k + 129 || 2 * k + 129 >= 256;
    }
  }

  /** With 64 pairs the writer stores no file and a count of 2^32 - 64. */
  lemma {:induction false} SixtyFourPairsWrap()
    ensures NHeaders(1 + 2 * 64) == -64 && Wrap(NHeaders(1 + 2 * 64)) == 0xFFFF_FFC0
  {
  }

  lemma {:induction false} NHeadersBound(argc: nat)
    requires argc > 0
    ensures NHeaders(argc) < MAX_HEADERS && 2 * NHeaders(argc) < argc
  {
  }

  function SourcePath(argv: seq<seq<byte>>, i: nat): seq<byte>
    requires 2 * i + 1 < |argv|
  {
    argv[2 * i + 1]
  }

  function ArchiveName(argv: seq<seq<byte>>, i: nat): seq<byte>
    requires 2 * i + 2 < |argv|
  {
    argv[2 * i + 2]
  }

  /** `fread` takes as many bytes as the unsigned header length names. */
  function Taken(content: seq<byte>): (r: seq<byte>)
    ensures |r| == Wrap(|content|) && r <= content
  {
    content[..Wrap(|content|)]
  }

  /** The files that the first `n` argument pairs name; a missing source counts as empty. */
  function Inputs(argv: seq<seq<byte>>, host: Host, n: nat): (files: seq<File>)
    requires 2 * n < |argv|
    ensures |files| == n
    ensures (forall i :: 0 <= i < n ==> |ArchiveName(argv, i)| < NAME_SIZE) ==> NamesFit(files)
  {
    seq(n, i requires 0 <= i < n => Input(argv, host, i))
  }

  function Input(argv: seq<seq<byte>>, host: Host, i: nat): File
    requires 2 * i + 2 < |argv|
  {
    var path := SourcePath(argv, i);
    File(ArchiveName(argv, i), if path in host then Taken(host[path]) else [])
  }

  predicate AllRead(argv: seq<seq<byte>>, host: Host, n: nat)
    requires 2 * n < |argv|
  {
    forall i :: 0 <= i < n ==> SourcePath(argv, i) in host
  }

  /** One pair of arguments: the file on the host, and its name in the archive. */
  datatype Source = Source(path: seq<byte>, name: seq<byte>)

  /** The command line of the tool: its own name, then path and name of each file in turn. */
  function CommandLine(tool: seq<byte>, sources: seq<Source>): (argv: seq<seq<byte>>)
    ensures |argv| == 1 + 2 * |sources|
    decreases |sources|
  {
    if sources == [] then [tool]
    else
      var n := |sources| - 1;
      CommandLine(tool, sources[..n]) + [sources[n].path, sources[n].name]
  }

  lemma {:induction false} CommandLineAt(tool: seq<byte>, sources: seq<Source>, i: nat)
    requires i < |sources|
    ensures var argv := CommandLine(tool, sources);
      argv[2 * i + 1] == sources[i].path && argv[2 * i + 2] == sources[i].name
    ensures var argv := CommandLine(tool, sources);
      SourcePath(argv, i) == sources[i].path && ArchiveName(argv, i) == sources[i].name
    decreases |sources|
  {
    var n := |sources| - 1;
    if i < n { CommandLineAt(tool, sources[..n], i); }
  }

  ghost predicate AllPresent(sources: seq<Source>, host: Host) {
    forall i :: 0 <= i < |sources| ==> sources[i].path in host
  }

  /** The archive that is asked for: the host's own files under the names given. */
  function Wanted(sources: seq<Source>, host: Host): (files: seq<File>)
    requires AllPresent(sources, host)
    ensures |files| == |sources|
  {
    seq(|sources|, i requires 0 <= i < |sources| => File(sources[i].name, host[sources[i].path]))
  }

  /** Of an archive that fits below 2^32 no file is cut short or misnamed. */
  lemma {:induction false} InputsAreWanted(tool: seq<byte>, sources: seq<Source>, host: Host)
    requires AllPresent(sources, host)
    requires Start(Wanted(sources, host), |sources|) < TWO32
    ensures var argv := CommandLine(tool, sources);
      AllRead(argv, host, |sources|) && Inputs(argv, host, |sources|) == Wanted(sources, host)
  {
    hide Start, CommandLine, SourcePath, ArchiveName;
    var argv, files := CommandLine(tool, sources), Wanted(sources, host);
    forall i | 0 <= i < |sources|
      ensures SourcePath(argv, i) in host && Inputs(argv, host, |sources|)[i] == files[i]
    {
      CommandLineAt(tool, sources, i);
      RegionsPacked(files, i, |sources|);
      WrapSmall(|files[i].content|);
    }
  }

  /** `main` for a command line of pairs: no image exactly if some file is missing; otherwise the image of the
      files wanted. */
  method WriteSources(tool: seq<byte>, sources: seq<Source>, host: Host)
    returns (img: Option<seq<byte>>, ghost stale: seq<byte>)
    requires |sources| < MAX_HEADERS && forall i :: 0 <= i < |sources| ==> |sources[i].name| < NAME_SIZE
    ensures |stale| == TABLE_SIZE
    ensures img == None <==> exists i :: 0 <= i < |sources| && sources[i].path !in host
    ensures img.Some? ==> AllPresent(sources, host)
    ensures img.Some? && Start(Wanted(sources, host), |sources|) < TWO32 ==>
      img.value == Image(|sources|, Wanted(sources, host), stale)
  {
    hide Start, Image, CommandLine, Inputs, NHeaders;
    var argv := CommandLine(tool, sources);
    NHeadersExactIff(|sources|);
    forall i | 0 <= i < |sources|
      ensures SourcePath(argv, i) == sources[i].path && ArchiveName(argv, i) == sources[i].name
    {
      CommandLineAt(tool, sources, i);
    }
    img, stale := WriteImage(argv, host);
    if AllPresent(sources, host) && Start(Wanted(sources, host), |sources|) < TWO32 {
      InputsAreWanted(tool, sources, host);
    }
  }

  /** `main`, from the arguments and the host's files to the image. */
  method WriteImage(argv: seq<seq<byte>>, host: Host) returns (img: Option<seq<byte>>, ghost stale: seq<byte>)
    requires |argv| > 0
    requires forall i :: 0 <= i < NHeaders(|argv|) ==> |ArchiveName(argv, i)| < NAME_SIZE
    ensures |stale| == TABLE_SIZE
    ensures img == None <==> exists i :: 0 <= i < NHeaders(|argv|) && SourcePath(argv, i) !in host
    ensures img.Some? ==>
      var n := NHeaders(|argv|);
      img.value == Image(Wrap(n), Inputs(argv, host, if n < 0 then 0 else n), stale)
  {
    var nheaders := NHeaders(|argv|);
    NHeadersBound(|argv|);
    var n: nat := if nheaders < 0 then 0 else nheaders;
    var headers := new byte[TABLE_SIZE];
    stale := headers[..];
    var ok := FillHeaders(argv, host, n, headers);
    if !ok {
      return None, stale;
    }
    var contents := AppendContents(argv, host, n);
    img := Some(U32Bytes(Wrap(nheaders)) + headers[..] + contents);
  }

  /** The first loop: every source is opened and measured, and its header filled in. */
  method FillHeaders(argv: seq<seq<byte>>, host: Host, n: nat, headers: array<byte>) returns (ok: bool)
    requires n < MAX_HEADERS && 2 * n < |argv| && headers.Length == TABLE_SIZE
    requires NamesFit(Inputs(argv, host, n))
    modifies headers
    ensures ok <==> forall i :: 0 <= i < n ==> SourcePath(argv, i) in host
    ensures ok ==> headers[..] == Table(Inputs(argv, host, n), n, old(headers[..]))
  {
    hide Table, Start, Inputs, SourcePath;
    ghost var stale, files := headers[..], Inputs(argv, host, n);
    var off: u32 := 4868;
    var i := 0;
    ok := true;
    TableStart(files, stale);
    while i < n && ok
      invariant 0 <= i <= n
      invariant forall j :: 0 <= j < i ==> SourcePath(argv, j) in host
      invariant ok ==> off == Wrap(Start(files, i)) && headers[..] == Table(files, i, stale)
      invariant !ok ==> i < n && SourcePath(argv, i) !in host
      decreases n - i, ok
    {
      ok, off := FillOne(argv, host, i, headers, off, files, stale);
      i := if ok then i + 1 else i;
    }
  }

  /** One iteration: open the source, or fail; fill in header `i`; advance the offset. */
  method FillOne(argv: seq<seq<byte>>, host: Host, i: nat, headers: array<byte>, off: u32,
                 ghost files: seq<File>, ghost stale: seq<byte>) returns (ok: bool, next: u32)
    requires i < |files| < MAX_HEADERS && 2 * |files| < |argv| && headers.Length == |stale| == TABLE_SIZE
    requires NamesFit(files) && files == Inputs(argv, host, |files|)
    requires off == Wrap(Start(files, i)) && headers[..] == Table(files, i, stale)
    modifies headers
    ensures ok <==> SourcePath(argv, i) in host
    ensures ok ==> next == Wrap(Start(files, i + 1)) && headers[..] == Table(files, i + 1, stale)
  {
    hide Table, Start, WriteHeader;
    assert files[i] == Input(argv, host, i);
    var path := SourcePath(argv, i);
    if path !in host {
      return false, off;
    }
    var length: u32 := Wrap(|host[path]|);
    var name := ArchiveName(argv, i);
    TableStep(files, i, stale);
    FillHeader(headers, Slot(i), name, off, length, files[i]);
    return true, Wrap(off + length);
  }

  /** The second loop: the contents follow in order. */
  method AppendContents(argv: seq<seq<byte>>, host: Host, n: nat) returns (out: seq<byte>)
    requires 2 * n < |argv|
    requires forall i :: 0 <= i < n ==> SourcePath(argv, i) in host
    ensures out == Contents(Inputs(argv, host, n), n)
  {
    ghost var files := Inputs(argv, host, n);
    out := [];
    var i := 0;
    while i < n
      invariant 0 <= i <= n
      invariant out == Contents(files, i)
    {
      out := out + Taken(host[SourcePath(argv, i)]);
      i := i + 1;
    }
  }

  /** The loop body's assignments to `headers[i]`. */
  method FillHeader(headers: array<byte>, h: nat, name: seq<byte>, off: u32, length: u32, ghost f: File)
    requires h + HEADER_SIZE <= headers.Length && |name| < NAME_SIZE
    requires f.name == name && length == |f.content|
    modifies headers
    ensures headers[..] == WriteHeader(old(headers[..]), h, f, off)
  {
    hide Poke, WriteHeader, U32Bytes;
    ghost var t := headers[..];
    Write(headers, h + NAME_AT, name + [0]);
    ghost var named := headers[..];
    StoreU32(headers, h + OFFSET_AT, off);
    ghost var placed := headers[..];
    StoreU32(headers, h + LENGTH_AT, length);
    ghost var sized := headers[..];
    headers[h] := MAGIC;
    assert headers[..] == sized[h := MAGIC];
    PokeByte(sized, h, MAGIC);
    HeaderStores(t, named, placed, sized, headers[..], h, f, off);
  }

  lemma {:induction false} TableStart(files: seq<File>, stale: seq<byte>)
    requires |files| <= MAX_HEADERS && |stale| == TABLE_SIZE && NamesFit(files)
    ensures Table(files, 0, stale) == stale && Wrap(Start(files, 0)) == 4868
  {
  }

  lemma {:induction false} TableStep(files: seq<File>, i: nat, stale: seq<byte>)
    requires i < |files| <= MAX_HEADERS && |stale| == TABLE_SIZE
    requires NamesFit(files)
    ensures Table(files, i + 1, stale) == WriteHeader(Table(files, i, stale), Slot(i), files[i], Wrap(Start(files, i)))
    ensures Wrap(Start(files, i + 1)) == Wrap(Wrap(Start(files, i)) + |files[i].content|)
  {
    WrapAdd(Start(files, i), |files[i].content|);
  }

  /** The four stores of one loop iteration, in their order, make one header. */
  lemma {:induction false} HeaderStores(t: seq<byte>, named: seq<byte>, placed: seq<byte>, sized: seq<byte>,
                                        done: seq<byte>, h: nat, f: File, off: u32)
    requires h + HEADER_SIZE <= |t| && |f.name| < NAME_SIZE && |f.content| < TWO32
    requires named == Poke(t, h + NAME_AT, f.name + [0])
    requires placed == Poke(named, h + OFFSET_AT, U32Bytes(off))
    requires sized == Poke(placed, h + LENGTH_AT, U32Bytes(|f.content|))
    requires done == Poke(sized, h, [MAGIC])
    ensures done == WriteHeader(t, h, f, off)
  {
    hide LittleEndian;
    WrapSmall(|f.content|);
    var w := t[h..h + HEADER_SIZE];
    var w1 := Poke(w, NAME_AT, f.name + [0]);
    var w2 := Poke(w1, OFFSET_AT, U32Bytes(off));
    var w3 := Poke(w2, LENGTH_AT, U32Bytes(|f.content|));
    assert t == Poke(t, h, w);
    PokeNested(t, h, w, NAME_AT, f.name + [0]);
    PokeNested(t, h, w1, OFFSET_AT, U32Bytes(off));
    PokeNested(t, h, w2, LENGTH_AT, U32Bytes(|f.content|));
    PokeNested(t, h, w3, 0, [MAGIC]);
  }
}
