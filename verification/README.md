# JasperOS: a verified model of its ramdisk, console and interrupt path

JasperOS is a small 32-bit x86 teaching kernel. This project models the three parts of it that carry
real invariants and proves, for all inputs and all runs, what they are for.

* **Ramdisk.** `MkInitrd` is the host tool that writes the archive, `Initrd` the kernel driver that
  relocates its headers in place and serves `readdir`, `finddir` and `read` from raw memory,
  `FileSystem` the node types, `InitrdLayout` the binary layout the two sides share. `RoundTrip` joins
  them: what the tool writes, placed anywhere in memory, is read back byte for byte by name.
  `Kmain` is the boot loop that lists and prints every file.
* **Console.** `Console` is the 80x25 screen, proved against a log of rows that only grows and of which
  the screen shows the last 25. `Util` is `itoa`, `Formatting` the `printf` family, proved against a
  rendering of the format's pieces, and `StandardPrintf` compares it with the C standard. `CMemory` and
  `CString` are the copy and string loops they rest on.
* **Interrupts.** `Pic` is a pair of 8259A controllers and their driver, `Stub` the assembly stubs
  instruction by instruction, `Idt` the gates. `Interrupts` is a step machine in which interrupts may arrive
  between any two steps while IF is set: the processor goes through the gate of the vector that the
  controllers name, runs the code at the gate's entry point, and the dispatcher finds its argument in the
  frame on the stack. `Isr` holds the gate and handler tables, `irq_handler` and the boot sequence that
  starts the machine, `Timer` the tick counter and the polling delay.

Code that changes state is modelled by methods over arrays and class fields, each proved against a
function of the old state; what is promised about that function is proved in lemmas. The assembly stubs
are data, lists of instructions that an `Exec` function interprets.

`dafny verify dfyconfig.toml` checks the whole project.

## What is assumed

* `int`, `unsigned int` and `unsigned long` are 32 bits wide and wrap in two's complement
  (`CTypes.Wrap`); a negative `int` converts modulo 2^32. `-d` of the smallest integer wraps to itself.
* `malloc` is not defined in the repository. It is taken to return fresh zero-filled memory that overlaps
  nothing else. The kernel's `strcpy` writes no terminator, so names copied into new nodes are terminated
  only because of that (`CString.StrCpyTerminatedIff`).
* An archive has at most 63 files with names of 1 to 63 bytes other than NUL (`InitrdLayout.ValidFiles`),
  and its address plus its size is below 2^32. The limit of 63 comes from `char argc`
  (`MkInitrd.NHeadersExactIff`). Header slots that are not used, padding bytes and the bytes of a name
  array behind the terminator are arbitrary: they are whatever `stale` was. Source files do not change
  between the tool's two passes over them.
* Memory blocks that C addresses by pointer are separate Dafny arrays: memory with the ramdisk in it is
  `ram`, indexed by address; a buffer, a node's name and the video memory are others. Node `i` of the
  single `root_nodes` block is a node of its own.
* The controllers follow the Intel 8259A datasheet: initialization command words (ICW1 clears the mask and
  the edge latches), operation command words 1 and 2, fully nested mode, the cascade, and the default
  IRQ7 of a request that goes away. Nothing is in service when the kernel starts.
* Interrupt handlers in C follow cdecl, leave the saved frame and IF alone and issue no end-of-interrupt
  of their own; they and the interrupted program may change masks. `timer_callback` is registered for IRQ0
  only, and stays. The program keeps its four data segments equal and leaves room on its stack for a saved
  frame (`Interrupts.Fit`).
* The 48 stubs of exception_handler.asm are at different addresses. An interrupt that is taken where no
  interrupt stub is, or inside a service, puts the machine into a state of which nothing is claimed
  (`Lost`); that this never happens is part of what is proved.

## Where the code differs from its own comments, or from what one would expect

* vga.c:56 says `printf` is "just like the libc function". A directive with a zero flag, a width and d, u, x,
  s or c prints the standard's field if and only if its width has at most one digit, it is not padded with
  zeros in front of a minus sign, and it is no character to be padded (`StandardPrintf.DirectiveStandardIff`,
  with `ZerosBeforeMinus` and `OneDigitWidth` as concrete failures); and `%%` consumes an argument and prints
  that as a character (`StandardPrintf.PercentTakesArgument`).
* `initrd_read` clamps with `offset+size` in 32 bits, so a size that makes the sum wrap is not clamped
  (`Initrd.ReadCountIff`).
* With 64 pairs of arguments the archive tool writes a count of 2^32 - 64 and no file
  (`MkInitrd.SixtyFourPairsWrap`).
* vga.c:20 compares a row with the number of columns; the scroll it guards is never reached
  (`Console.Screen.Putchar` asserts it).
* The boot loop prints the offset of file 0 as the location of /dev, because /dev has inode 0
  (`Kmain.EntryAddress`).
* `irq_handler` passes the vector to `pic_eoi`, which expects a line, so both controllers always get an
  end of interrupt. That is right only while services do not nest (`Pic.EoiRetiresIff`,
  `Pic.NestedServiceIsLost`).
* The stubs save DS only (`Stub.TransparentIff`), and the stubs for vectors 17 and 21 do not account for
  the error code the processor pushes (`Stub.ExceptionFrameIff`).
* `delay` returns at once when its target wraps (`Timer.DelayLongEnoughIff`).

## Model

| member | source | states |
|---|---|---|
| `CMemory.MemCpy` | sys.c:54-60 | Between two blocks the destination window becomes the source's bytes and nothing else changes; inside one block the exact effect of an ascending copy, overlap included. `memcpy32` is the same loop on words |
| `CMemory.ForwardStep` | sys.c:58 | Inside one block, one more loop step takes the ascending copy of `i` elements to that of `i + 1`, also where the source was already overwritten |
| `CMemory.MemCpyCorrectIff` | sys.c:54-60 | `memcpy` inside one block gives the source's original bytes for every content if and only if the destination does not start inside the source range |
| `CMemory.MemMove` | sys.c:62-73 | For all positions and every `n`, the destination gets the source's original elements and nothing else changes. `memmove32` is the same on words |
| `CMemory.LoadStored` | initrd.h:12-18 | A 32-bit field reads back the value whose little-endian bytes stand in it |
| `CMemory.LeastFirst` | initrd.h:12-18 | Words are stored least significant byte first |
| `CMemory.LoadAfterPoke` | initrd.c:112 | A word load sees a word store at its address exactly, and nothing of one elsewhere |
| `CString.StrLen` | string.c:4-11 | The length of the C string, the bytes before the first NUL |
| `CString.StrCpy` | string.c:13-18 | Writes the first byte, then the string that follows it, and nothing behind: no terminator |
| `CString.StrCpyCopiesIff` | string.c:13-18 | The bytes written are the source string if and only if that string is not empty |
| `CString.StrCpyTerminatedIff` | string.c:13-18 | The destination then is that C string if and only if the byte behind it was NUL before |
| `CString.StrCmp` | string.c:37-54 | Returns 0 if and only if the two C strings are equal, otherwise 1, never an ordering |
| `InitrdLayout.RegionsPacked` | initrd/mkinitrd.c:17-32 | File regions lie in order from byte 4868 on, disjoint, each starting where the one before ends |
| `InitrdLayout.HeaderRoundTrip` | initrd/mkinitrd.c:21-34 | The reader decodes from a header exactly the magic, name, offset and length that the writer stored, whatever the 76 bytes held before |
| `InitrdLayout.TableHolds` | initrd/mkinitrd.c:19-35 | After the header loop every header of the table decodes to its own file; later iterations disturb no earlier header |
| `InitrdLayout.ContentsHold` | initrd/mkinitrd.c:42-50 | In the contents written one after the other, every file's bytes stand at its start |
| `InitrdLayout.ImageHolds` | initrd/mkinitrd.c:12-56 | Memory with the image at any base holds the whole archive as the reader decodes it: count, every header, every content |
| `InitrdLayout.ImageLayout` | initrd/mkinitrd.c:5-50 | The image in plain numbers: count at 0, header `i` at 4 + 76i with magic 0xBF at 0, name at 1, offset at 68, length at 72, contents from 4868 on, each file at its offset |
| `InitrdLayout.RelocatedOffset` | initrd.c:105-112 | Relocation adds the location to exactly the first `k` offset fields |
| `InitrdLayout.RelocatedElsewhere` | initrd.c:105-112 | and changes no byte outside these fields |
| `InitrdLayout.RelocatedHeader` | initrd.c:105-126 | After `k` iterations the first `k` headers differ from the originals in the offset only, the others not at all |
| `InitrdLayout.RelocatedHolds` | initrd.c:105-126 | After relocation the archive is still all there: every content in place, every offset an absolute address |
| `MkInitrd.NHeadersExactIff` | initrd/mkinitrd.c:12-14 | With `argc` as a `char`, the number of headers is the number of argument pairs if and only if that is at most 63, and never overruns the array |
| `MkInitrd.NHeadersValue` | initrd/mkinitrd.c:12-14 | For every number of pairs: its remainder modulo 128, from 64 on taken as negative; a single argument too many changes nothing |
| `MkInitrd.SixtyFourPairsWrap` | initrd/mkinitrd.c:12-14 | The concrete failure: 64 pairs give -64 headers and a stored count of 2^32 - 64 |
| `MkInitrd.FillHeader` | initrd/mkinitrd.c:22-34 | The stores of one loop iteration into `headers[i]` make one encoded header and touch no other slot |
| `MkInitrd.HeaderStores` | initrd/mkinitrd.c:22-34 | The four stores, each at its own address in the array, together are one header written over its slot |
| `MkInitrd.FillHeaders` | initrd/mkinitrd.c:17-35 | The header loop succeeds if and only if every source exists, and then leaves the table for these files over the stale bytes |
| `MkInitrd.AppendContents` | initrd/mkinitrd.c:42-50 | The second loop writes the contents in order, without gaps |
| `MkInitrd.WriteImage` | initrd/mkinitrd.c:12-56 | For any argument list: fails if and only if some source is missing; otherwise the image is count, header table over arbitrary stale bytes, packed contents |
| `MkInitrd.CommandLineAt` | initrd/mkinitrd.c:21-24 | Of each pair of arguments the first is the path read from, the second the name in the archive |
| `MkInitrd.WriteSources` | initrd/mkinitrd.c:12-56 | For a command line of (path, name) pairs: no image if and only if some path is missing; otherwise the image of the host's bytes under the given names |
| `MkInitrd.InputsAreWanted` | initrd/mkinitrd.c:21-50 | In an archive that fits below 2^32 every file is the whole host file of its path, under its name |
| `Initrd.FirstIndex` | initrd.c:61-65 | The least index with that name, none if and only if the name is not listed |
| `Initrd.ReadCountIff` | initrd.c:28-33 | The 32-bit clamp returns what is left of the file, at most `size`, if and only if the offset is past the end or `offset+size` does not wrap; if it wraps, all of `size` is returned, more than is left |
| `Initrd.ServedHeader` | initrd.c:17-34 | In a loaded archive a header gives the absolute address of its file's bytes and their number |
| `Initrd.ReadServed` | initrd.c:25-34 | In a loaded archive a read at any offset returns exactly the file's bytes from there on, as many as are left, at most `size`; past the end nothing, whatever address that would be |
| `Initrd.ChunksServed` | initrd.c:25-34 | Reads that each go on where the last one stopped concatenate to the file from the first offset on, the whole rest once the sizes add up to it, provided no single `offset+size` wraps |
| `Initrd.CopyName` | initrd.c:114 | A name copied into a node's zeroed array is that C string |
| `Initrd.CopyAndTerminate` | initrd.c:49-50 | Whatever the shared entry held, its C string afterwards is exactly the name |
| `Initrd.Driver.DirNode` | initrd.c:75-100 | A fresh directory node with the given name and callbacks |
| `Initrd.Driver.FileNode` | initrd.c:113-125 | Node `i` has header `i`'s name and length, inode `i`, the read callback and no directory callbacks |
| `Initrd.Driver.Rebase` | initrd.c:112 | Memory after iteration `i` is memory after `i` iterations with header `i`'s offset raised by the location; its name and length stay |
| `Initrd.Driver.LoadOne` | initrd.c:107-126 | One iteration keeps the loop's invariant: `i` headers rebased, `i` nodes that mirror the original headers |
| `Initrd.Driver.Initialise` | initrd.c:68-129 | Root and /dev are directories of their names; every listed file has a node mirroring its original header; memory is the original with exactly these headers relocated |
| `Initrd.Driver.Mount` | initrd.c:68-129 | Loading a written archive leaves a driver that serves exactly its files |
| `Initrd.AddressServed` | initrd.c:17-23 | In a loaded archive the address given for an offset up to the length is base, start and offset added up, and memory there holds the file's byte at that offset |
| `Initrd.Driver.GetFileContentOffset` | initrd.c:17-23 | For every served file the address at which its byte `offset` stands in memory, and 0 past its end |
| `Initrd.Driver.InitrdReadFile` | initrd.c:25-34 | Copies exactly the bytes of the read into the buffer, changes nothing behind them, and returns their number; past the end it returns 0 without forming an address |
| `Initrd.Driver.InitrdReaddirAt` | initrd.c:37-53 | On the root entry 0 is "dev" with inode 0; entry `i` is file `i-1` with its node's inode; null exactly elsewhere. The entry's name is exactly that whatever it held before |
| `Initrd.Driver.ResolvedIs` | initrd.c:55-66 | The lookup told by names alone: null if and only if the name is not listed and not "dev" on the root; /dev for "dev" on the root; else the node of the first file so named |
| `Initrd.Driver.InitrdFinddirName` | initrd.c:55-66 | Returns that answer for the C string it is given |
| `Initrd.FirstIndexIs` | initrd.c:61-65 | An index whose name matches while none before it does is the one the lookup returns |
| `Initrd.Driver.ReadFs` | filesystem.c:8-15 | Dispatches to the callback, or returns 0 and leaves the buffer alone |
| `Initrd.Driver.ReaddirFs` | filesystem.c:40-48 | An entry if and only if the node is a directory with a callback and the index is listed; then its name and inode |
| `Initrd.Driver.FinddirFs` | filesystem.c:50-58 | That answer on a directory with a callback, else null |
| `RoundTrip.ArchiveRoundTrip` | initrd/mkinitrd.c:14-50 | For every list of files, stale bytes and base: after relocation the table lists the names in order, with distinct names the lookup of each gives its index, and reading its whole length gives exactly its bytes |
| `RoundTrip.WriteAndMount` | initrd.c:68-129 | The image written for a command line of pairs, placed anywhere and initialised, is served by the driver |
| `RoundTrip.ReadByName` | kmain.c:105-116 | `finddir_fs` and then `read_fs(node, 0, length)` give exactly the named file's bytes |
| `RoundTrip.ReadOne` | filesystem.c:8-15 | One `read_fs` of a served file at any offset gives its bytes from there on, as many as are left, at most the buffer's size, and none past the end |
| `RoundTrip.ReadInChunks` | filesystem.c:8-15 | Repeating `read_fs` from where the last one stopped until it returns 0 gives the whole file, for every chunk size |
| `RoundTrip.WriteLoadRead` | initrd/mkinitrd.c:12-56 | Through the real calls from tool to kernel: reading the name given with a path yields the bytes the host has under that path |
| `Console.PutEffect` | vga.c:17-47 | One character moves the cursor on, stores itself in the cell it was on, changes no other cell, and never goes back over a passed cell |
| `Console.BreakEffect` | vga.c:31-38 | Newline and carriage return move to the start of the next row, append a blank row exactly if the cursor was on the last, and write nothing |
| `Console.RowsGrow` | vga.c:31-46 | Over any text the screen scrolls exactly as far as the cursor needs, by breaks and wrapping alike |
| `Console.PassedForGood` | vga.c:17-47 | Over any text, a cell that the cursor has passed never changes again |
| `Console.ScrolledRowsKept` | vga.c:312-324 | Every row above the cursor, hence every row scrolled off, stays as it is for ever |
| `Console.EveryGlyphKept` | vga.c:17-47 | After any text each of its characters stands in the log where the cursor was when it was printed |
| `Console.OtherCellsKept` | vga.c:17-47 | and a cell the cursor never printed on keeps its content, new rows starting blank |
| `Console.LineLayout` | vga.c:42-46 | Without line breaks, character `i` lands `(col + i) / 80` rows down in column `(col + i) % 80` |
| `Console.LayoutAfterBreak` | vga.c:31-46 | In any text a character's place is its distance from the last line break, counted in rows of 80 from the row below that break |
| `Console.PutAllConcat` | vga.c:17-47 | Printing one text and then another is printing both at once |
| `Console.MovedUp` | vga.c:314-318 | The overlapping `memcpy` of `scroll_ln` moves 24 rows up intact and leaves the memory behind the screen alone |
| `Console.CellStored` | vga.c:277-281 | Two byte stores at a cell's offset change that cell of the grid and no other |
| `Console.ShownBytes` | vga.c:40-41 | Byte `160r + 2c` is the character, the next the colour, of the log's cell in the last 25 rows |
| `Console.Screen.constructor` | vga.c:10-15 | Any screen contents and any cursor on it are a valid start, with the 25 visible rows as the log |
| `Console.Screen.SetCharAt` | vga.c:277-281 | Sets the two bytes of a cell |
| `Console.Screen.ScrollLn` | vga.c:312-324 | Row `r` becomes old row `r+1`, the last row blank with attribute 7, the cursor one row up, no byte beyond 4000 changes |
| `Console.Screen.Newline` | vga.c:32-39 | Breaks the line in the log; the screen shows the last 25 rows of it again |
| `Console.Screen.StoreCell` | vga.c:40-42 | Stores the character in the log's cell under the cursor, and the screen shows it |
| `Console.Screen.TabSpaces` | vga.c:24-29 | The four stores of a tab touch only the cell under the cursor, which the character then overwrites |
| `Console.Screen.Putchar` | vga.c:17-47 | From any valid state the log takes the character, the 4000 bytes again equal its last 25 rows, the cursor is on a cell, no other byte changes, and the early scroll is unreachable; the cursor goes right, or to the next row at column 80 and at a line break, and down no further than row 24 |
| `Util.DigitsParse` | util.c:40-47 | The digits of every number read back as that number, in base 10 and 16 |
| `Util.ParseDigits` | util.c:40-47 | and every digit string without a leading zero is what its value is printed as |
| `Util.DigitIs` | util.c:45 | The digits are 0 to 9 and lower-case a to f |
| `Util.SmallTexts` | util.c:23-63 | -42 in `d`, 42 in `u` and 0xab in `x` as they read |
| `Util.NoLeadingZero` | util.c:40-47 | The first digit is 0 only for zero itself, which has one digit |
| `Util.DigitCount` | util.c:40-47 | A number below base^k has at most k digits |
| `Util.TextIsExact` | util.c:23-63 | For every 32-bit value the text denotes exactly that value, signed for `d` and unsigned for `u` and `x`, without leading zeros, with a minus sign only when negative, in at most 11 characters |
| `Util.WriteDigits` | util.c:40-47 | The digit loop writes the digits least significant first and nothing else |
| `Util.FlipReversed` | util.c:52-62 | The digits in the order the loop finds them, turned round, are the digits in reading order |
| `Util.ReverseInPlace` | util.c:52-62 | The closing loop turns the digits round in place and touches nothing else |
| `Util.Itoa` | util.c:23-63 | The buffer starts with the number's text and a NUL, and nothing behind changes |
| `Util.Reverse` | util.c:8-21 | Turns the C string round in place, its terminator and the rest unchanged |
| `Util.FlipTwice` | util.c:8-21 | Turning a string round twice gives it back |
| `Formatting.ParseUnparse` | vga.c:58-117 | Every list of literals and directives is what its spelling is read as |
| `Formatting.UnparseParse` | vga.c:58-117 | Every format that does not end inside a directive is the spelling of what it is read as |
| `Formatting.FieldShape` | vga.c:90-109 | A padded field is as long as the wider of width and text, ends in the text, and is zeros or spaces before it, also before a minus sign |
| `Formatting.OutputStep` | vga.c:58-117 | The output is that of the first piece followed by that of the rest of format and arguments |
| `Formatting.NumberText` | vga.c:90-95 | The C string that `itoa` leaves in the 64-byte buffer is the number's text |
| `Formatting.PutField` | vga.c:103-109 | The code at label `string` prints padding and text |
| `Formatting.PutDirective` | vga.c:70-115 | One directive prints its field and leaves the format pointer right behind it |
| `Formatting.PutArgument` | vga.c:88-114 | The `switch` on the conversion prints the argument's field |
| `Formatting.PutFormatted` | vga.c:58-117 | The shared loop prints exactly the rendering of the format, in its colour |
| `Formatting.Printf` | vga.c:58-117 | For every format not ending inside a directive, with enough arguments of the right kinds, the log takes exactly the rendering in colour 7 |
| `Formatting.ClrPrintf` | vga.c:183-243 | The same in the given colour |
| `Formatting.NPrintf` | vga.c:119-132 | On bytes without `%` it prints exactly the first `n` bytes, NULs included, and nothing for a negative `n` |
| `Formatting.PutText` | vga.c:107-108 | A text goes to `putchar` character by character, in order |
| `Formatting.TextStands` | vga.c:17-47 | A printed text without breaks stands on the screen character by character in its colour, in rows of 80 from the cursor on |
| `Formatting.LiteralPrefix` | vga.c:66-69 | Text without `%` before a format prints as it stands, before that format's output |
| `Formatting.PlainDirective` | vga.c:75-114 | A directive without width prints its argument's text, before the output of what follows |
| `StandardPrintf.DirectiveStandardIff` | vga.c:56-117 | For every directive of the C standard with a zero flag, a width of any size and d, u, x, s or c, and every argument it is defined for: the output is the standard's field if and only if the width has at most one digit, zeros are not padded before a minus sign, and no character is to be padded |
| `StandardPrintf.ReadAsMeantIff` | vga.c:75-86 | In front of any rest of a format, a directive is read as it is meant if and only if its width has at most one digit |
| `StandardPrintf.LongWidthOutput` | vga.c:82-113 | What a longer width prints instead: the argument as a character, the digits from the third on, the conversion letter; always shorter than the width |
| `StandardPrintf.FieldStandardIff` | vga.c:103-112 | For a directive as read, the field is the standard's if and only if the padding goes right |
| `StandardPrintf.ZerosBeforeMinus` | vga.c:103-109 | A concrete failure: `%03d` of -1 prints 0-1, in the standard -01 |
| `StandardPrintf.OneDigitWidth` | vga.c:82-86 | A concrete failure: `%10d` of 5 prints the character with code 5 and the letter d |
| `StandardPrintf.SpacesFill` | vga.c:103-106 | `%5d` of 42 prints three spaces and 42 |
| `StandardPrintf.ZerosFill` | vga.c:103-106 | `%05u` of 42 prints 00042 |
| `StandardPrintf.NullPrints` | vga.c:98-101 | `%s` of a null pointer prints (null) |
| `StandardPrintf.PercentTakesArgument` | vga.c:111-113 | `%%` can be printed if and only if there is an int argument, and prints that as a character |
| `Kmain.FoundPrints` | kmain.c:103 | The first line of an entry is the file's name |
| `Kmain.LocationPrints` | kmain.c:110 | The second line is the address in hexadecimal, for addresses above 2 GiB as well |
| `Kmain.EntryIsOwn` | kmain.c:100-124 | On the root a file's own name leads to that very file if and only if it is not "dev" and no earlier file has it; then its entry shows its own address and contents |
| `Kmain.ShownWhole` | kmain.c:115-118 | A file is shown whole if and only if it is below 2 GiB, and otherwise not at all |
| `Kmain.FileEntryReads` | kmain.c:103-121 | The entry of a file as it reads: name, hexadecimal address, contents, with their fixed texts, line breaks and colours |
| `Kmain.DevEntryReads` | kmain.c:103-112 | The entry of /dev as it reads |
| `Kmain.ReportParts` | kmain.c:100-124 | The report is the entry of /dev and then each file's in header order, nothing between |
| `Kmain.DistinctAreOwn` | kmain.c:100-124 | With distinct names no earlier file has the name |
| `Kmain.ReadContents` | kmain.c:115-116 | The buffer read into holds exactly the file |
| `Kmain.ShowContents` | kmain.c:114-121 | Shows the file's bytes in order between its two fixed texts |
| `Kmain.EntryNode` | kmain.c:105-110 | Every listed name resolves to a node; "dev" to the directory, a file's name to the first file so named, with the address that is printed |
| `Kmain.Locate` | kmain.c:105-110 | The node and address of an entry |
| `Kmain.ShowLines` | kmain.c:103-110 | The two lines of an entry, in their colour |
| `Kmain.ShowTail` | kmain.c:111-122 | The directory note, or the contents |
| `Kmain.ShowEntry` | kmain.c:103-122 | One iteration prints exactly one entry, changes nothing of the driver, and records the address of program.mod |
| `Kmain.ReadEntry` | kmain.c:102 | The listing ends after "dev" and every file, not before, for every archive |
| `Kmain.NextEntry` | kmain.c:102 | The same, with the console untouched |
| `Kmain.Visit` | kmain.c:105-109 | One iteration finds the entry's node and address and remembers the program's |
| `Kmain.ListAll` | kmain.c:100-124 | For every archive, whatever its contents: the loop meets "dev" and then every file in header order, each with its node and address, ends after the last, and has found the program's address if and only if there is a program |
| `Kmain.Enumerate` | kmain.c:100-124 | The loop ends; it prints "dev" once and every file once in header order; it finds the program's address if and only if there is a program |
| `Kmain.WriteAndReport` | kmain.c:99-124 | From the tool to the screen: writing the archive, mounting it and enumerating it prints the report of the host's own files in argument order |
| `Pic.EoiEffect` | pic.c:27-33 | The writes of `pic_eoi` retire the most urgent service of the master, and of the slave for arguments from 8 on, and nothing else |
| `Pic.EoiOfVector` | pic.c:27-33 | For a vector these are the non-specific EOI to the slave's and then to the master's command port |
| `Pic.EoiRetiresIff` | ISR.c:153-163 | Passing the vector to `pic_eoi` restores the in-service registers from before the acknowledge if and only if no line of the slave was in service (for the slave's own lines always), and for a spurious IRQ7 none at all |
| `Pic.NestedServiceIsLost` | ISR.c:153-163 | The concrete failure if services could nest: IRQ0 inside a slave service retires the slave's line |
| `Pic.RemapChangesBases` | pic.c:35-62 | Remapping changes nothing but bases and pending edges; a base is the offset given if and only if that is a multiple of 8 |
| `Pic.RemapNeedsRestore` | pic.c:42-61 | Without the last two writes every line would be unmasked |
| `Pic.MaskedSet` | pic.c:64-94 | Setting or clearing one mask bit inserts or removes exactly that line of the 16-line set, and nothing but the mask registers |
| `Pic.DriverRefinesSet` | pic.c:35-94 | Every run of mask, unmask and remap calls keeps the mask registers equal to an abstract set changed by insert and remove, and the controllers configured |
| `Pic.Controllers.PicEoi` | pic.c:27-33 | Does the port writes of an end of interrupt |
| `Pic.Controllers.PicRemap` | pic.c:35-62 | Leaves the whole pair remapped, masks restored |
| `Pic.Controllers.InstallControllers` | ISR.c:99-108 | Leaves the pair set up with vectors 32 to 47 and mask 0 |
| `Pic.InstalledUnmasked` | ISR.c:107-108 | After that no line of the sixteen is masked |
| `Pic.EveryLineAsks` | ISR.c:107-108 | With no line masked and nothing in service a request on any line makes the master ask |
| `Pic.MostUrgent` | ISR.c:99-108 | A controller as set up passes on a line if and only if it is requested and unmasked, no lower line is, and nothing from it down is in service |
| `Pic.VectorOfLine` | ISR.c:101-125 | Line `k` of the master comes in with vector 32 + k, of the slave with 40 + k, spurious ones with 39 and 47 |
| `Pic.Controllers.IrqSetMask` | pic.c:64-78 | Masks exactly that line, on the controller that has it; numbers 16 to 39 name no line and change nothing |
| `Pic.Controllers.IrqClearMask` | pic.c:80-94 | Unmasks exactly that line; numbers 16 to 39 change nothing |
| `Stub.ReachesCall` | exception_handler.asm:31-41 | At the call the stack is the interrupted one, the frame in declared order, and the pointer to it; IF is clear |
| `Stub.FieldsSeen` | ISR.h:73-79 | The pointer passed sees every `cpu_state_t` field up to `eflags` in its declared place |
| `Stub.WordsSeen` | ISR.h:73-79 | The words at the pointer, offset by offset, are the interrupted registers, vector, error code 0 and return state |
| `Stub.ResumesFromFrame` | exception_handler.asm:43-54 | Whatever the handler does, the program resumes with what the frame then holds, its own stack and all four data segments from the one DS word |
| `Stub.TransparentIff` | exception_handler.asm:31-80 | An interrupt whose handler leaves the frame alone restores the whole processor state if and only if DS, ES, FS and GS were equal |
| `Stub.ExceptionFrameIff` | exception_handler.asm:56-113 | An exception stub leaves error code and vector where `cpu_state_t` has them for every vector below 32 if and only if it is not 17 or 21 |
| `Interrupts.StepKeeps` | exception_handler.asm:31-80 | Every step of program, devices, processor, stub and dispatcher keeps the invariant, and only a program step changes what the program sees |
| `Interrupts.RunTransparent` | exception_handler.asm:31-80 | In every run, wherever interrupts strike and through whatever gates they go, the program's state is what the program alone computes, given the tick counts it meets |
| `Interrupts.StepCounts` | timer.c:16-19 | No step loses or invents a timer interrupt: each one taken with vector 32 is in flight, or has been added to the counter |
| `Interrupts.RunCounts` | timer.c:16-19 | After every run ticks have grown by the number of timer interrupts taken, less the one in flight, modulo 2^32 |
| `Interrupts.RunSafe` | ISR.c:153-163 | In every state of every run: with IF set nothing is in service on either controller, and ticks have grown by the timer interrupts served, modulo 2^32 |
| `Interrupts.NoLineBlocked` | pic.c:27-33 | With nothing in service, an unmasked request on any line makes the master ask for an interrupt |
| `Interrupts.AcknowledgeIdle` | ISR.c:110-125 | An acknowledge on idle controllers, spurious ones included, puts at most one line of each in service and gives a vector from 32 to 47 |
| `Interrupts.AcceptedIs` | ISR.c:110-125 | With the gates of `isr_install` each vector is served by its own stub, found at its gate's entry point |
| `Interrupts.GateTypeIff` | ISR.c:110-125 | A service starts with IF clear if and only if its gate is an interrupt gate; through a trap gate any further interrupt loses the machine |
| `Interrupts.AcceptKeeps` | ISR.c:110-125 | Taking an interrupt through its gate keeps the invariant, leads into its stub, and leaves the program's state as it was |
| `Interrupts.IntNoIsStub` | ISR.c:156-161 | What the dispatcher reads in `state->int_no`, through the pointer on the stack, is the vector its stub pushed |
| `Interrupts.PortKeeps` | pic.c:27-33 | Each end-of-interrupt write keeps the invariant: slave empty after the first, master after the second |
| `Interrupts.CallbackKeeps` | ISR.c:156-159 | The callback of the vector in the frame runs, which raises ticks for IRQ0 and for no other |
| `Interrupts.ExitKeeps` | exception_handler.asm:43-54 | The way back ends in the program with the very state it was interrupted in |
| `Interrupts.ServiceShrinks` | exception_handler.asm:31-54 | A service cannot be interrupted, and each of its steps brings `iret` nearer |
| `Interrupts.ServiceGoesOn` | exception_handler.asm:31-54 | and there is always a next step of it, so that every service ends |
| `Idt.GateKeepsAddress` | IDT.c:12-20 | The two address halves of a gate give back the address |
| `Isr.Tables.IdtSetDescriptor` | IDT.c:12-20 | Sets one gate and no other: low and high half of the address, selector 8, the flags given |
| `Isr.Tables.InstallGates` | ISR.c:65-96 | A row of gates leads to its stubs, as interrupt gates, and no other gate changes |
| `Isr.Tables.IsrInstall` | ISR.c:63-128 | All 48 vectors lead to their stubs through interrupt gates, other gates stay, the controllers are installed with no line masked |
| `Isr.Tables.RegisterInterruptHandler` | ISR.c:130-138 | Sets one handler and no other |
| `Isr.Tables.IrqHandler` | ISR.c:153-163 | Calls the vector's handler, if there is one, and then does exactly the end-of-interrupt writes |
| `Isr.PortWritesApply` | pic.c:27-33 | The machine's single port writes add up to what `PicEoi` does in one call, and touch nothing else |
| `Isr.MachineDoesIrqHandler` | ISR.c:153-163 | The machine's callback and port-write steps have exactly the effect of `IrqHandler`, for the vector in the frame, on ticks and controllers |
| `Isr.Tables.Boot` | kmain.c:30-32 | Registering the timer and then `isr_install`, from zeroed tables and idle controllers, leave no line masked and a machine that satisfies the invariant, so that everything proved of its runs holds |
| `Isr.BootedLinesAsk` | ISR.c:107-127 | After booting a request on any line makes the master ask |
| `Timer.Counter.Callback` | timer.c:16-19 | One more tick, modulo 2^32 |
| `Timer.Counter.Serve` | timer.c:16-19 | `n` services are `n` ticks, modulo 2^32 |
| `Timer.Counter.Delay` | timer.c:9-14 | Returns at the first poll that reads at least the target |
| `Timer.DelayLongEnoughIff` | timer.c:9-14 | `delay` waits for at least `millis/10` services under every interrupt schedule if and only if the target does not wrap |
| `Timer.NotTooEarly` | timer.c:9-14 | If the target does not wrap, a reading that ends the loop comes only after `millis/10` services |
| `Timer.DelayEnds` | timer.c:9-14 | It ends by the poll at which enough services came, if no gap before was long enough to run the counter past its wrap-around |
| `Timer.DelayEndsIff` | timer.c:9-14 | For a target that does not wrap and at least one tick: `delay` returns under every schedule with gaps up to `g` and services without end if and only if `g` is at most 2^32 less the target |
| `Timer.ReadingsInRun` | timer.c:35-38 | In every run of the machine the program reads at each step the first count plus the timer interrupts served so far, which never get fewer |
| `Timer.RunIsSchedule` | timer.c:9-14 | Every run of the machine is a schedule whose polls read what the program reads and wait as long |
| `Timer.DelayInRun` | timer.c:9-14 | A `delay` whose target does not wrap returns in the machine only after at least `millis/10` timer interrupts were served |
| `Timer.DelayEndsInRun` | timer.c:9-14 | and it has returned by the first reading after that many, if no more than the bound of `DelayEndsIff` came between two readings |

## Left out

- Ports, inline assembly, `loader.asm`, `asmfunc.asm`, `program.asm` and `fill_screen.c`: a port access is an operation on the controllers' state.
- File input and output of mkinitrd.c and its progress messages: files are byte sequences, the image is the concatenation of the writes; the two passes see the same files.
- MkInitrd.WriteImage: names of 64 bytes and more, which overrun the header's name array, are excluded by its precondition.
- Aliasing between a caller's buffer and memory holding the ramdisk: `InitrdReadFile` has them apart, so an overlapping `memcpy` there is not covered.
- Initrd.Driver.FileNode: the node's memory is a fresh zeroed node for each file, not element `i` of one zeroed block.
- `readdir` and `finddir` on the /dev node list and find the root's files; the contracts say so, and nothing more is made of it.
- `write_fs`, `open_fs`, `close_fs`: no node of this kernel has these callbacks.
- Formatting.NPrintf: says nothing of content with `%`, because the code then takes its arguments from its own parameter `n` and counts directives, not bytes.
- Formatting.Printf: formats that end inside a directive, and missing arguments, read beyond their data in C and are excluded.
- Kmain.ShowContents: like `nprintf`, only for files without `%`; from 2 GiB on the `int` count is negative and nothing is shown, as `Kmain.Shown` says.
- Kmain.ShowTail: only for an entry whose file has no `%`, as it shows contents by `nprintf`.
- Kmain.ShowEntry: likewise only for an entry without `%`; and the lookup precedes the first line, which it cannot influence.
- Kmain.Enumerate: likewise only for archives without `%` in any file; `Kmain.ListAll` covers the others, without what they print.
- Kmain.WriteAndReport: likewise; and without any file the offset printed for /dev is whatever stale header 0 holds.
- StandardPrintf.DirectiveStandardIff: the standard's other flags, precisions, length modifiers and conversions. With a width from 10 on a string pointer would be printed as a character, whose code is not part of this model.
- Console.Screen.Putchar: the hardware cursor; a tab is its net effect, the tab character stored in one cell.
- `clrscr`, `print_backspace`, `print_binary`, `set_char_xy`: easy, and they bypass the log.
- `strcat` (unsequenced in C), `register_to_string` (writes past a local array), `append`, `lower`, `backspace`, `memset`.
- Floating point, random numbers and the matrix copies of util.c; the inner loop at util.c:80 tests the wrong variable, so these have no round trip.
- pde.c and pte.c, which are not part of the kernel build; acpi.c; multiboot parsing in kmain.c.
- The divisor that `init_timer` programs: it sends the high byte first, so no frequency is claimed.
- `isr_handler` and returning from exceptions: it always halts, so an exception ends a run.
- Message tables and the messages that `register_interrupt_handler` prints.
- Interrupts.RunTransparent: the model keeps no bytes below ESP, so a program that reads below its stack pointer would see what a service left there; EIP does not advance inside a stub, and stack overflow is not modelled.
- Isr.Tables.IsrInstall: the 48 straight-line calls are two loops over the stubs' addresses, and `lidt` and `sti` at the end are left out.
- The controllers' rotating priorities, special mask mode, polling and register reads by OCW3, which the kernel does not use outside `__pic_get_irq_reg`.
- Timer.Counter.Delay: interrupts between two polls are a schedule of how many are served there; `Timer.RunIsSchedule` shows that runs of the step machine are such schedules, not that every schedule is one of its runs.
- Pic.Controllers.IrqSetMask: numbers from 40 on, for which the shift is undefined in C; likewise for clearing.
- Interrupts.RunCounts: the handler table does not change while the machine runs; the kernel registers its only handler before it enables interrupts.
