# Verification of the EFI library core and the terminal

A Dafny model of the parts of this repository in which most can go wrong: the device-path algebra, the
formatter and its buffers, the glob matcher, the table-driven CRC-32, the wide arithmetic on half words,
the intrusive list and its address conversion, the scrolling terminal with `itoa`, and the protocol and
pool loops. `dafny verify dfyconfig.toml` checks all of it.

Each routine modelled is a method in the source's own form: loops with invariants, arrays written
in place, classes whose fields are updated. Its contract ties it to a specification on sequences, numbers
and maps, and lemmas say what holds of that specification for every input. Constants and formats are pinned
by laws and samples that give them as numbers.

| file | models |
|---|---|
| `DevicePathNodes.dfy` | device paths as node sequences: instances, enumeration, joining, appending, unpacking, the packed encoding |
| `DevicePathFormat.dfy` | the same by its numbers: node format, end nodes, how paths are made, the 513-node limit |
| `DevicePath.dfy` | `dpath.c` over byte arrays, proved against the node sequences |
| `Formats.dfy` | the text a format and its arguments stand for, and what happens when formats are joined |
| `Directives.dfy` | what each directive prints, said of the format by its characters |
| `Printing.dfy` | `_Print` with its 200-cell chunk buffer, the truncating and the growing output, `VSPrint`, `CatPrint` |
| `Numbers.dfy` | `ValueToHex`, `ValueToString`, `xtoi`, `Atoi` and their round trips |
| `Numerals.dfy` | numerals by their characters: what is written, and what is read of any text |
| `MetaMatch.dfy`, `CStrings.dfy` | the backtracking matcher against the language of its pattern |
| `Patterns.dfy` | what sets and patterns accept, by their characters, and patterns joined |
| `Words.dfy`, `BitCrc.dfy`, `CrcTable.dfy`, `Crc.dfy` | CRC-32 one bit at a time, the literal table, the loop, the header seal and the damage it detects |
| `CrcResidue.dfy` | the residue law, the empty message and the check value |
| `WideMath.dfy` | shifts, product and restoring division on 32-bit halves |
| `LinkedLists.dfy` | list macros and `RtConvertList` on an address-indexed memory |
| `Terminal.dfy`, `Itoa.dfy` | the 80x25 screen as a window on an unbounded layout; number to text with truncating division |
| `Handlers.dfy` | installing, uninstalling and reinstalling lists of protocols on a small firmware |
| `PoolBuffers.dfy` | the `GrowBuffer` retry loop on a pool that remembers every block |
| `PoolMemory.dfy`, `Basics.dfy` | allocation and copying of blocks; machine words and a few plain notions |

The model is that of a 64-bit build: UINTN has 64 bits and CHAR16 has 16. MIN_ALIGNMENT_SIZE is a parameter.
Where the width matters it is written out (`% 0x1_0000...`). `ghost` parameters such as the node sequence
of a path or the ring of a list name what stands in memory; `DevicePath.OnePathAt` and
`LinkedLists.RingUnique` show that there is only one choice for them.

## Where the code and its documentation differ

The model follows the code.

- `AppendDevicePath` says it appends Src2 to every instance of Src1 (dpath.c:129-132). What a walk finds is
  the first instance and Src2, because the end of Src2 stays in the middle; the two agree exactly for a
  single instance, and the allocation is large enough exactly for `n = 1` or `Src2Size <= Src1Size`.
- The cut-off `Count > 01000` (dpath.c:75) is an octal number: 513 nodes, not 1001.
- `SwapListEntries` cuts Entry2 off the ring when it already stands before Entry1.
- The comment of `DivU64x32` asks for 31-bit divisors; the loop is right for 2^31 as well, and for nothing
  above it.
- `LibReinstallProtocolInterfaces` passes its argument, a pointer to the handle, where the service takes the
  handle itself (hand.c:603, 624; efiapi.h:675-680). In the model `given` is what the service receives. Its
  undoing pass runs in list order: every failure of a list, wherever it comes, is undone exactly when the
  list changes no protocol twice. A single failure of another list may be undone by luck.
- `UnpackDevicePath` leaves a device path only where the alignment divides 4, as on x86 and arm. With 8, as
  on aarch64, ia64 and mips64el, its end node is 8 bytes long, and DevicePathSize of the result is 4 short.
- A size of 0 means no limit for `SPrint`; so does 1, because the limit is computed as `StrSize / 2 - 1` in
  a UINTN. `%N`, `%H` and `%E` end a directive on a console and go on with it on a local output.
- `%lu` passes its argument through an INT64: from 2^63 on it prints a negative number. `-` moves the blanks
  of the field behind the text, but the padding up to the width stays in front: `%-5s` is `%5s`. `%X` sets its
  own width, 8 or 16, over any that is given.
- `terminal_column < 0` (vgatext.c:167) is never true of a `size_t`.

## Model

| member | source | states |
|---|---|---|
| DevicePathNodes.EnumeratedIsInstances | PacificOS2/efi/lib/dpath.c:48-106 | What repeated calls of DevicePathInstance return is the list of instances exactly when no instance has more than 513 nodes (the cut-off at `Count > 01000` is octal) |
| DevicePathFormat.EnumerationLimit | PacificOS2/efi/lib/dpath.c:48-106 | The enumeration yields the instances exactly when each has at most 513 nodes, and of a longer first instance its first 513 |
| DevicePathFormat.BehindLimit | PacificOS2/efi/lib/dpath.c:68-94 | Behind such a piece the enumeration ends if the 514th node has the subtype 0xFF, and otherwise goes on behind it |
| DevicePathFormat.NodeFormat | PacificOS2/efi/inc/efidevp.h:26-30 | A node in memory: type, subtype, the whole length in two bytes with the low one first, payload |
| DevicePathFormat.EndNodes | PacificOS2/efi/inc/efidevp.h:32-57 | Types 0x7F and 0xFF end an instance, with subtype 0xFF the path; the two end nodes byte by byte |
| DevicePathFormat.SinglePath | PacificOS2/efi/inc/efidevp.h:50-57 | Nodes that end nothing and an end of the path are a path of one instance |
| DevicePathFormat.LongerPath | PacificOS2/efi/inc/efidevp.h:50-57 | Nodes that end nothing and an end with subtype 1, in front of a path, give it one instance more |
| DevicePathFormat.PathParts | PacificOS2/efi/inc/efidevp.h:50-57 | Every path is made in one of these two ways |
| DevicePathFormat.SamplePath | PacificOS2/efi/lib/dpath.c:48-121 | A path of an empty instance and PciRoot(0)/Pci(1,2): its bytes, its instances and what the enumeration returns |
| DevicePathNodes.SizeOfInstances | PacificOS2/efi/lib/dpath.c:286-307 | The bytes of a path are the bytes of its instances plus one end node for each |
| DevicePathNodes.JoinedInstances | PacificOS2/efi/lib/dpath.c:397-433 | Opening the end of one path and putting another behind it gives a well-formed path whose instances are those of the first followed by those of the second |
| DevicePathNodes.JoinedEnumerated | PacificOS2/efi/lib/dpath.c:48-121 | As the library enumerates and counts them, the pieces of the joined path are those of both exactly when the enumeration of the first comes to its end; otherwise the second is never seen |
| DevicePathNodes.ShortReachesEnd | PacificOS2/efi/lib/dpath.c:68-94 | The enumeration comes to the end of every path with no instance over the cut-off |
| DevicePathNodes.JoinedShort | PacificOS2/efi/lib/dpath.c:397-433 | The joined path has no instance over the cut-off exactly when neither path has |
| DevicePathNodes.OpenedBytes | PacificOS2/efi/lib/dpath.c:422-428 | Turning the end of a path into the end of an instance changes exactly one byte, the subtype of the last node |
| DevicePathNodes.WalkedAtMost | PacificOS2/efi/lib/dpath.c:163-179 | What the enumeration returns, with an end node each, is at most the path, and all of it when no instance is over the cut-off |
| DevicePathNodes.AppendCopies | PacificOS2/efi/lib/dpath.c:163-186 | AppendDevicePath copies what it walks of Src1 and n times Src2Size for n pieces: Src1Size + n * Src2Size bytes when no instance is over the cut-off |
| DevicePathNodes.AppendFits | PacificOS2/efi/lib/dpath.c:163-186 | The exact condition under which that stays within the n * Src1Size + Src2Size bytes allocated: n = 1 or Src2Size <= Src1Size suffices always, and is necessary when no instance is over the cut-off |
| DevicePathNodes.AppendOverruns | PacificOS2/efi/lib/dpath.c:163-186 | Two empty instances and a Src2 of 16 bytes: 40 bytes are copied into 32 |
| DevicePathNodes.AppendedWalk | PacificOS2/efi/lib/dpath.c:170-193 | A walk over what AppendDevicePath wrote finds a well-formed path: the first instance of Src1 followed by all of Src2 |
| DevicePathNodes.WalkMeetsDocumentation | PacificOS2/efi/lib/dpath.c:124-193 | That is the append the routine documents, Src2 on every instance, exactly when Src1 has one instance |
| DevicePathNodes.SizingPassExact | PacificOS2/efi/lib/dpath.c:348-390 | Rounding the running total after each node gives the same size as rounding every node, so sizing and copying agree |
| DevicePathNodes.UnpackedAligned | PacificOS2/efi/lib/dpath.c:366-390 | Every node of an unpacked path starts at a multiple of the alignment, whatever that is |
| DevicePathNodes.UnpackedIsPath | PacificOS2/efi/lib/dpath.c:336-394 | The unpacked nodes form a path again exactly when every rounded length fits 16 bits and the alignment divides 4: it holds for 4, and for no path with 8 |
| DevicePathNodes.UnpackedMeasured | PacificOS2/efi/lib/dpath.c:336-394 | Where the alignment does not divide 4, a search for the end of the unpacked path takes it to be shorter than its block by the padding of the end node |
| DevicePathNodes.UnpackedRounded | PacificOS2/efi/lib/dpath.c:378-382 | An unpacked node fills whole multiples of the alignment; a bare end node stays bare exactly when the alignment divides 4 |
| DevicePathNodes.UnpackedInstances | PacificOS2/efi/lib/dpath.c:336-394 | Unpacking to an alignment that divides 4 keeps the instances: same number, and each is the old one unpacked node by node |
| DevicePathNodes.Unpacked | PacificOS2/efi/lib/dpath.c:378-382 | An unpacked node keeps its masked type, its subtype and its payload, with fewer zero bytes behind it than the alignment, and is marked as unpacked |
| DevicePathNodes.UnpackedTwice | PacificOS2/efi/lib/dpath.c:336-394 | Unpacking an unpacked path changes nothing |
| DevicePathNodes.RunBeginsPath | PacificOS2/efi/lib/dpath.c:1207-1227 | Comparing bytes is comparing nodes: the bytes of a run of inner nodes begin those of a path exactly when the nodes do |
| DevicePathNodes.PathDetermined | PacificOS2/efi/inc/efidevp.h:50-71 | The packed form is uniquely readable: of two paths whose bytes begin alike, neither can be longer |
| DevicePath.OnePathAt | PacificOS2/efi/inc/efidevp.h:50-71 | At one place in memory there is at most one device path |
| DevicePath.WalkStep | PacificOS2/efi/inc/efidevp.h:50-57 | The node macros read the header of the node a walk stands on, and NextDevicePathNode moves to the next one |
| DevicePath.DevicePathInstance | PacificOS2/efi/lib/dpath.c:48-106 | One instance: where it starts, the size of its nodes, or of the first 513 of them, and where the next one starts, or NULL behind the end of the path |
| DevicePath.EndOfInstance | PacificOS2/efi/lib/dpath.c:68-85 | The counting loop stops at the first end node, or at the 514th node |
| DevicePath.DevicePathInstanceCount | PacificOS2/efi/lib/dpath.c:108-121 | The number of pieces enumerated; that of the instances when none has more than 513 nodes; 0 for NULL |
| DevicePath.DevicePathSize | PacificOS2/efi/lib/dpath.c:286-307 | Exactly the bytes of the path, end node included |
| DevicePath.DuplicateDevicePath | PacificOS2/efi/lib/dpath.c:309-334 | A fresh block that holds the path, byte for byte, and nothing else |
| DevicePath.UnpackedSize | PacificOS2/efi/lib/dpath.c:348-359 | The sizing loop: the running total rounded up after every node |
| DevicePath.UnpackNode | PacificOS2/efi/lib/dpath.c:378-382 | One node copied, its length rounded up and written back, its type marked |
| DevicePath.UnpackInto | PacificOS2/efi/lib/dpath.c:375-390 | The copying pass fills the block exactly with the unpacked nodes |
| DevicePath.UnpackDevicePath | PacificOS2/efi/lib/dpath.c:336-394 | A fresh block, exactly filled with the unpacked path |
| DevicePath.AppendDevicePathInstance | PacificOS2/efi/lib/dpath.c:397-433 | A fresh block of exactly both sizes: the bytes of Src with the subtype of its end changed to 1, then those of Instance; a path whose instances are those of Src and then those of Instance, and as the library enumerates them too, exactly when its enumeration of Src comes to the end |
| DevicePath.AppendDevicePath | PacificOS2/efi/lib/dpath.c:124-194 | NULL arguments duplicate the other path; otherwise the copies pass the end of the block exactly when they do not fit the computed size, and if they fit, the copied bytes and what a walk finds in them |
| DevicePath.CopyInstances | PacificOS2/efi/lib/dpath.c:170-186 | The copying loop: every enumerated instance, Src2 and an end marker, in this order, unless the block ends before |
| DevicePath.AppendDevicePathNode | PacificOS2/efi/lib/dpath.c:197-230 | The single node gets an end and is appended as a path of its own, with the same condition for passing the end |
| DevicePath.CopyWithEnd | PacificOS2/efi/lib/dpath.c:209-221 | The single node with an end node behind it is a path |
| DevicePath.ComparisonIsSafe | PacificOS2/efi/lib/dpath.c:1207-1227 | Comparing an instance with a path stops before the end of the path is passed, and decides whether the instance's nodes begin it |
| DevicePath.CompareMem | PacificOS2/efi/lib/runtime/efirtlib.c:82-101 | The difference of the first two bytes that are not the same, or 0, reading no further |
| DevicePath.LibMatchDevicePaths | PacificOS2/efi/lib/dpath.c:1207-1227 | TRUE exactly when the nodes of some enumerated instance of Multi begin Single |
| Formats.RenderJoins | PacificOS2/efi/lib/print.c:975-1242 | Two formats joined, with their arguments, stand for their texts joined: no directive reaches over |
| Formats.DirectiveJoins | PacificOS2/efi/lib/print.c:1056-1232 | A complete directive reads no further than its letter and takes only its own arguments |
| Formats.ExpandAppends | PacificOS2/efi/lib/print.c:877-897 | Expanding newlines to CR LF goes character by character, wherever the stream is cut |
| Formats.PlainFormat | PacificOS2/efi/lib/print.c:1036-1041 | A format without `%` stands for itself |
| Formats.InFieldShape | PacificOS2/efi/lib/print.c:924-971 | An item is as wide as the widest of text, width and field; the cut text stands whole at its side, and everything else is padding |
| Formats.PrintedNumbersReadBack | PacificOS2/efi/lib/print.c:1136-1169 | What `%lx` prints, xtoi reads back for every value, and what `%ld` prints, Atoi reads back for every nonnegative one |
| Directives.PrintedInt32 | PacificOS2/efi/lib/print.c:1161-1168 | `%d` prints the number in INT32 that is congruent to its argument modulo 2^32, sign and all |
| Directives.PrintedInt64 | PacificOS2/efi/lib/print.c:1161-1168 | `%ld` prints the number in INT64 that is congruent to its argument modulo 2^64, the most negative one included |
| Directives.PrintedUInt32 | PacificOS2/efi/lib/print.c:1152-1159 | `%u` prints its argument modulo 2^32 |
| Directives.PrintedUInt64 | PacificOS2/efi/lib/print.c:1152-1159 | `%lu` prints its argument exactly below 2^63; from there on a negative number |
| Directives.PrintedHex | PacificOS2/efi/lib/print.c:1136-1142 | `%x` and `%lx` print the argument modulo 2^32 and 2^64 in base 16, letters in upper case, no zeros in front |
| Directives.PrintedFixedHex | PacificOS2/efi/lib/print.c:1131-1142 | `%X` and `%lX` print 8 and 16 characters, the same number with zeros in front, whatever width is given |
| Directives.PrintedCommas | PacificOS2/efi/lib/print.c:1077-1079 | `,` puts commas between the digits of `%d` and `%u`, every fourth character from the right, and changes nothing else |
| Directives.PrintedStrings | PacificOS2/efi/lib/print.c:1106-1119 | `%s` and `%a` print their string, and `(null)` for NULL |
| Directives.PrintedCharacter | PacificOS2/efi/lib/print.c:1121-1125 | `%c` prints the low 16 bits of its argument as one character, or nothing for 0 |
| Directives.PrintedSigns | PacificOS2/efi/lib/print.c:1060-1067 | `%%` prints `%`, and a letter that means nothing prints `?`; neither takes an argument |
| Directives.AttributesPassedOver | PacificOS2/efi/lib/print.c:1189-1211 | On the local outputs the attribute letters print nothing and the directive goes on |
| Directives.WidthAndField | PacificOS2/efi/lib/print.c:915-1104 | In `%w.lF`, w and l each a numeral or `*`: the text is cut to l, padded in front to w, with zeros for `0`, and blanks make up l, in front or, with `-`, behind |
| Directives.ReturnsBeforeNewlines | PacificOS2/efi/lib/print.c:877-897 | What goes out is the text with one carriage return more in front of every newline, and no other |
| Directives.Samples | PacificOS2/efi/lib/print.c:975-1242 | `%05lx`, `%-.4s`, `%.2s` and `%*d` at given arguments, character by character |
| Directives.MinusOnePrinted | PacificOS2/efi/lib/print.c:466-502 | `%d` of an argument that is all ones leaves "-1" and its terminator in the buffer |
| Formats.FlagsInAnyOrder | PacificOS2/efi/lib/print.c:1069-1129 | Two flags in a row mean the same in either order |
| Printing.StrLen | PacificOS2/efi/lib/runtime/rtstr.c:77-87 | The characters in front of the terminator |
| Printing.PoolPrint.SPrintOutput | PacificOS2/efi/lib/print.c:313-352 | Appends the part of the chunk that fits under maxlen, terminates it, and leaves the cells behind that alone |
| Printing.PoolPrint.Reallocate | PacificOS2/efi/lib/misc.c:56-80 | A larger block that begins with the text so far, or NULL; the old block is given back either way |
| Printing.PoolPrint.PoolPrintOutput | PacificOS2/efi/lib/print.c:355-398 | Appends the whole chunk, growing, by 200 more than needed, exactly when text and terminator would not fit; a failed allocation leaves the context empty and writes through no pointer |
| Printing.PrintState.constructor | PacificOS2/efi/lib/print.c:401-418 | A zeroed state on its output, with nothing put yet |
| Printing.PrintState.PFlush | PacificOS2/efi/lib/print.c:846-857 | Flushing changes nothing of what was put; the output is terminated |
| Printing.PrintState.PPutc | PacificOS2/efi/lib/print.c:877-897 | One character more, a newline as CR LF, and the chunk index stays below 199 |
| Printing.PrintState.Store | PacificOS2/efi/lib/print.c:886-896 | One cell more, flushed when the chunk is full |
| Printing.PrintState.PItem | PacificOS2/efi/lib/print.c:915-972 | Puts the item cut to its field width and padded on the side its flags say |
| Printing.ItemLength | PacificOS2/efi/lib/print.c:924-935 | The length of an item is bounded by its terminator and its field width |
| Printing.InFieldParts | PacificOS2/efi/lib/print.c:937-971 | The padding loops and the item in their order make up the item in its field |
| Printing.ParseWidth | PacificOS2/efi/lib/print.c:1098-1104 | A width is its decimal digits read modulo 2^64, and ends behind the last digit |
| Printing.MakeItem | PacificOS2/efi/lib/print.c:1060-1217 | The text a directive letter makes, terminated, and the number of arguments it takes |
| Printing.PrintState.PDirective | PacificOS2/efi/lib/print.c:1043-1236 | A directive puts exactly its text and leaves format and arguments behind it |
| Printing.PrintState.Print | PacificOS2/efi/lib/print.c:975-1242 | Whatever the chunks, all that goes out is the text of the format with its newlines expanded, and the count is its length |
| Printing.VSPrint | PacificOS2/efi/lib/print.c:423-502 | For StrSize >= 4 the buffer holds the terminated front of the output, min(total, StrSize/2 - 1) long; 2 or 3 leave it untouched, 0 and 1 set no limit; nothing behind the terminator is written |
| Printing.CatPrint | PacificOS2/efi/lib/print.c:566-600 | The output is appended to the pool text, all of it if no allocation fails, and otherwise a tail of the whole is left |
| Printing.CatPrintRun | PacificOS2/efi/lib/print.c:566-600 | Any run of CatPrint calls on a zeroed context leaves the outputs one behind the other, terminated, with room to spare |
| Printing.OutputsJoin | PacificOS2/efi/lib/print.c:566-600 | Printing two formats one behind the other is printing them joined |
| Numbers.ValueOfDigits | PacificOS2/efi/lib/print.c:1247-1321 | Positional reading inverts the digits of a number |
| Numbers.ValueToHex | PacificOS2/efi/lib/print.c:1247-1275 | Writes the number in hexadecimal, without leading zeros, and terminates it |
| Numbers.ValueToString | PacificOS2/efi/lib/print.c:1278-1321 | Writes sign, digits and commas of any INT64, the most negative one included, and terminates them |
| Numbers.EmittedIsGrouped | PacificOS2/efi/lib/print.c:1309-1319 | The comma countdown puts the commas where grouping by three from the right wants them |
| Numbers.GroupedPlain | PacificOS2/efi/lib/print.c:1309-1319 | Deleting the commas gives the plain digits |
| Numbers.GroupedCommas | PacificOS2/efi/lib/print.c:1309-1319 | Behind every comma stands a multiple of three digits, and no comma comes first |
| Numbers.DecimalFits | PacificOS2/efi/lib/print.c:1278-1321 | With sign, commas and terminator, 28 cells are enough |
| Numbers.SixteenHexDigits | PacificOS2/efi/lib/print.c:1247-1275 | Sixteen digits are enough for any 64-bit value |
| Numbers.Xtoi | PacificOS2/efi/lib/str.c:214-242 | Reads the leading blanks and the longest run of hexadecimal digits, modulo 2^64 |
| Numbers.Atoi | PacificOS2/efi/lib/str.c:245-270 | Reads the leading blanks and the longest run of decimal digits, modulo 2^64 |
| Numbers.HexRoundTrip | PacificOS2/efi/lib/str.c:214-242 | xtoi reads back what ValueToHex writes, for every 64-bit value |
| Numbers.DecimalRoundTrip | PacificOS2/efi/lib/str.c:245-270 | Atoi reads back what ValueToString writes, for every nonnegative INT64 |
| Numerals.HexSpelled | PacificOS2/efi/lib/print.c:1244-1275 | ValueToHex writes the numeral of its number: digits and upper-case letters, no zero in front |
| Numerals.DecimalSpelled | PacificOS2/efi/lib/print.c:1278-1321 | ValueToString without commas writes the numeral of every INT64, with a `-` in front of a negative one |
| Numerals.CommasSpelled | PacificOS2/efi/lib/print.c:1309-1319 | With commas the sign and the digits are the same, and every fourth character from the right is a comma |
| Numerals.OneNumeral | PacificOS2/efi/lib/print.c:1244-1321 | A number has one numeral in either base |
| Numerals.NumeralRead | PacificOS2/efi/lib/str.c:214-270 | xtoi and Atoi read blanks, a numeral with letters of either case, and stop at whatever does not go on with a digit |
| Numerals.Samples | PacificOS2/efi/lib/str.c:214-270 | " 1aG" read in both bases, and 48879 written |
| MetaMatch.MatchesIsLanguage | PacificOS2/efi/lib/str.c:272-356 | Consuming the string from the left accepts exactly the concatenations of one word per pattern item |
| MetaMatch.ItemStep | PacificOS2/efi/lib/str.c:299-354 | `?`, a set or a literal matches exactly when it takes the next character and the rest matches |
| MetaMatch.StarStep | PacificOS2/efi/lib/str.c:289-297 | `*` matches exactly when some suffix matches the rest |
| MetaMatch.ScanSet | PacificOS2/efi/lib/str.c:314-341 | The scan accepts exactly the members of a closed set, ranges and dashes included, and ends behind its `]`; an unclosed one it leaves only at a dash that stands last |
| MetaMatch.MatchOne | PacificOS2/efi/lib/str.c:299-353 | The cases that take one character |
| MetaMatch.MatchRun | PacificOS2/efi/lib/str.c:289-297 | The loop over the suffixes, the empty one last |
| MetaMatch.RunsPastIs | PacificOS2/efi/lib/str.c:307-344 | With an unclosed set last, reading runs past the end of the pattern exactly when some part of the string, in the language of what comes before, stands in front of a character at which the set reads on |
| MetaMatch.ParsedSets | PacificOS2/efi/lib/str.c:307-344 | A pattern with an unclosed set has one, as its last item |
| MetaMatch.OneOrTheOther | PacificOS2/efi/lib/str.c:272-356 | A pattern with an unclosed set matches nothing, and one without is never read past its end |
| MetaMatch.MetaMatch | PacificOS2/efi/lib/str.c:272-356 | Terminates, for every string and every pattern: TRUE exactly when the string is in the language of the pattern, and reading past the end of the pattern exactly when the string leads into an unclosed set that reads on; never when the sets are closed |
| Patterns.DashFreeSet | PacificOS2/efi/lib/str.c:314-335 | A set without a dash holds exactly its own characters |
| Patterns.RangeSet | PacificOS2/efi/lib/str.c:320-329 | A dash between two characters stands for the range between them |
| Patterns.RangeSplits | PacificOS2/efi/lib/str.c:314-335 | At the dash of a range a set falls into what stands before, the range, and what stands behind; ranges may be chained |
| Patterns.SetJoins | PacificOS2/efi/lib/str.c:314-335 | Cut anywhere but at a dash, a set holds what its parts hold |
| Patterns.LeadingDashes | PacificOS2/efi/lib/str.c:314-335 | A dash at the start reaches from 0, and a second dash ends a range and stands for itself |
| Patterns.TrailingDash | PacificOS2/efi/lib/str.c:320-324 | A dash at the end of a set stands for nothing |
| Patterns.ParseJoins | PacificOS2/efi/lib/str.c:272-356 | No set reaches from a pattern whose sets are closed into what stands behind it |
| Patterns.MatchesJoins | PacificOS2/efi/lib/str.c:272-356 | Patterns joined accept exactly a string of the one followed by a string of the other |
| Patterns.PlainPattern | PacificOS2/efi/lib/str.c:346-354 | A pattern without `*`, `?` and `[` accepts itself and nothing else |
| Patterns.StarPattern | PacificOS2/efi/lib/str.c:289-297 | `*` between plain texts accepts exactly what begins with the one and ends, behind that, with the other |
| Patterns.QuestionPattern | PacificOS2/efi/lib/str.c:299-305 | `?` between plain texts accepts any one character there |
| Patterns.SetPattern | PacificOS2/efi/lib/str.c:307-344 | A set by itself accepts the one-character strings of what it holds |
| Patterns.RangePattern | PacificOS2/efi/lib/str.c:307-344 | `[x-y]` accepts exactly the one-character strings from x to y, and x and y |
| Patterns.OpenPattern | PacificOS2/efi/lib/str.c:307-344 | An unclosed set accepts nothing, and is read past its end by any string that is not empty, unless a dash stands last and it does not hold the first character |
| Patterns.Samples | PacificOS2/efi/lib/str.c:272-356 | `[a-c]` and `a*b` run on every string |
| CrcTable.TableEntry | PacificOS2/efi/lib/crc.c:22-66 | Every one of the 256 literal entries is eight bit steps of the polynomial 0xEDB88320 |
| CrcTable.FeedByte | PacificOS2/efi/lib/crc.c:209-213 | One table step is the eight bits of the byte fed one at a time |
| Crc.LoopTurn | PacificOS2/efi/lib/crc.c:209-213 | One turn consumes one byte, and the 64-bit accumulator stays a 32-bit value |
| Crc.CalculateCrc | PacificOS2/efi/lib/crc.c:201-218 | The table-driven loop computes the bit-at-a-time CRC-32 of any byte string, and 0 for none |
| CrcResidue.Residue | PacificOS2/efi/lib/crc.c:201-218 | A message with its own CRC behind it, low byte first, has the CRC 0x2144DF1C, whatever the message |
| Crc.ResidueExactly | PacificOS2/efi/lib/crc.c:201-218 | And no other four bytes behind it give that |
| CrcResidue.CheckValue | PacificOS2/efi/lib/crc.c:201-218 | The CRC of the characters "123456789" is 0xCBF43926 |
| CrcResidue.EmptyCrc | PacificOS2/efi/lib/crc.c:201-218 | The CRC of nothing is 0 |
| BitCrc.BurstDetected | PacificOS2/efi/lib/crc.c:201-218 | Bit strings that differ only within 32 consecutive places never share their CRC |
| Crc.SetCrcAltSize | PacificOS2/efi/lib/crc.c:93-116 | Seals the header and changes nothing but its CRC32 field |
| Crc.CheckCrcAltSize | PacificOS2/efi/lib/crc.c:146-198 | TRUE exactly for a sealed header of nonzero size within the limit; the header is left as it was |
| Crc.SetCrc | PacificOS2/efi/lib/crc.c:70-90 | The same over the size in the header itself, which stays as it was |
| Crc.CheckCrc | PacificOS2/efi/lib/crc.c:119-143 | The check over the size in the header itself; a limit keeps it within the memory there is |
| Crc.FieldsOf | PacificOS2/efi/inc/efiapi.h:740-746 | What is read as HeaderSize and CRC32 and what is written are these fields of EFI_TABLE_HEADER, low byte first, and nothing else of it |
| Crc.SealedIs | PacificOS2/efi/lib/crc.c:93-198 | A header is sealed exactly when its CRC32 is the CRC of its first bytes with that field taken as zero |
| Crc.SealedBySet | PacificOS2/efi/lib/crc.c:93-116 | Writing the CRC of the header with a zero field seals it |
| Crc.BurstBreaksSeal | PacificOS2/efi/lib/crc.c:146-198 | Damage confined to 32 consecutive bits inside Size and outside the field always breaks the seal |
| Crc.ByteRunBreaksSeal | PacificOS2/efi/lib/crc.c:146-198 | So does any change within one to four adjacent bytes |
| Crc.FieldDamageBreaksSeal | PacificOS2/efi/lib/crc.c:146-198 | So does any change of the CRC32 field itself |
| WideMath.LShiftU64 | PacificOS2/efi/lib/ia32/math.c:38-71 | The half-word form is the 64-bit shift by the count modulo 64 |
| WideMath.RShiftU64 | PacificOS2/efi/lib/ia32/math.c:73-106 | The half-word form is the 64-bit shift by the count modulo 64 |
| WideMath.MultU64x32 | PacificOS2/efi/lib/ia32/math.c:109-132 | Two 32-bit products and an addition give the product modulo 2^64 |
| WideMath.TurnDivides | PacificOS2/efi/lib/ia32/math.c:158-188 | A turn of shift, compare and subtract divides one more bit, unless the remainder loses its top bit |
| WideMath.DivU64x32 | PacificOS2/efi/lib/ia32/math.c:134-199 | 64 turns give quotient and remainder, for every dividend and every divisor up to 2^31 |
| WideMath.DivisorLimit | PacificOS2/efi/lib/ia32/math.c:134-199 | The loop is right for every dividend exactly when the divisor is at most 2^31 |
| LinkedLists.RingUnique | PacificOS2/efi/inc/efilink.h:43-139 | A list head determines its ring, node by node |
| LinkedLists.RingLinks | PacificOS2/efi/inc/efilink.h:43-139 | A ring link by link: different nodes, each pointing to the next and back to the one before, and the last to the first |
| LinkedLists.RotateRing | PacificOS2/efi/inc/efilink.h:43-139 | A ring read from another of its nodes is a ring |
| LinkedLists.InsertedBefore | PacificOS2/efi/inc/efilink.h:90-139 | Linking a new node in front of a node of the ring inserts it there |
| LinkedLists.Removed | PacificOS2/efi/inc/efilink.h:64-88 | Linking the neighbours of a node to each other deletes it |
| LinkedLists.MovedBefore | PacificOS2/efi/inc/efilink.h:126-139 | The node moved stands right in front of the other, and the rest is as it was |
| LinkedLists.ConvertedIsRing | PacificOS2/efi/lib/runtime/vm.c:74-105 | Read at the new addresses a converted list is the same ring, exactly when the conversion keeps its nodes apart |
| LinkedLists.Memory.InitializeListHead | PacificOS2/efi/inc/efilink.h:43-52 | A ring of the head alone |
| LinkedLists.Memory.IsListEmpty | PacificOS2/efi/inc/efilink.h:54-62 | TRUE exactly when nothing but the head is in the ring |
| LinkedLists.Memory.InsertTailList | PacificOS2/efi/inc/efilink.h:90-105 | Snoc on the ring, other nodes untouched |
| LinkedLists.Memory.InsertHeadList | PacificOS2/efi/inc/efilink.h:108-123 | Cons behind the head, other nodes untouched |
| LinkedLists.Memory.RemoveEntryList | PacificOS2/efi/inc/efilink.h:64-88 | Delete, anywhere in the ring, other nodes untouched |
| LinkedLists.Memory.SwapListEntries | PacificOS2/efi/inc/efilink.h:126-139 | Moves Entry2 to just before Entry1 exactly when it is not already its predecessor; then Entry2 ends up linked to itself, the others are a ring going forward, and going back but for Entry1, which still points to Entry2; with Entry1 itself it is entangled likewise |
| LinkedLists.Memory.SwapNeighboursInRun | PacificOS2/efi/inc/efilink.h:126-139 | A ring of three whose last two entries are swapped as they stand: no ring of more than one node holds the entry any more |
| LinkedLists.Memory.ConvertLinks | PacificOS2/efi/lib/runtime/vm.c:92-102 | Both links of a node converted once, with the debug disposition for those to the head |
| LinkedLists.Memory.ConvertTurn | PacificOS2/efi/lib/runtime/vm.c:89-104 | One turn converts the node it stands on and goes on by its link as it was |
| LinkedLists.RoundTripAt | PacificOS2/efi/lib/runtime/vm.c:89-104 | Two conversions for each node in ring order, and the debug disposition for the two links that lead back to the head |
| LinkedLists.Memory.RtConvertList | PacificOS2/efi/lib/runtime/vm.c:74-105 | One walk round the ring converts every link of every node exactly once, in ring order, and touches nothing else |
| Terminal.RowsExtend | src/arch/x86_64/vgatext.c:137-160 | One more character extends the 80-column layout of a text as the cursor moves |
| Terminal.RowsOfLines | src/arch/x86_64/vgatext.c:138-146 | A newline ends a row wherever it stands: the layout is that of what comes before and that of what comes behind |
| Terminal.RowsOfLine | src/arch/x86_64/vgatext.c:147-156 | A line goes into rows of 80 characters, and the last one, which may be empty, is not full |
| Terminal.ShowsIsDisplay | src/arch/x86_64/vgatext.c:80-82 | On the screen every cell has the character of the last 25 rows, or a blank, in its low byte and the colour in its high one |
| Terminal.Screen.constructor | src/arch/x86_64/vgatext.c:92-103 | 2000 blank cells, cyan on black, and the cursor at their start |
| Terminal.Screen.MoveUp | src/arch/x86_64/vgatext.c:105-121 | Every row takes the place of the one above, and a blank one comes in below |
| Terminal.Screen.PutEntryAt | src/arch/x86_64/vgatext.c:127-130 | Exactly one cell is written, the character in its low byte and the colour in its high one |
| Terminal.Screen.PutChar | src/arch/x86_64/vgatext.c:137-160 | The screen keeps displaying the last 25 rows of everything written, cell by cell, and the cursor stays on it |
| Terminal.Screen.NextRow | src/arch/x86_64/vgatext.c:140-146 | The cursor goes to the start of the next row, and the screen moves up when there is none |
| Terminal.Screen.RemoveLastChar | src/arch/x86_64/vgatext.c:162-177 | Undoes the last character of a row; at the start of a later row it blanks the last cell of the row above and leaves the column at SIZE_MAX, and then, and only then, no text matches screen and cursor any more |
| Terminal.Screen.NewlineNotUndone | src/arch/x86_64/vgatext.c:162-177 | A newline is never undone: whatever the text, what is left shows no text at all |
| Terminal.Screen.Write | src/arch/x86_64/vgatext.c:219-222 | The same for any run of characters |
| Terminal.Screen.Samples | src/arch/x86_64/vgatext.c:219-222 | "A", a newline and "B" on a fresh screen, cell by cell |
| Itoa.Itoa | src/arch/x86_64/vgatext.c:179-215 | Writes the text of the number and its terminator and nothing else; an unsupported base gives the empty text |
| Itoa.ReadsBack | src/arch/x86_64/vgatext.c:179-215 | Positional reading gives back the value in base 10, the most negative one included, and the magnitude in the other bases; no leading zero |
| Itoa.TextCharacters | src/arch/x86_64/vgatext.c:179-215 | Digits and small letters below the base, a sign only in base 10, no zero in front; bases outside 2 to 36 give no text |
| Itoa.Samples | src/arch/x86_64/vgatext.c:179-215 | 255 and -255 in base 16 and 10, 35 in base 36, 5 and 0 in base 2 |
| Itoa.TextsDiffer | src/arch/x86_64/vgatext.c:179-215 | Two values share a text exactly when they are equal, or opposite in a base other than 10 |
| Itoa.TextFits | src/arch/x86_64/vgatext.c:179-215 | 33 cells are enough in every base and 12 in base 10 |
| Itoa.Truncates | src/arch/x86_64/vgatext.c:199-204 | Truncating division and remainder act on the magnitude, whatever the sign |
| Itoa.TableEntry | src/arch/x86_64/vgatext.c:202 | The table holds the digit of the magnitude of every remainder, negative ones included |
| Itoa.WriteDigits | src/arch/x86_64/vgatext.c:199-206 | The loop writes the digits lowest first |
| Itoa.Invert | src/arch/x86_64/vgatext.c:207-213 | The digits turned around in place |
| Handlers.LibInstallProtocolInterfaces | PacificOS2/efi/lib/hand.c:437-517 | All or nothing for lists of any length: success exactly when the list is acceptable and the firmware does not run short; on failure the database, the handle and the task priority are as before |
| Handlers.AddedIs | PacificOS2/efi/lib/hand.c:437-517 | After success exactly the listed protocols are there in addition, each with its interface |
| Handlers.PutIs | PacificOS2/efi/lib/hand.c:437-517 | The protocols of one handle change and those of no other, and a handle is there as long as it has one |
| Handlers.InstallTurn | PacificOS2/efi/lib/hand.c:466-490 | With the first ones installed, the firmware refuses the next one exactly when the list was at fault from the start |
| Handlers.RollBack | PacificOS2/efi/lib/hand.c:497-509 | Uninstalling in list order restores the database, and removes a handle that was created |
| Handlers.FirstRemoved | PacificOS2/efi/lib/hand.c:497-509 | Taking the first protocol away again leaves what the others add |
| Handlers.LibUninstallProtocolInterfaces | PacificOS2/efi/lib/hand.c:520-555 | Removes each listed protocol that is there as named and passes over the others |
| Handlers.RemovedIs | PacificOS2/efi/lib/hand.c:520-555 | A protocol stays, with its interface, exactly when no entry names it with the interface it has |
| Handlers.InstallThenUninstall | PacificOS2/efi/lib/hand.c:437-555 | Uninstalling what was installed restores the database |
| Handlers.LibReinstallProtocolInterfaces | PacificOS2/efi/lib/hand.c:558-636 | Success exactly when every replacement fits in turn and no driver holds on; otherwise it fails at the first that does not, and leaves the state of the undoing pass, which is the old one when no protocol is changed twice; the priority is restored |
| Handlers.LastSwapStays | PacificOS2/efi/lib/hand.c:558-636 | After success a protocol has the interface the last entry to name it gives it |
| Handlers.OthersKept | PacificOS2/efi/lib/hand.c:558-636 | And a protocol no entry names keeps its own |
| Handlers.UndoneExactly | PacificOS2/efi/lib/hand.c:558-636 | Undoing in list order restores every failure of a fitting list, wherever it comes, exactly when the list changes no protocol twice |
| Handlers.RestoredExactly | PacificOS2/efi/lib/hand.c:612-629 | The database is the old one exactly when the undoing pass restores the protocols of the handle |
| Handlers.FailingBehind | PacificOS2/efi/lib/hand.c:558-636 | A refused replacement behind a list that fits makes the call fail there; whether the database is restored depends on that list alone |
| Handlers.SecondStaysInRun | PacificOS2/efi/lib/hand.c:558-636 | A failing call whose list changed one protocol twice leaves the database with the interface in between |
| Handlers.SecondStays | PacificOS2/efi/lib/hand.c:612-629 | Undoing a list that changes one protocol twice leaves the interface in between |
| Handlers.BootServices.InstallProtocolInterface | PacificOS2/efi/inc/efiapi.h:664-671 | The firmware service: refuses unknown handles and protocols that are there, may run short, creates a handle when given none |
| Handlers.BootServices.UninstallProtocolInterface | PacificOS2/efi/inc/efiapi.h:682-688 | The firmware service: removes exactly the interface named, and the handle with its last protocol |
| Handlers.BootServices.ReinstallProtocolInterface | PacificOS2/efi/inc/efiapi.h:673-680 | The firmware service: replaces exactly the interface named, unless a driver holds on to it |
| PoolMemory.AllocatePool | PacificOS2/efi/lib/misc.c:25-39 | A fresh block of the size asked for, or NULL |
| PoolMemory.CopyMem | PacificOS2/efi/lib/runtime/efirtlib.c:62-77 | Exactly the cells copied change |
| PoolBuffers.Pool.AllocatePool | PacificOS2/efi/lib/misc.c:25-39 | A block that was not live, or NULL and nothing changed |
| PoolBuffers.Pool.FreePool | PacificOS2/efi/lib/misc.c:82-88 | Only a live block can be given back, and then it is live no more |
| PoolBuffers.GrowBuffer | PacificOS2/efi/lib/misc.c:131-199 | TRUE exactly when a larger buffer was wanted and could be had; the old one is given back; on an error the buffer is given back and NULL |
| PoolBuffers.Turn | PacificOS2/efi/lib/misc.c:227-229 | Another call follows exactly when the answer was longer than the buffer and a larger one could be had |
| PoolBuffers.FillBuffer | PacificOS2/efi/lib/misc.c:227-229 | The retry loop ends when the answers do not outgrow the buffer for ever, at the first that does not: one live block more, with all of the last answer, or none; every earlier one given back once; at most two calls when the second answer is the first |
| PoolBuffers.TurnsWithoutEnd | PacificOS2/efi/lib/misc.c:227-229 | When the answers do outgrow the buffer for ever, the loop is still running after any number of turns, unless an allocation fails |
| PoolBuffers.FixedSettles | PacificOS2/efi/lib/misc.c:227-229 | A fixed answer settles at the second call |
| PoolBuffers.BufferSizes | PacificOS2/efi/lib/misc.c:152-199 | The first buffer has the initial size, and every other one that of the answer before it |
| PoolBuffers.LibMemoryMap | PacificOS2/efi/lib/misc.c:203-240 | The map and the number of its entries, or NULL with nothing left allocated; one call exactly when 40 bytes are enough |
| PoolBuffers.LibGetVariableAndSize | PacificOS2/efi/lib/misc.c:242-281 | The variable and its size, or NULL and 0 with nothing left allocated; one call exactly when 100 bytes are enough |
| PoolBuffers.LibLocateHandle | PacificOS2/efi/lib/hand.c:57-102 | The handles and their number, or NULL and 0 with nothing left allocated; one call exactly when there are at most 50 |

## Left out

- DevicePath.AppendDevicePath: the model stops at the copy that would pass the end of the block; what the source overwrites behind it is not modelled
- DevicePath.AppendDevicePathInstance: the source asserts that its allocation succeeds, so the failing one is not modelled
- Printing.VSPrint: requires, for a StrSize of 0 or 1, a buffer that has room for the whole output, as the source does
- Printing.MakeItem: `%g`, `%f`, `%t` and `%r` enter a format as the text their converters made; GuidToString, FloatToString, TimeToString and StatusToString are not part of this model
- MetaMatch.MetaMatch: the model stops where the source reads behind the terminator of a pattern with an unclosed set
- PoolBuffers.FillBuffer: requires that the answers settle, which is what the loop needs to end; PoolBuffers.TurnsWithoutEnd says what happens otherwise
- Handlers.BootServices.UninstallProtocolInterface: never refuses an interface that is there, so the roll-back of a list succeeds
- Handlers.BootServices.ReinstallProtocolInterface: which interfaces drivers hold on to does not change during a call
- WideMath.LShiftU64: the GNU branches, single C expressions, are what the half-word forms are proved equal to
- Console outputs and attributes (`Print`, `PrintAt`, `APrint`, `SetAttr`): firmware calls; the local outputs have no attributes
- Formats that end inside a directive, and arguments of another kind than the directive takes: undefined in the source
- RemoveEntryList poisons the links of the removed entry in debug builds
- LibDuplicateDevicePathInstance, FileDevicePath, the `_DevPath` text handlers, DumpHex: long case tables, or wrong for several nodes
- LibLocateProtocol, LibLocateHandleByDiskSignature and the other users of handles: calls into drivers
- Port I/O of the cursor, colours set while text is on the screen, keyboard input
- Console, event, sread, smbios, hw, salpal, init, setjmp, graphics, paging, interrupts and the applications
