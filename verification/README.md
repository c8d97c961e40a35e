# gnu-efi and kernel models

Dafny models of the boot library the kernel is built on (gnu-efi), and of the kernel's mouse cursor, with
proofs of what they are for: packed device paths, CRC-32, glob matching, formatted output, intrusive lists,
all-or-nothing protocol installation, buffer growing, bit-serial division, SMBIOS tables, self-relocation and
the save-under cursor. `dafny verify dfyconfig.toml` checks everything.

| file | models |
|---|---|
| `Crc.dfy` | CRC-32 (section 8 of RFC 1952) as a bit-at-a-time shift register, the table loop, the table header of section 4.2 of UEFI 2.4 |
| `MetaMatch.dfy` | the glob matcher: a parsed pattern and its language, the in-place loop, the reads past an open set |
| `Numbers.dfy`, `Division.dfy` | digits and commas, the parsers that read them back, the 64-by-32-bit division loop |
| `Print.dfy` | the 200-character staging buffer, its two sinks, field padding |
| `DevicePathNodes.dfy`, `DevicePathInstances.dfy`, `DevicePathAppend.dfy`, `DevicePathUnpack.dfy` | device paths (section 9.3.1 of UEFI 2.4) as bytes and offsets in memory against lists of nodes and instances |
| `RingList.dfy`, `ConvertList.dfy` | intrusive rings on the heap, and the walk that rewrites all their links |
| `Protocols.dfy`, `GrowBuffer.dfy` | protocol installation and the retry loop over a nondeterministic firmware and pool |
| `RelocScan.dfy`, `Reloc.dfy`, `RelocRepeats.dfy`, `Words.dfy` | the two ELF self-relocators over one byte memory that also holds their table: the scan, the walk, and words that several entries name |
| `Smbios.dfy` | the SMBIOS structure walker (section 6.1.3 of DMTF DSP0134) and the search built on it |
| `Cursor.dfy` | the save-under cursor on a framebuffer, with its 32-bit arithmetic |
| `Strings.dfy`, `Options.dfy` | CHAR16 strings and optional values, shared |

Methods follow the source step by step and are tied to specification functions; the theorems are lemmas about
those functions. What such a function comes to in numbers, bytes and characters is written out in the lemmas whose
names end in `Means`, `Mean` or `Grows`. A ghost parameter (the nodes of a path, the entries of a ring, the structures
of a table) names what the memory holds; it has no part in what a method computes. A call of the firmware or of the
pool that may fail does so nondeterministically, or by a `hasRoom` argument; ghost counts of such refusals
(`refusals`, `installRefusals`, `failures`) let a contract say what happens when there is none.

## Where the code differs from what is said of it

- A stamped table header changed within four consecutive bytes fails `CheckCrc` when they lie outside the CRC field or
  inside it and HeaderSize stays as it was (`TamperingDetected`). Across the field's edge a change can pass, with
  HeaderSize untouched (`StraddlingChangeUnseen`), and so can a single flipped bit of HeaderSize, which `CheckCrc` takes
  from the changed header (`SizeChangeUnseen`); `TamperingUnseenIff` says of every change whether it does.
- `AppendDevicePath` says the second path goes behind every instance of the first
  (`gnu-efi/lib/dpath.c:129-132`). It copies the second path's End-Entire node each time, so a reader stops after the
  first instance; `PromiseKeptIff` gives the exact condition, which also limits that node to four bytes of payload.
  `OverrunIff` says when the copying leaves the block: when the first path has several instances and is smaller than the
  second (`ShortOverrunIff`), but also for one instance that the walk cuts in two (`LongInstanceOverruns`).
- `DevicePathInstance` gives up past octal 01000 nodes and takes the node it stops on for a separator
  (`gnu-efi/lib/dpath.c:75`); `PiecesAreInstancesIff` and `RejoinIff` say when that does not matter.
- `DuplicateDevicePath` and `DevicePathSize` count four bytes for the End-Entire node whatever its length field says,
  so a longer one is cut off.
- The instance counts of two paths do not always add up in the path that `AppendDevicePathInstance` makes of them: an
  instance behind one whose walk gives up on a node of subtype 0xFF is never come to (`InstancesConcatenate`,
  `AppendedInstanceUnseen`). And it copies four bytes of a longer End-Entire node but steps over all of it, so the second
  path leaves the block.
- `UnpackDevicePath` stores a padded length of 65536 as 0 (`ReadableIff`).
- `AppendDevicePathInstance` only asserts that its allocation succeeded; without room it writes through NULL.
- `MetaMatch` reads past the terminator of some patterns with an unclosed set (`PastEndAtIff`); a pattern with an
  unclosed set never matches.
- `VSPrint`: a StrSize of 0 is documented as "no limit" (`gnu-efi/lib/print.c:441-442`); 1 is one too, and with 2
  or 3 nothing at all is written, not even the terminator (`VSPrint`).
- `%lu` goes through an INT64 (`gnu-efi/lib/print.c:1153-1160`), so values from 2^63 on print as negative (`UnsignedIff`).
- `DivU64x32` is said to work for 31-bit divisors (`gnu-efi/lib/ia32/math.c:141`); it works for 2^31 too, and for no
  larger divisor (`DividesIff`).
- `SwapListEntries` breaks the ring when Entry2 already stands before Entry1, or is Entry1 itself: it ends as its own
  neighbour.
- `LibReinstallProtocolInterfaces` takes a pointer to the handle and hands that pointer itself to the firmware, in the
  place of the handle (`gnu-efi/lib/hand.c:603`, `gnu-efi/lib/hand.c:624`, `gnu-efi/inc/efiapi.h:675-676`). A caller who
  follows the prototype gets an error and nothing is changed, for every list but the empty one. What is said of the
  undo below concerns callers who pass the handle itself.
- `LibReinstallProtocolInterfaces` undoes from the front, which restores the handle only for distinct protocols
  (`UndoneIff`); of these, what the firmware refuses to undo keeps its new interface (`RefusedKept`).
- `LibGetSmbiosString` answers string 1 of a structure without strings with the empty string, and 0xFFFF skips a
  structure only below 65535 strings (`SkipIff`). `LibGetSmbiosSystemGuidAndSerialNumber` never advances past a type 1
  structure that is too short, so a later one is not found (`SystemFoundIff`, `LaterSystemHidden`).
- The x86_64 relocator, unlike the AArch64 one, must not run twice (`SecondRunIff`), and adds the offset once more for
  every further entry that names the same word (`NamedAgainAddsAgain`).
- The cursor is clipped on the right and below only; small negative positions draw outside the frame
  (`PlaceableIff`), and two draws in a row leave the first cursor behind (`TwoDrawsIff`).

## Model

| member | source | states |
|---|---|---|
| `Crc.CalculateCrc` | gnu-efi/lib/crc.c:201-218 | for every byte string the table loop over a 64-bit UINTN gives the bitwise reflected CRC-32 (0xEDB88320, complemented before and after) |
| `Crc.KnownAnswer` | gnu-efi/lib/crc.c:201-218 | the nine digits "123456789" have the CRC 0xCBF43926, the published check value |
| `Crc.CrcTable` | gnu-efi/lib/crc.c:22-66 | every one of the 256 table entries is eight shifts of its index |
| `Crc.TableStep` | gnu-efi/lib/crc.c:211-215 | one table look-up feeds the register exactly the eight bits of one byte |
| `Crc.FeedConcat` | gnu-efi/lib/crc.c:211-215 | feeding one piece after the other feeds their concatenation |
| `Crc.FeedOfDifference` | gnu-efi/lib/crc.c:201-218 | the difference of two runs is the run of the difference from zero |
| `Crc.SameCrcIff` | gnu-efi/lib/crc.c:201-218 | two equally long strings have one CRC iff the zero register swallows their bit difference |
| `Crc.BurstDetected` | gnu-efi/lib/crc.c:201-218 | different strings whose differences lie within 32 consecutive bits, anywhere, have different CRCs |
| `Crc.FourByteChangeDetected` | gnu-efi/lib/crc.c:201-218 | so do different strings that differ only within four consecutive bytes |
| `Crc.GeneratorUndetected` | gnu-efi/lib/crc.c:201-218 | 32 is sharp: flipping the 33 bits of the generator, anywhere in any string, goes unseen |
| `Crc.LayoutMeans` | gnu-efi/lib/crc.c:184-189 | HeaderSize is read from bytes 12 to 15 and CRC32 from bytes 16 to 19, and setting the field changes those four bytes only |
| `Crc.FromLeMeans` | gnu-efi/lib/crc.c:184 | a field of four bytes has the lowest byte first |
| `Crc.HeaderCrcMeans` | gnu-efi/lib/crc.c:185-186 | the CRC of a header is that of its bytes with four zeros for bytes 16 to 19 |
| `Crc.SetCrcAltSize` | gnu-efi/lib/crc.c:92-116 | the CRC field, and nothing else, becomes the CRC of the first Size bytes taken with the field zero |
| `Crc.SetCrc` | gnu-efi/lib/crc.c:70-90 | the same with the size the header gives; the header then passes CheckCrc for every MaxSize that admits the size |
| `Crc.CheckCrcAltSize` | gnu-efi/lib/crc.c:146-198 | FALSE for size 0 and for a size above a nonzero MaxSize; for every other size TRUE iff the field holds the CRC; every byte of the header is as before |
| `Crc.CheckCrc` | gnu-efi/lib/crc.c:119-140 | the same with the size the header gives |
| `Crc.ChecksMean` | gnu-efi/lib/crc.c:119-198 | what CheckCrc asks: a size neither 0 nor above a nonzero MaxSize, and the field equal to the CRC of that many bytes |
| `Crc.SetThenCheck` | gnu-efi/lib/crc.c:93-198 | a stamped header passes the check, and stamping again changes nothing |
| `Crc.TamperingUnseenIff` | gnu-efi/lib/crc.c:119-198 | any change of a header that passes CheckCrc, of whatever bytes and of HeaderSize too, passes again iff the new size is admitted and the change of the field is what the change of the rest does to the CRC |
| `Crc.ChangeCrcIs` | gnu-efi/lib/crc.c:201-218 | that effect: bytes covered before and after count by their difference only, bytes covered by one of the sizes by what they do to the register |
| `Crc.ConfinedDetected` | gnu-efi/lib/crc.c:146-198 | CheckCrcAltSize fails after a burst of up to 32 bits in the covered bytes outside the field, or any change of the field alone |
| `Crc.TamperingDetected` | gnu-efi/lib/crc.c:119-140 | CheckCrc fails after such a change that leaves HeaderSize alone |
| `Crc.StraddlingChangeUnseen` | gnu-efi/lib/crc.c:146-198 | one change of bytes 17 to 20 passes the check in every passing header of 28 bytes, its HeaderSize unchanged |
| `Crc.SizeChangeUnseen` | gnu-efi/lib/crc.c:139 | a stamped header of 28 bytes that still passes with one bit of HeaderSize flipped, for every MaxSize that admits 28 |
| `MetaMatch.MetaMatch` | gnu-efi/lib/str.c:325-409 | the loops and the recursion compute the search over the parsed pattern, and end |
| `MetaMatch.MatchSet` | gnu-efi/lib/str.c:360-397 | the set loops decide membership in the set in front of the first `]`, and where they leave the pattern |
| `MetaMatch.EndMeans` | gnu-efi/lib/str.c:338-340 | the empty pattern matches the empty string only |
| `MetaMatch.StarMeans` | gnu-efi/lib/str.c:342-350 | `*` and a pattern match iff the pattern matches some end of the string, and read past the end iff it does so at some end |
| `MetaMatch.CharacterMeans` | gnu-efi/lib/str.c:352-358 | `?` stands for any one character, every character but `*` and `[` for itself |
| `MetaMatch.SetMeans` | gnu-efi/lib/str.c:360-397 | a closed set stands for one character that it admits |
| `MetaMatch.OpenSetMeans` | gnu-efi/lib/str.c:368-396 | an open set reads past the end for every character it admits, and for all others unless it ends in `-`; else FALSE |
| `MetaMatch.InSetMeans` | gnu-efi/lib/str.c:367-388 | for every text between the brackets: admitted are the characters that stand there other than `-`, those between the ends of a range, those up to the end of a range with nothing in front, and what follows a `-` |
| `MetaMatch.MembersMean` | gnu-efi/lib/str.c:367-388 | a set spelled out of characters and ranges lo-hi admits exactly those characters, the ends, and what lies between |
| `MetaMatch.RangeMatches` | gnu-efi/lib/str.c:373-388 | a string of one character matches `[lo-hi]` iff it lies between lo and hi or is one of them |
| `MetaMatch.MatchesLanguage` | gnu-efi/lib/str.c:325-409 | TRUE iff every set is closed and the string splits into pieces that fit the tokens one by one |
| `MetaMatch.SearchDecides` | gnu-efi/lib/str.c:325-409 | for closed patterns the search is exactly membership in the language, both ways |
| `MetaMatch.OpenNeverMatches` | gnu-efi/lib/str.c:368-396 | a pattern with an unclosed set matches no string |
| `MetaMatch.EmptySetIff` | gnu-efi/lib/str.c:367-388 | only `[]` and `[-]` admit no character |
| `MetaMatch.PastEndAtIff` | gnu-efi/lib/str.c:360-397 | for every string and pattern: the matcher reads past the pattern iff some beginning of the string is in the language of the closed tokens and the next character runs off the open set |
| `MetaMatch.PastEndIff` | gnu-efi/lib/str.c:368-394 | some string makes the matcher read past the pattern iff an open set other than `[-` can be reached |
| `Division.DivU64x32` | gnu-efi/lib/ia32/math.c:148-199 | the 64 steps on the 64-bit dividend and 32-bit remainder; for divisors up to 2^31 quotient and remainder |
| `Division.StepMeans` | gnu-efi/lib/ia32/math.c:159-191 | one pass on every dividend, remainder and divisor: both doubled, the top bit handed on, a 33rd bit of the remainder lost, the divisor subtracted if it is not larger |
| `Division.DivisorUpTo31Bits` | gnu-efi/lib/ia32/math.c:154-197 | 64 steps give Dividend / Divisor and Dividend % Divisor for every nonzero divisor up to 2^31 |
| `Division.StepAdvances` | gnu-efi/lib/ia32/math.c:159-191 | each step keeps: bits taken so far = quotient * divisor + remainder, remainder below the divisor, while 2 * Rem + bit fits 32 bits |
| `Division.LargeDivisorFails` | gnu-efi/lib/ia32/math.c:154-197 | every divisor above 2^31 has a dividend that is divided wrongly |
| `Division.DividesIff` | gnu-efi/lib/ia32/math.c:140-199 | the loop divides every dividend correctly iff the divisor is at most 2^31 |
| `Numbers.ValueToHex` | gnu-efi/lib/print.c:1260-1288 | the buffer gets the hexadecimal digits and a terminator and is otherwise unchanged |
| `Numbers.ValueToString` | gnu-efi/lib/print.c:1291-1334 | the buffer gets sign, digits and commas and a terminator, for every INT64 including the least, and is otherwise unchanged |
| `Numbers.Xtoi` | gnu-efi/lib/str.c:267-296 | the value of the leading hex digits, in either case, modulo 2^64 |
| `Numbers.Atoi` | gnu-efi/lib/str.c:298-323 | the value of the leading decimal digits modulo 2^64 |
| `Numbers.HoldsMeans` | gnu-efi/lib/print.c:1286-1287 | the buffer begins with the characters of the text and a zero, and is otherwise as before |
| `Numbers.HexGrows` | gnu-efi/lib/print.c:1278-1286 | the hex text of a digit is its character, 0 to 9 or A to F, and that of 16 * v + d is that of v and one character more |
| `Numbers.DecimalGrows` | gnu-efi/lib/print.c:1317-1333 | the same in base 10, and 0 to 9 are printed as they are, with commas or without |
| `Numbers.NegativeText` | gnu-efi/lib/print.c:1312-1315 | a negative number, the least one too, prints as a minus sign and its opposite, with commas and without |
| `Numbers.CommasGrow` | gnu-efi/lib/print.c:1322-1332 | with commas a number below 1000 prints as without, and three more digits come behind a comma |
| `Numbers.AtoiGrows` | gnu-efi/lib/str.c:298-323 | Atoi passes over spaces, takes one more digit as ten times the number and the digit modulo 2^64, and stops at what is no digit |
| `Numbers.XtoiGrows` | gnu-efi/lib/str.c:267-296 | the same of xtoi in base 16, for digits of either case |
| `Numbers.ValueOfDigits` | gnu-efi/lib/print.c:1278-1282 | the digits of a number are worth the number, in every base |
| `Numbers.HexRoundTrip` | gnu-efi/lib/print.c:1260-1288 | xtoi(ValueToHex(v)) = v for every 64-bit v |
| `Numbers.DecimalRoundTrip` | gnu-efi/lib/print.c:1291-1334 | Atoi(ValueToString(v)) = v iff v >= 0 |
| `Numbers.CommaText` | gnu-efi/lib/print.c:1322-1332 | with commas the text is the plain text once they are deleted, and a comma stands at every fourth place from the right and nowhere else, never in front |
| `Numbers.UnsignedIff` | gnu-efi/lib/print.c:1153-1160 | a UINT64 handed over as INT64 prints as itself iff it is below 2^63 |
| `Print.PoolPrint.SPrint` | gnu-efi/lib/print.c:313-352 | appends as much of the chunk as maxlen allows, terminates, leaves the rest of the buffer alone |
| `Print.PoolPrint.Grow` | gnu-efi/lib/misc.c:56-80 | reallocation keeps the text, or loses it when the pool has no room; the old block is freed either way |
| `Print.PoolPrint.PoolAppend` | gnu-efi/lib/print.c:355-397 | appends the whole chunk, growing the block, or loses everything and counts a failure; stays NUL-terminated in its block |
| `Print.PrintState.Flush` | gnu-efi/lib/print.c:845-857 | hands the staged text to the sink; what has been output is unchanged |
| `Print.PrintState.PutChar` | gnu-efi/lib/print.c:876-896 | outputs the character, CR before LF, wherever the staging buffer happens to fill up |
| `Print.PrintState.PutItem` | gnu-efi/lib/print.c:914-971 | outputs the padded and filled field |
| `Print.Measure` | gnu-efi/lib/print.c:924-945 | the item's length under its field width, its padded width and the blanks to fill |
| `Print.FieldShape` | gnu-efi/lib/print.c:914-971 | the item cut to the field width, padded to its width, blanks up to the field width on the side asked for only; as wide as the larger width, or as the uncut item |
| `Print.ShownMeans` | gnu-efi/lib/print.c:876-896 | what each further piece shows: CR and LF for a line feed, any other character itself, an item its field with CR before each LF, an attribute change nothing |
| `Print.CrlfConcat` | gnu-efi/lib/print.c:876-896 | the CR rule distributes over concatenation |
| `Print.CrlfUndone` | gnu-efi/lib/print.c:876-896 | deleting the CR in front of each LF gives back the characters that went in |
| `Print.EveryLfHasCr` | gnu-efi/lib/print.c:876-896 | every LF that comes out has a CR in front |
| `Print.PrintState.PrintPieces` | gnu-efi/lib/print.c:1235-1254 | for the pieces a format string comes down to: after the last flush the sink has been sent exactly their rendering with CR before each LF, attribute changes flushing in between |
| `Print.VSPrint` | gnu-efi/lib/print.c:422-463 | StrSize / 2 - 1 characters of the output or all of it, whichever is shorter, and all of it for StrSize 0 and 1; the length is returned, a terminator is written iff StrSize is neither 2 nor 3, and what lies behind is unchanged |
| `Print.CatPrint` | gnu-efi/lib/print.c:566-601 | the whole output is appended if the pool has room; in any case the text left is the end of everything printed, NUL-terminated in the one block there is |
| `Print.CatPrintAll` | gnu-efi/lib/print.c:566-601 | any series of calls from a zeroed POOL_PRINT leaves the concatenation, terminated, with len < maxlen, if no allocation fails; at most one block is live |
| `DevicePathNodes.PathUnique` | gnu-efi/inc/efidevp.h:26-57 | the bytes at one place are those of at most one path |
| `DevicePathNodes.PathMeans` | gnu-efi/inc/efidevp.h:35-57 | a path: nodes of at most 65535 bytes, of which the last, and no other, has type 0x7F under the mask and subtype 0xFF |
| `DevicePathNodes.NodesMean` | gnu-efi/inc/efidevp.h:26-53 | nodes in memory: type, subtype, length in two bytes with the lower one first, payload, and the next node behind |
| `DevicePathNodes.SubNodes` | gnu-efi/inc/efidevp.h:50-51 | any stretch of nodes is found at its offset |
| `DevicePathNodes.OnStep` | gnu-efi/inc/efidevp.h:48-56 | the macros read a node's length, recognise exactly the last node as the end, and lead to the next node |
| `DevicePathNodes.DevicePathSize` | gnu-efi/lib/dpath.c:286-307 | the bytes in front of the end node plus four, which is the path's size when its end node has length 4; no more of the path is read |
| `DevicePathNodes.CountedMeans` | gnu-efi/lib/dpath.c:286-307 | the bytes DevicePathSize counts are those in front of the last node and four more |
| `DevicePathNodes.DuplicateDevicePath` | gnu-efi/lib/dpath.c:309-334 | a fresh block with the bytes up to the end node and four of its own, or NULL; it holds the same path iff the end node has length 4 |
| `DevicePathInstances.DevicePathInstance` | gnu-efi/lib/dpath.c:48-106 | the size and bytes up to the first end node or the give-up node, and where the next call continues |
| `DevicePathInstances.PiecesMean` | gnu-efi/lib/dpath.c:62-97 | the iteration cuts at the first node of type 0x7F, or at node 513 if that comes first; it ends there iff the node has subtype 0xFF, and otherwise goes on behind it |
| `DevicePathInstances.YieldsMean` | gnu-efi/lib/dpath.c:48-106 | the answer of one call in bytes: size and place of what is in front of that node, and the address behind it or NULL |
| `DevicePathInstances.SplitMeans` | gnu-efi/lib/dpath.c:48-106 | instances end at every node of type 0x7F; they are joined by nodes 7F 01 04 00 and closed by 7F FF 04 00 |
| `DevicePathInstances.DevicePathInstanceCount` | gnu-efi/lib/dpath.c:108-121 | the number of pieces; of instances when none is too long |
| `DevicePathInstances.SplitJoin` | gnu-efi/lib/dpath.c:48-106 | joining instances gives a path that splits into those instances |
| `DevicePathInstances.JoinSplitIff` | gnu-efi/lib/dpath.c:48-106 | splitting a path and rejoining the instances gives its nodes back iff its end nodes are the standard ones |
| `DevicePathInstances.PiecesAreInstancesIff` | gnu-efi/lib/dpath.c:62-97 | the iteration yields the instances iff none has more than 513 (octal 01001) nodes |
| `DevicePathInstances.ShortReachesEnd` | gnu-efi/lib/dpath.c:62-97 | without an instance above 513 nodes the iteration comes to the path's end node |
| `DevicePathInstances.RejoinIff` | gnu-efi/lib/dpath.c:48-106 | rejoining what the iteration yields gives the original path iff no instance is too long and its end nodes are the standard ones |
| `DevicePathInstances.LibMatchDevicePaths` | gnu-efi/lib/dpath.c:1209-1229 | TRUE iff both paths are there and the nodes of some piece, whichever it is, are a prefix of the single path |
| `DevicePathInstances.StaysInside` | gnu-efi/lib/dpath.c:1220-1224 | as long as the bytes of a piece and of the single path agree, the comparison is inside the single path |
| `DevicePathAppend.AppendDevicePath` | gnu-efi/lib/dpath.c:124-194 | for all paths: the block, of the size asked for, holds each piece with the counted bytes of the second path behind it, or the copying overruns it, or there is no memory; a lone path is duplicated |
| `DevicePathAppend.AppendedMeans` | gnu-efi/lib/dpath.c:172-191 | the bytes of the result in order: each piece, the second path's counted bytes, and 7F 01 04 00, or 7F FF 04 00 behind the last |
| `DevicePathAppend.WrittenMeans` | gnu-efi/lib/dpath.c:160-186 | the block is as large as the first path's size times the number of pieces and the second path's size; the loop writes as many bytes as the result has |
| `DevicePathAppend.PromisedMeans` | gnu-efi/lib/dpath.c:129-132 | what the comment promises: each instance of the first path with the second path's instances behind it, in order |
| `DevicePathAppend.CopyInstances` | gnu-efi/lib/dpath.c:176-186 | the copy loop leaves the block iff its output is larger, and otherwise writes exactly that |
| `DevicePathAppend.AppendedReads` | gnu-efi/lib/dpath.c:172-191 | a reader of the block finds the first piece and the second path, whose end node, if longer than four bytes, swallows what follows, and no path at all if that is too little |
| `DevicePathAppend.PromiseKeptIff` | gnu-efi/lib/dpath.c:129-194 | for all paths a reader finds the second path behind every instance iff the first path is one instance of at most 513 nodes and the second path's end node has at most four bytes of payload |
| `DevicePathAppend.OverrunIff` | gnu-efi/lib/dpath.c:160-186 | for all paths and k pieces the block is overrun iff the copied bytes of the first path and k - 1 times the second path exceed k times the first path |
| `DevicePathAppend.ShortOverrunIff` | gnu-efi/lib/dpath.c:160-186 | without an instance above 513 nodes: iff there are several instances and the first path is smaller than the second; for one instance exactly Src1Size + Src2Size bytes are written |
| `DevicePathAppend.LongInstanceOverruns` | gnu-efi/lib/dpath.c:62-97 | a first path of one instance of 514 nodes is overrun by every second path above 2060 bytes |
| `DevicePathAppend.AppendAssociativeIff` | gnu-efi/lib/dpath.c:124-194 | on what readers find, appending is associative iff the first instance of the first path is empty, or the first instances of the first two paths together stay within the node limit |
| `DevicePathAppend.AppendDevicePathNode` | gnu-efi/lib/dpath.c:197-230 | the same as appending the path of that node and an End-Entire node |
| `DevicePathAppend.AppendDevicePathInstance` | gnu-efi/lib/dpath.c:397-433 | for all paths: a fresh block filled by the first path, its end made a separator, and the counted bytes of the second; a write past the block iff the first path's end node is longer than four bytes; a failed allocation ends in a write through NULL |
| `DevicePathAppend.WithInstanceMeans` | gnu-efi/lib/dpath.c:424-431 | the nodes of both paths, the last of the first given subtype 1 |
| `DevicePathAppend.InstancesConcatenate` | gnu-efi/lib/dpath.c:397-433 | for all paths the result's instances are those of both, in order, and sizes add up; the iteration yields the pieces of both, and the counts add up, iff the one through the first path reaches its end node |
| `DevicePathAppend.AppendedInstanceUnseen` | gnu-efi/lib/dpath.c:75-90 | behind one instance of 514 nodes whose node 513 has subtype 0xFF no appended instance is ever come to |
| `DevicePathUnpack.UnpackedSize` | gnu-efi/lib/dpath.c:348-359 | the first pass gives the size of what the second writes |
| `DevicePathUnpack.UnpackDevicePath` | gnu-efi/lib/dpath.c:336-394 | a fresh block filled to the last byte by the padded nodes, marked as unpacked |
| `DevicePathUnpack.UnpackInto` | gnu-efi/lib/dpath.c:375-390 | the second pass writes every node's image behind the last |
| `DevicePathUnpack.UnpackedMeans` | gnu-efi/lib/dpath.c:375-390 | a node is copied with the top bit of its type set, zeros behind it up to the least multiple of the alignment, and the lower 16 bits of that size as its length |
| `DevicePathUnpack.UnpackedReads` | gnu-efi/lib/dpath.c:336-394 | when every padded length fits, the block reads as the same nodes: type under the mask, subtype, payload and zeros |
| `DevicePathUnpack.ReadableIff` | gnu-efi/lib/dpath.c:378-381 | the block can be read as a path iff every padded length is at most 65535 |
| `DevicePathUnpack.NodesAligned` | gnu-efi/lib/dpath.c:348-390 | every unpacked node starts on an alignment boundary |
| `DevicePathUnpack.UnpackTwice` | gnu-efi/lib/dpath.c:336-394 | unpacking the unpacked path gives the same nodes and bytes |
| `RingList.InitializeListHead` | gnu-efi/inc/efilink.h:43-45 | a ring of the head alone |
| `RingList.LinkedMeans` | gnu-efi/inc/efilink.h:28-31 | a ring: distinct entries, each with its Flink to the next, the last to the first, and the Blink of that back to it |
| `RingList.ListsMean` | gnu-efi/inc/efilink.h:64-139 | where entries stand after one is taken out, put in front of another, or moved |
| `RingList.IsListEmpty` | gnu-efi/inc/efilink.h:54-55 | TRUE iff the ring is the head alone |
| `RingList.InsertTailList` | gnu-efi/inc/efilink.h:89-97 | the entry is appended; only the head, the entry and the last entry change |
| `RingList.InsertHeadList` | gnu-efi/inc/efilink.h:106-114 | the entry comes behind the head; only the head, the entry and the first entry change |
| `RingList.Unlink` | gnu-efi/inc/efilink.h:64-70 | the entry is deleted, its own links kept; only its neighbours change |
| `RingList.RemoveEntryList` | gnu-efi/inc/efilink.h:72-76 | the debug form also spoils the entry's links |
| `RingList.SwapListEntries` | gnu-efi/inc/efilink.h:123-139 | within one ring Entry2 moves directly before Entry1 iff they are two entries and it was not there already, or the ring has one entry; otherwise it links to itself and the ring is broken |
| `RingList.SwapAcrossRings` | gnu-efi/inc/efilink.h:123-139 | with entries of two rings Entry2 leaves its ring, which stays a ring, and comes directly before Entry1 |
| `ConvertList.RtConvertList` | gnu-efi/lib/runtime/vm.c:73-105 | every link of every entry is converted once, from its value in the ring, by the calls in this order, and the loop stops after one turn |
| `ConvertList.ConvertedMeans` | gnu-efi/lib/runtime/vm.c:87-104 | an entry is converted when each of its links is what the firmware makes of the ring's link, under DebugDisposition if that leads to the head and under 0 otherwise |
| `ConvertList.FollowedMeans` | gnu-efi/lib/runtime/vm.c:73-105 | following the links from virtual address to virtual address: at the address of an entry its stored Flink leads on |
| `ConvertList.VirtualTurn` | gnu-efi/lib/runtime/vm.c:73-105 | if the firmware maps entries to virtual addresses, following the converted links from there visits every entry in ring order and comes round after one turn |
| `ConvertList.DebugCalls` | gnu-efi/lib/runtime/vm.c:89-104 | of the two calls for each entry, Flink first, exactly two in the whole turn carry DebugDisposition: the last entry's Flink and the Blink of the one behind the head |
| `Protocols.LibInstallProtocolInterfaces` | gnu-efi/lib/hand.c:437-517 | success iff the firmware refuses no install for reasons of its own and the list is empty or the handle is NULL or exists, the protocols are distinct and none is on it yet; then all of the list is on one handle, otherwise the handle is as before, and so is the database iff no uninstall is refused; the task priority is restored either way |
| `Protocols.WithMeans` | gnu-efi/lib/hand.c:479-495 | what all of the list installed means: every entry is on the handle beside what it had, and no other handle is changed |
| `Protocols.UndoInstalls` | gnu-efi/lib/hand.c:497-509 | the removal loop leaves of the installed entries exactly those whose uninstall the firmware refuses |
| `Protocols.WithoutOne` | gnu-efi/lib/hand.c:499-506 | uninstalling any one of the new entries leaves the database with the others, and without a handle once none is left |
| `Protocols.LibReinstallProtocolInterfaces` | gnu-efi/lib/hand.c:558-636 | success iff nothing is refused and the list is empty or the argument is a handle whose interfaces the changes find one after the other; otherwise the changes made are undone in list order but for those refused, which with distinct protocols restores the database iff each of the refused changes changed nothing; the task priority is restored |
| `Protocols.RunMeans` | gnu-efi/lib/hand.c:597-615 | changes that are all made leave each protocol with the interface that the last change to it names |
| `Protocols.MoreApplyIff` | gnu-efi/lib/hand.c:597-615 | one more change can be made iff it names the interface that the last change to its protocol left, or, if there is none, the one on the handle |
| `Protocols.UndoneWhenDistinct` | gnu-efi/lib/hand.c:616-628 | for distinct protocols the undo restores every interface |
| `Protocols.RefusedKept` | gnu-efi/lib/hand.c:616-628 | for distinct protocols the undo leaves the new interface exactly where it is refused |
| `Protocols.UndoneDespiteIff` | gnu-efi/lib/hand.c:616-628 | so the handle is as before iff every refused change has equal interfaces |
| `Protocols.UndoneIff` | gnu-efi/lib/hand.c:616-628 | for given protocols the undo restores the handle, whatever the interfaces, iff none is named twice |
| `GrowBuffer.Grow` | gnu-efi/lib/misc.c:131-200 | at most one block is owned; a try is due iff the status asks for one, or there is no block yet for a size above 0, and the pool does not refuse |
| `GrowBuffer.RetryLoop` | gnu-efi/lib/misc.c:204-240 | for every sequence of firmware answers and every first size, 0 included: unless the pool refuses, the status is the first answer other than "too small"; if it does, it is out of resources; one block of the size last asked for, or none on an error; every other block freed exactly once |
| `GrowBuffer.LibLocateHandle` | gnu-efi/lib/hand.c:57-102 | unless the pool refuses, the first answer other than "too small" counts: as many handles as the size in it holds, in a block of the size asked for before; no handles and no block on an error |
| `RelocScan.ScanDynamic` | gnu-efi/gnuefi/reloc_x86_64.c:50-71 | table address, size and entry size are those of the entries in front of the first DT_NULL, the last of each tag counting |
| `RelocScan.ScanLast` | gnu-efi/gnuefi/reloc_x86_64.c:52-71 | of several entries with one tag the last counts, the table address offset by ldbase, the sizes read as signed |
| `RelocScan.ScanMeans` | gnu-efi/gnuefi/reloc_x86_64.c:52-71 | the last entry of tag 7 gives the table's address, offset by ldbase modulo 2^64, that of tag 8 its size and that of tag 9 the size of an entry, both as signed 64-bit numbers |
| `RelocScan.ScanAbsent` | gnu-efi/gnuefi/reloc_x86_64.c:47-71 | without an entry of a tag its value is 0 |
| `RelocScan.AbsentMeans` | gnu-efi/gnuefi/reloc_x86_64.c:47-71 | without such an entry each of the three is 0 |
| `RelocScan.LiveMeans` | gnu-efi/gnuefi/reloc_x86_64.c:52 | the scan ends at the first entry of tag 0 |
| `Words.LoadMeans` | gnu-efi/gnuefi/reloc_x86_64.c:86-88 | a word is eight bytes, the lowest first |
| `Reloc.Relocate` | gnu-efi/gnuefi/reloc_x86_64.c:42-96 | success or load error as in the source; the memory is that of the walk, each entry read when its turn comes; for words apart from each other and from the table every RELATIVE entry, `i` entry sizes behind the table's start, has been applied to the word at ldbase + r_offset modulo 2^64 |
| `Reloc.WalkTable` | gnu-efi/gnuefi/reloc_aarch64.c:78-94 | the in-place loop, on either machine, for any table it can walk, overlapping words included |
| `Reloc.WalkedIsFixes` | gnu-efi/gnuefi/reloc_x86_64.c:79-94 | for words apart from each other and from the table the walk makes the fixes read off the initial memory |
| `Reloc.EveryEntryApplied` | gnu-efi/gnuefi/reloc_x86_64.c:79-94 | every RELATIVE entry's word ends as its old value plus ldbase once (x86_64) or its addend plus ldbase (AArch64) |
| `Reloc.EntryMeans` | gnu-efi/gnuefi/reloc_x86_64.c:79-94 | the same in numbers: entry i at rel + i * relent, its type in the low half of the second word, the word at ldbase plus the first word modulo 2^64, its old value or the third word for an addend |
| `Reloc.MachinesAre` | gnu-efi/gnuefi/reloc_aarch64.c:78-94 | type 8 and the addend in the word on x86_64, type 1027 and the addend in the entry on AArch64 |
| `Reloc.FixesMean` | gnu-efi/gnuefi/reloc_x86_64.c:79-94 | the fixes read off a table are those of its RELATIVE entries, and no others |
| `RelocRepeats.NothingElseChanges` | gnu-efi/gnuefi/reloc_x86_64.c:79-94 | every byte in no RELATIVE entry's word is unchanged, also where words overlap |
| `RelocRepeats.TimesMean` | gnu-efi/gnuefi/reloc_x86_64.c:79-94 | how often a word is named is the number of fixes with its address |
| `RelocRepeats.NamedAgainAddsAgain` | gnu-efi/gnuefi/reloc_x86_64.c:79-94 | an x86_64 word named by n entries ends as its old value plus n times ldbase, and so as one entry asks iff (n - 1) * ldbase is 0 modulo 2^64 |
| `RelocRepeats.NamedAgainLastDecides` | gnu-efi/gnuefi/reloc_aarch64.c:78-94 | an AArch64 word named by several entries ends as the last of them asks |
| `Reloc.TableOrderIrrelevant` | gnu-efi/gnuefi/reloc_x86_64.c:79-94 | tables with the same entries in another order give the same image |
| `RelocRepeats.RepeatedWordsAnyOrder` | gnu-efi/gnuefi/reloc_x86_64.c:79-94 | on x86_64 tables that ask for the same fixes equally often leave alike every byte that was alike, also where several entries name one word |
| `Reloc.MachinesAgree` | gnu-efi/gnuefi/reloc_aarch64.c:78-94 | when each word holds its addend the x86_64 relocator makes the fixes the AArch64 one makes |
| `Reloc.MachinesRelocateAlike` | gnu-efi/gnuefi/reloc_aarch64.c:78-94 | images that differ in entry types and in the words holding addends only are relocated to the same bytes |
| `RelocRepeats.MachinesAgreeIff` | gnu-efi/gnuefi/reloc_aarch64.c:78-94 | on a word named by n entries the two machines agree iff (n - 1) * ldbase is 0 modulo 2^64 |
| `RelocRepeats.SecondRunIff` | gnu-efi/gnuefi/reloc_aarch64.c:78-94 | a second run changes nothing iff the machine is AArch64, or ldbase times the number of entries naming a word is 0 modulo 2^64 for every word named |
| `RelocRepeats.SecondRunApartIff` | gnu-efi/gnuefi/reloc_x86_64.c:79-94 | for words named once: iff the machine is AArch64, ldbase is 0 modulo 2^64, or no entry is RELATIVE |
| `Smbios.StructurePointer.LibGetSmbiosString` | gnu-efi/lib/smbios.c:84-135 | string k's place for 1 <= k up to the number of strings; NULL without moving for 0; otherwise NULL and the pointer at the next structure |
| `Smbios.EncodeMeans` | gnu-efi/lib/smbios.c:101-131 | a structure in bytes: the formatted area, each string with a NUL, one more NUL, two when there is no string; a table: one after the other |
| `Smbios.HoldsMeans` | gnu-efi/lib/smbios.c:84-131 | memory holds a structure: its length in byte 1, at least 4, no empty string and no NUL in one, and its bytes at the place |
| `Smbios.AnswersMean` | gnu-efi/lib/smbios.c:84-135 | the answer and the pointer for every string number, in offsets: 1 is right behind the formatted area, whether or not there is a string |
| `Smbios.StringReads` | gnu-efi/lib/smbios.c:101-131 | string k stands there, NUL-terminated, with the rest of the area behind |
| `Smbios.HoldsUnique` | gnu-efi/lib/smbios.c:84-135 | memory holds at most one structure at a place |
| `Smbios.ReadableIff` | gnu-efi/lib/smbios.c:101-131 | memory holds a structure iff its area has a double NUL and does not begin with a lone one |
| `Smbios.SkipIff` | gnu-efi/lib/smbios.c:122-131 | string number 0xFFFF moves to the next structure iff this one has fewer than 65535 strings |
| `Smbios.SkipsVisitStarts` | gnu-efi/lib/smbios.c:65-70 | repeated calls with 0xFFFF visit the start of every structure in order |
| `Smbios.LibGetSmbiosSystemGuidAndSerialNumber` | gnu-efi/lib/smbios.c:29-81 | GUID and serial number of the first type 1 structure within the table length, unless it is too short; structures are read up to the table length or the first of type 1 only |
| `Smbios.SystemMeans` | gnu-efi/lib/smbios.c:51-81 | the system found: bytes 8 to 23 and the string numbered by byte 7 of the first structure of type 1, if it starts within the table length and has at least 25 bytes |
| `Smbios.UsableMeans` | gnu-efi/lib/smbios.c:51-81 | the system that should be found: the same of the first structure that is of type 1 and has 25 bytes |
| `Smbios.SystemFoundIff` | gnu-efi/lib/smbios.c:65-78 | the search finds the first type 1 structure that has GUID and serial number iff the first of type 1 is long enough, or no long enough one starts in range |
| `Smbios.LaterSystemHidden` | gnu-efi/lib/smbios.c:65-78 | a type 1 structure that is too short, in front of a full one: nothing is found |
| `Cursor.BasicRenderer.DrawCursor` | kernel/src/BasicRenderer.cpp:140-165 | frame, background store and position after a draw; one colour on the painted cells and nothing else changed |
| `Cursor.BasicRenderer.DelteCursor` | kernel/src/BasicRenderer.cpp:167-189 | the stored pixels put back, or nothing before the first draw |
| `Cursor.PixelInside` | kernel/src/BasicRenderer.cpp:17-23 | the 32-bit byte offsets address pixel x + y * pitch, inside the frame, for every point on the screen |
| `Cursor.PixelInjective` | kernel/src/BasicRenderer.cpp:17-23 | different points on the screen are different pixels |
| `Cursor.ClipInsideIff` | kernel/src/BasicRenderer.cpp:144-150 | clipping keeps every drawn column on the screen iff the position modulo 2^32 is at most 2^31 past the edge |
| `Cursor.PlaceableIff` | kernel/src/BasicRenderer.cpp:144-150 | every drawn cell falls on the screen iff the position is at most 2^31 past the edge on both axes, or clipping leaves nothing to draw |
| `Cursor.DrawnAt` | kernel/src/BasicRenderer.cpp:152-162 | a point has the cursor's colour after a draw exactly where a set bit of the bitmap falls on it |
| `Cursor.DrawMeans` | kernel/src/BasicRenderer.cpp:140-165 | a draw as a whole: pixel x + y * pitch gets the colour iff bit (y - top) * 16 + x - left of the bitmap is 1 and inside its 16 by 16 square; the position is remembered |
| `Cursor.DeleteUndoesDraw` | kernel/src/BasicRenderer.cpp:140-189 | deleting after drawing gives every pixel back, and so does deleting again |
| `Cursor.RunShows` | kernel/src/BasicRenderer.cpp:140-189 | in every run with a delete between any two draws, each draw in its own colour, the screen is the initial one, with the cursor on it exactly when the last step drew it |
| `Cursor.TwoDrawsIff` | kernel/src/BasicRenderer.cpp:140-189 | after two draws in a row a delete gives the frame back iff the first draw changed nothing |

## Left out

- `Print.PrintState.PrintPieces`: begins with the pieces (`Piece`, `Item`) that a format string comes down to. Parsing it, fetching its arguments (`va_list`), float, time, GUID and status items are left out; of an attribute change the flush is modelled, the console call is not.
- Runtime DEBUG and ASSERT output.
- The firmware: boot services are small contracts over a protocol database, a pool and a sequence of answers.
- `LibMemoryMap` and `LibGetVariableAndSize` as callers of their own: `RetryLoop` is the loop they share.
- `GrowBuffer.RetryLoop`: for firmware that at some point stops answering "too small"; otherwise the loop does not end.
- `DevicePathAppend.AppendAssociativeIff`: on what readers find when End-Entire nodes have length 4.
- `Print.VSPrint`: for outputs shorter than 2^64 - 1 characters, and buffers as large as StrSize says.
- `CopyInstances` tests its pointer at the loop head, where the source breaks on a NULL from `DevicePathInstance`.
- `Reloc.Relocate`: addresses are offsets into one byte memory, which holds the table and the words; a negative entry size, with which the size left only grows, is left out. The values of the ELF constants come from a system header that is not part of this model.
- `Reloc.EveryEntryApplied`: for words apart from each other, as a linker lays them out; words that coincide are the matter of `NamedAgainAddsAgain` and `NamedAgainLastDecides`. Of words that overlap in part only what the walk itself does is stated.
- `Reloc.TableOrderIrrelevant`: for words apart from each other; on AArch64 the order of entries for one word matters.
- `Reloc.MachinesRelocateAlike`: for words apart from each other; `MachinesAgreeIff` is for words that coincide.
- `Smbios.LibGetSmbiosSystemGuidAndSerialNumber`: for memory that holds structures as far as the table length, or up to the first of type 1; the configuration table look-up that precedes it is a parameter.
- `Cursor.BasicRenderer.DrawCursor`: for frames below 4 GiB and positions that clipping keeps on the screen (`PlaceableIff`); elsewhere it writes outside the frame. Reading the frame back through hardware is plain memory.
- Concurrency: `TPL` is a number that is raised and restored; nothing runs in between.
- `LibDuplicateDevicePathInstance`, `ValidMBR`, `Port::Read`, `ACPI::FindTable`, number conversion in the kernel: the natural claim is false of the code, in ways that say little beyond the one faulty line.
- Device-path-to-text handlers, console, shell, keyboard, other renderer functions, PCI and GDT tables, plain string and memory copies: large tables or easy members.
