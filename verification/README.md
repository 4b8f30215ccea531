# Verification of four cores of the SDK

Dafny models of the parts of this repository whose correctness is hardest to see, each in the form the C code
has, with proofs that they do what they are for. `dafny verify dfyconfig.toml` checks everything.

- **The ROMFS image builder** (`tools/genromfs`). `RomfsFormat`, `RomfsImage` and `RomfsReader` say what an image
  is and how it is read; `RomfsWriter` and `Genromfs` are the program: the staged output, the tree of nodes, the
  pass that assigns offsets and the pass that emits bytes. `SentinelList` is the list every node keeps its contents
  on. The top result is that the file a run leaves behind reads back as the tree that went in.
- **The CoreMark kernels** (`examples/coremark_v1.01`). `StableMerge` and `CoreList` are the in-place merge sort
  with its two comparators that write to what they compare, `CoreBench` one benchmark pass, which must end "back
  to original state", `CoreInit` the construction of the list, `Crc` the bit-serial CRC against polynomial
  division, `CoreState` the state machine against regular languages. `CoreLaws` and `StateLaws` say, place by place
  and bit by bit, what the functions come to that the kernels are measured by.
- **The printf engine** (`components/libc/vsnprintf.c`). `PrintfStandard` reads the fields of ISO/IEC 9899:2011
  section 7.21.6.1 off the characters of a directive, and knows nothing of the engine. `PrintfField` holds the field
  in the engine's words and the one the 32-character scratch buffer yields, `PrintfWriter` the three sinks and the
  integer printer, `PrintfFormat` the engine, `PrintfFloat` floating-point conversions, `PrintfComponents` the
  rounding of a number to decimal places, `PrintfDecimal` the fixed decimal printer, `Doubles` what rounding to a
  double preserves. `PrintfDirective` holds integer directives as text against the standard, `PrintfCall` the other
  conversions and whole formats.
- **The shell** (`components/shell/shell.c`). `ShellSplit` is the in-place tokenizer, `ShellComplete` tab
  completion, `Shell` the byte-driven line editor against an editor of a text, a cursor and a history, `ShellKeys`
  what the keys do, as bytes.

`Common` holds what several of them share.

## Where the code does not do what it seems to

Each of these is a lemma with a concrete input or an exact condition.

- Special files get room in the first pass of genromfs but no bytes in the second, so offsets behind them are
  wrong; the passes agree exactly when there are none (`PassesAgreeIff`), and some header goes astray exactly when
  one is emitted behind a special file (`LayInPlaceIff`, `Run`, `FifoBeforeFile`).
- A benchmark pass restores the list exactly if idx never decreases and nodes of equal idx come out of the searches
  and the data sort in their old order; if idx is strictly increasing that is always so (`CoreBenchList`).
  `core_list_init` does not guarantee that for every seed (`CoreListInit`, `SeedSevenRepeats`), and with seed 7 and
  400 bytes a pass of one search does change the order (`SeedSevenPass`).
- `-87e+832`, one of the patterns for scientific notation, is not recognised as such (`SciPatterns`).
- Undoing the corruption of a block fails when the first sweep made a separator of a byte (`RestoredIff`,
  `CommaSeed`). Every block comes back, whatever the step, exactly for the seed bytes that do so to none of the 19
  other bytes that occur (`RestoresIff`); those of the three standard runs are among them (`StandardSeeds`).
- An integer field longer than 32 characters loses its front (`FieldExactIff`, `TooPrecise`).
- A negative precision from an argument is taken as zero and not as omitted, which shows in a zero value and in zero
  padding (`NegativePrecisionIff`, `NegativePrecisionLosesZero`), and in all but blank text (`TextDirective`).
- The product of the part behind the point with the power of ten is itself rounded, and what is printed is that
  rounded once more. Below 2^52 that goes wrong exactly if the product became a tie: one that moves away from the
  number, or one behind nothing but nines, which is not carried into the integral part (`NearestIff`). %.1f of 0.15
  is 0.2, though 0.1 is nearer (`FifteenTie`). %.1f of 0.95 makes ten tenths (`NineTie`), on which the printer counts
  its places past zero and fills the buffer with zeros: thirty zeros and a 10, without point or sign (`TooManyDigits`,
  `RoundedTie`). %.17f of 0.3 is 0.30000000000000000, the product being a multiple of four (`ThreeTenths`).
- The precision is limited to 17 digits by putting out zeros, of which there is room for 32: with %.50f, 18 are left,
  and the table of powers ends at 17 (`LimitedIff`). %g adds to the limited precision for zeros behind the point, so
  %.17g of 0.01 asks for 18 (`AdaptedIff`).
- With %g and a precision above 17 the zeros the caller puts behind the numeral stay when no fraction is shown,
  so that 1.0 comes out as 1000 (`DecimalValueIff`, `TrailingZerosMultiply`).
- A line that fills up leaves the shell with positions of zero over a full buffer (`Handler`).

## Assumptions taken from the code

- genromfs: `__htonl` swaps bytes, so the host is little-endian. What `lstat`, `readdir` and `fopen` yield is the
  input tree: an entry whose `lstat` fails is `Gone`, a file that cannot be opened is one nothing can be read of,
  `readable` is what reading would yield and every read returns an arbitrary nonempty part of it. The root's own
  `.` and `..` can be looked at. Names hold no NUL and their headers fit the 4096-byte buffer. The branch for a
  directory called `..` that is no link (lines 513-516) cannot be reached. The alignment is 16, the only value
  the option has. The total size is below 2^31.
- CoreMark: `core_bench_state` and `core_bench_matrix` are arbitrary functions of data and CRC where the list
  kernel calls them. The block the state machine works on is a buffer of its own, and the step is positive.
  Counters are unbounded and reduced to 32 bits where the CRC takes them.
- printf: `int`, `long`, `size_t` and pointers have 32 bits, `long long` and `intmax_t` 64. An argument that is
  missing or of the wrong kind, and a format that ends inside a directive, have no defined meaning and are
  excluded, and so is a %f with a precision above 49, which reads past the table of powers. What a multiplication of
  two doubles yields is any double nearest to the exact product. A floating-point argument comes with what is put out
  for it in exponential notation, by %e and %g and by %f above 10^9.
- The shell: command names hold no NUL and are shorter than the line, and the file system options are off.

## Model

| member | source | states |
|---|---|---|
| `Genromfs.Run` | tools/genromfs/genromfs.c:541-604 | for every valid tree and every pattern of short reads the file holds exactly the image of the tree; read back, byte i of a file is the i-th byte that could be read of it, or zero from there up to its size, and every directory has its entries in order, exactly if there are directories and regular files only; exactly then the output count ends at the last offset rounded up to 1024, and then the staging buffer was flushed once; some header goes astray exactly if one is emitted behind an entry of another kind |
| `RomfsReader.ImageReadsBack` | tools/genromfs/genromfs.c:206-316 | a reader that checks every header checksum, follows `spec` into directories and `nextfh & ~15` to siblings recovers the volume name and, entry by entry and byte by byte, what the tree given in says should be read: names, types, exec bits, sizes, contents as they could be read and zeros behind, `.` and `..` linked to the directory and its parent; exactly if the tree holds directories and regular files only |
| `RomfsReader.ListReadBack` | tools/genromfs/genromfs.c:231-296 | the same for any listing laid out anywhere in any image, by induction on the tree |
| `RomfsReader.HeadReadBack` | tools/genromfs/genromfs.c:206-229 | a stored header is read back field by field and its words sum to zero |
| `RomfsReader.VolumeReadBack` | tools/genromfs/genromfs.c:298-316 | magic, size and volume name survive the checksum patch, and the first min(512, size) bytes sum to zero |
| `RomfsReader.StagedParts` | tools/genromfs/genromfs.c:158-186 | apart from bytes 12 to 15 the file is the dumped stream, and its first min(512, size) bytes sum to zero as big-endian words |
| `RomfsImage.PassesAgreeIff` | tools/genromfs/genromfs.c:248-296 | the bytes the second pass emits for a listing are never more than the room the first pass set aside, and as many exactly when every entry is a directory or a regular file |
| `RomfsImage.ImageLength` | tools/genromfs/genromfs.c:298-316 | the output ends at the first pass's last offset rounded up to 1024 exactly when no entry is of another kind |
| `Genromfs.LayInPlaceIff` | tools/genromfs/genromfs.c:231-296 | every header of a listing is emitted when the output count equals its node's offset, exactly if none of them comes, in the order of the second pass, behind an entry of another kind |
| `Genromfs.FifoBeforeFile` | tools/genromfs/genromfs.c:231-296 | a fifo before an empty file: 64 bytes set aside, 32 emitted, and the header of the file astray |
| `Genromfs.EmittedEarly` | tools/genromfs/genromfs.c:231-296 | a listing whose emission starts before its place has headers in it that are astray, unless it has no headers |
| `RomfsFormat.NextFieldParts` | tools/genromfs/genromfs.c:242-265 | offset, type bits and exec bit or-ed into `nextfh` can be told apart again; hard links lose the exec bit |
| `RomfsFormat.FixSumZero` | tools/genromfs/genromfs.c:152-156 | after `fixsum` the words of the area sum to zero mod 2^32 |
| `RomfsFormat.Be32RoundTrip` | tools/genromfs/genromfs.c:66-78 | byte swapping out and in gives the word back |
| `RomfsFormat.BigEndian` | tools/genromfs/genromfs.c:66-78 | words are in the order their bytes are in as a dictionary has it, so the most significant byte comes first |
| `RomfsFormat.WordsSum` | tools/genromfs/genromfs.c:139-150 | words stored one behind the other are summed, and bytes behind the last whole word do not count |
| `RomfsImage.Magic` | tools/genromfs/genromfs.c:303-307 | a volume starts with the characters -rom1fs- |
| `RomfsImage.PaddingIs` | tools/genromfs/genromfs.c:313-315 | the zeros at the end are the fewest that end at a multiple of 1024 |
| `RomfsWriter.RomfsChecksum` | tools/genromfs/genromfs.c:139-150 | the loop computes the 32-bit sum of the big-endian words, ignoring a last partial word |
| `RomfsWriter.Fixsum` | tools/genromfs/genromfs.c:152-156 | the word at 12, and nothing else, becomes the negated sum |
| `RomfsWriter.Output.DumpData` | tools/genromfs/genromfs.c:158-186 | staging, flushing and writing through together append the data to the stream; the file is always the staged form of the stream and the buffer is flushed exactly once, when 512 bytes are complete |
| `RomfsWriter.Output.DumpRi` | tools/genromfs/genromfs.c:206-229 | appends header and padded name, checksummed unless the node is the volume, and notes whether it goes to the node's offset |
| `RomfsWriter.Output.DumpReadable` | tools/genromfs/genromfs.c:267-281 | whatever short reads occur, what is dumped is the readable prefix, cut at the file size |
| `RomfsWriter.Output.DumpFile` | tools/genromfs/genromfs.c:263-289 | what is appended has at place i the i-th byte that could be read, zeros up to the size behind what could be read, and zeros up to a multiple of 16 |
| `Genromfs.FileNode.constructor` | tools/genromfs/genromfs.c:332-385 | a new node is on no list, owns an empty one, and has no link, size or padding |
| `Genromfs.FileNode.Append` | tools/genromfs/genromfs.c:93-100 | the node is linked in at the end of the doubly linked list, and its parent is the owner of the list |
| `Genromfs.AlignNode` | tools/genromfs/genromfs.c:411-423 | the node and the running offset move to the next aligned place, and the padding is noted |
| `Genromfs.AddEntry` | tools/genromfs/genromfs.c:466-521 | an entry becomes a node carrying its fields, with its link resolved, at the running offset, which moves on by the room for it and all below it; every list stays well linked |
| `Genromfs.ReadDir` | tools/genromfs/genromfs.c:459-524 | the directory loop appends nodes that describe the layout of the listing and returns the offset behind it |
| `Genromfs.ProcessDir` | tools/genromfs/genromfs.c:425-525 | at the root `.` comes first, `..` is a link to it, and both stand for the root in directories below |
| `Genromfs.HeaderWords` | tools/genromfs/genromfs.c:236-265 | the header words computed from the node's neighbours, kind and modes are those of the layout |
| `Genromfs.FirstInside` | tools/genromfs/genromfs.c:254-258 | where a directory's contents start: at the first node of its list, or at the directory itself |
| `Genromfs.DumpNode` | tools/genromfs/genromfs.c:231-296 | emits the node and everything below it; exactly what goes astray below it and behind it is what the layout has out of place |
| `Genromfs.DumpList` | tools/genromfs/genromfs.c:291-295 | following the links from the head while there is a next node emits the nodes of the list, each with everything below it |
| `Genromfs.DumpAll` | tools/genromfs/genromfs.c:298-316 | volume header, nodes, and zeros to the block size |
| `SentinelList.FileHdr.constructor` | tools/genromfs/genromfs.c:80-86 | an empty list between the two overlaid sentinel nodes |
| `SentinelList.FileHdr.IsEmpty` | tools/genromfs/genromfs.c:88-91 | true exactly for a list without items |
| `SentinelList.FileHdr.Append` | tools/genromfs/genromfs.c:93-100 | the chain stays doubly linked and has one more item at its end |
| `SentinelList.Link.Sibling` | tools/genromfs/genromfs.c:242-243 | `node->next && node->next->next` tells whether there is a sibling, and which |
| `CoreList.Mergesort` | examples/coremark_v1.01/core_list_join.c:433-512 | an acyclic, null-terminated relinking of exactly the same nodes, sorted by the final keys and stable, every cell cached or regenerated if there are two or more, no high byte changed, in max(1, ceil(log2 n)) passes of at most n - 1 comparisons each; for the data sort, a cell cached before keeps its key, an uncached one of type 2 to 7 ends with key `lo % 0x80`, one of type 0 or 1 with the low seven bits of what that kernel yields for its step, and the results record is what computing the uncached cells once each, in the order logged, leaves |
| `CoreList.SortPasses` | examples/coremark_v1.01/core_list_join.c:439-511 | passes over runs of doubled length end with one sorted run; comparisons are counted over all of them |
| `CoreList.MergePass` | examples/coremark_v1.01/core_list_join.c:441-503 | one pass turns runs into runs of twice the length with fewer than n comparisons |
| `CoreList.MergeRuns` | examples/coremark_v1.01/core_list_join.c:461-494 | merges two runs in place, stably, keeping the invariant of both links and keys |
| `CoreList.TakesFromP` | examples/coremark_v1.01/core_list_join.c:464-482 | which run the next element comes from; the comparison is made only when both have elements left |
| `CoreList.CalcFunc` | examples/coremark_v1.01/core_list_join.c:61-105 | the first call computes and caches the 7-bit key and advances the CRC, later calls return the cached key and change nothing; the high byte is never touched |
| `CoreList.CalcLogged` | examples/coremark_v1.01/core_list_join.c:61-94 | every call of `calc_func` in a sort either finds its cell cached or computes it on the running CRC, caches it and logs it |
| `CoreList.CalcLaw` | examples/coremark_v1.01/core_list_join.c:69-88 | which kernel a cell asks for, with which step, and the cell itself for the other types |
| `CoreList.TraceCached` | examples/coremark_v1.01/core_list_join.c:61-94 | a cell that ends cached has cached its own key, said of the kernels themselves |
| `CoreLaws.RecordIs` | examples/coremark_v1.01/core_list_join.c:76-91 | a computation feeds the sixteen bits of its value, lowest first, to the CRC, and the first nonzero value of each kernel stays in the record |
| `CoreList.CmpIdxInfo` | examples/coremark_v1.01/core_list_join.c:112-119 | compares by idx and regenerates both low bytes from the high bytes |
| `CoreBench.CoreBenchList` | examples/coremark_v1.01/core_list_join.c:134-201 | one pass: the same nodes, every idx as before and every data16 regenerated from its high byte, so restored where its bytes were equal; the order comes back exactly if idx never decreases and the arrangement before the last sort keeps ties in order, an arrangement that is computed round by round from what the searches see, followed by the stable sort by 7-bit keys if there was one; those keys are what `calc_func` cached in each node's cell, each computed once on the running record; a strictly increasing idx always brings order and head back; the returned CRC is that of the searches' score, the list without its second item, and the final list |
| `CoreBench.FindAndShuffle` | examples/coremark_v1.01/core_list_join.c:149-176 | the searches leave the computed arrangement of the list and the score: a bit a round, four for each hit, one off for each miss |
| `CoreBench.FindRound` | examples/coremark_v1.01/core_list_join.c:150-172 | one search: the list is reversed, and the node behind the one found goes behind the head |
| `CoreLaws.SoughtIs` | examples/coremark_v1.01/core_list_join.c:145-167 | the idx searched for goes up with every round until it wraps, and is kept from there on; the low byte is the round's |
| `CoreLaws.RoundMoves` | examples/coremark_v1.01/core_list_join.c:149-165 | for every place, where the node that a round leaves there was before |
| `CoreLaws.RoundScores` | examples/coremark_v1.01/core_list_join.c:151-172 | a miss costs one and adds bit 8 of the second node of the reversed list; a hit brings four and, for an odd value, its bit 9 |
| `CoreBench.OneStableArrangement` | examples/coremark_v1.01/core_list_join.c:189-190 | two stable sorts by idx of the same arrangement are the same list |
| `CoreBench.OrderRestored` | examples/coremark_v1.01/core_list_join.c:189-190 | the final sort gives the original order exactly if that order is the stable sort of the arrangement before it |
| `CoreBench.ReversalRestoredIff` | examples/coremark_v1.01/core_list_join.c:189-190 | sorting a reversed list by idx gives the list back exactly if its idx are strictly increasing |
| `CoreBench.SortRestores` | examples/coremark_v1.01/core_list_join.c:189-190 | with strictly increasing idx, sorting any rearrangement gives the original order |
| `CoreBench.CoreListFind` | examples/coremark_v1.01/core_list_join.c:375-386 | the first node that matches, by idx or by low byte |
| `CoreBench.CoreListReverse` | examples/coremark_v1.01/core_list_join.c:401-411 | the same nodes, linked in reverse order |
| `CoreBench.CoreListRemove` | examples/coremark_v1.01/core_list_join.c:319-331 | unlinks the next node and exchanges the cells |
| `CoreBench.CoreListUndoRemove` | examples/coremark_v1.01/core_list_join.c:349-360 | puts the removed node and the cells back as they were |
| `CoreBench.RemoveAndUndo` | examples/coremark_v1.01/core_list_join.c:178-188 | removing, checksumming and undoing leaves list and cells as before; the CRC takes the head's data once for every node from the one found on |
| `CoreLaws.CrcRepeatedIs` | examples/coremark_v1.01/core_list_join.c:181-184 | the CRC of a word taken n times is that of its bits, lowest first, n times over |
| `CoreLaws.MiddleOfPass` | examples/coremark_v1.01/core_list_join.c:173-184 | the score, then the head's data, its low byte cached if there was a data sort, once for every node from the one the last search hits, the second item left out |
| `CoreInit.CoreListInit` | examples/coremark_v1.01/core_list_join.c:215-269 | a sorted null-terminated list of the nodes there is room for, each with a cell of its own, holding the index and the equal data bytes computed for its place; its indices are strictly increasing, as a benchmark pass needs, exactly if no two of the computed ones coincide |
| `CoreInit.SeedSevenRepeats` | examples/coremark_v1.01/core_list_join.c:246-257 | a seed for which two indices do coincide |
| `CoreInit.SeedSevenPass` | examples/coremark_v1.01/core_list_join.c:134-269 | with seed 7, block size 400 and one search for nothing, the pass does not bring the order back |
| `CoreInit.InsertNew` | examples/coremark_v1.01/core_list_join.c:285-304 | takes the next node and cell if there is room, and otherwise changes nothing |
| `CoreInit.Index` | examples/coremark_v1.01/core_list_join.c:246-257 | every node between head and tail gets the index of its place |
| `CoreLaws.IndexOfItem` | examples/coremark_v1.01/core_list_join.c:246-257 | for every seed: the first fifth is in order, and bit b of any other index is that of place and seed, differing, with three bits of the next place or-ed in at 8 to 10, and none from 14 on |
| `CoreLaws.DataOfItem` | examples/coremark_v1.01/core_list_join.c:240-245 | for every seed: both bytes of an item are its number's low three bits and, above them, its low four bits against those of the seed |
| `CoreLaws.PlacesOfItems` | examples/coremark_v1.01/core_list_join.c:228-257 | which item is at which place of the list |
| `StableMerge.FinishTwo` | examples/coremark_v1.01/core_list_join.c:433-512 | merging two sorted runs keeps the runs sorted and their items accounted for |
| `StableMerge.RunCount` | examples/coremark_v1.01/core_list_join.c:433-512 | how many runs of a given length n items make |
| `Crc.CrcIsRemainder` | examples/coremark_v1.01/core_util.c:142-178 | the CRC of any bytes from any start value is r if and only if r is a remainder of the dividend modulo x^16 + x^15 + x^2 + 1 over GF(2), in reflected bit order |
| `Crc.BurstDetected` | examples/coremark_v1.01/core_util.c:142-178 | two messages of equal length that differ only inside a window of 16 bits have equal CRCs if and only if they are equal |
| `Crc.CrcU8` | examples/coremark_v1.01/core_util.c:142-165 | the bit loop equals feeding the eight bits, lowest first |
| `Crc.CrcU16` | examples/coremark_v1.01/core_util.c:166-170 | equals feeding the sixteen bits of the word, lowest first |
| `Crc.CrcU32` | examples/coremark_v1.01/core_util.c:171-178 | equals feeding the bits of the low half, lowest first, then those of the high half |
| `Crc.WordCrc` | examples/coremark_v1.01/core_util.c:166-170 | the CRC of a word is the remainder of its bits, bit i of the message being bit i of the number, and two words have it only if they are equal |
| `Crc.CastBits` | examples/coremark_v1.01/core_util.c:166-170 | a number below 2^16 has, as a word, the bits that stand for it, lowest first |
| `Crc.FoldIsFeed` | examples/coremark_v1.01/core_util.c:142-178 | folding bytes is feeding their bits one by one |
| `Crc.ReduceAllInjective` | examples/coremark_v1.01/core_util.c:142-165 | feeding zeros is injective on the register |
| `CoreState.StateLanguages` | examples/coremark_v1.01/core_state.c:184-277 | every state stands for one language: a token ends in INT, FLOAT or SCIENTIFIC exactly when it matches [+-]?d+, [+-]?d*.d* or [+-]?d*.d*[eE][+-]d+, and S1, S2, EXPONENT exactly for the corresponding prefixes |
| `StateLaws.NumbersRun` | examples/coremark_v1.01/core_state.c:184-277 | in bytes: a sign or none, digits, a point, digits, E or e, a sign and digits lead through INT, FLOAT, S2 and EXPONENT to SCIENTIFIC |
| `CoreState.TokenRead` | examples/coremark_v1.01/core_state.c:184-277 | one call makes progress and ends in the state of the text up to a separator, the end, or the first impossible character |
| `CoreState.PiecesCover` | examples/coremark_v1.01/core_state.c:58-66 | the calls over a string together read every byte of it once |
| `CoreState.CoreStateTransition` | examples/coremark_v1.01/core_state.c:184-277 | final state, new position and all eight transition counters |
| `CoreState.Switch` | examples/coremark_v1.01/core_state.c:194-273 | next state and counter increments, the double count on START to INVALID and the odd one on SCIENTIFIC to INVALID included |
| `CoreState.Scan` | examples/coremark_v1.01/core_state.c:58-66 | a scan counts the end states and the transitions of all its calls |
| `StateLaws.TransitionsAre` | examples/coremark_v1.01/core_state.c:194-273 | one call counts at most one transition for a state: whether the text it read left it; for INVALID whether it failed at the start or within an exponent |
| `StateLaws.ScanCounts` | examples/coremark_v1.01/core_state.c:58-66 | the counters of a scan count the pieces of the string, by the states they end in and those they leave |
| `CoreState.RestoredIff` | examples/coremark_v1.01/core_state.c:69-92 | with equal seeds the second sweep restores the block exactly if no visited byte that is no separator was turned into one |
| `StateLaws.VisitsIff` | examples/coremark_v1.01/core_state.c:69-74 | a sweep comes by exactly the multiples of its step |
| `CoreState.RestoresIff` | examples/coremark_v1.01/core_state.c:69-166 | a seed byte brings back every block `core_init_state` fills, for every step, exactly if it is zero or turns none of the bytes occurring in such blocks into a separator |
| `CoreState.StandardSeeds` | examples/coremark_v1.01/core_state.c:69-166 | the seeds 0, 0x3415 and 8 do |
| `CoreState.CommaSeed` | examples/coremark_v1.01/core_state.c:69-92 | seed byte 0x2C makes separators of two zeros, and they stay |
| `CoreState.NulRemains` | examples/coremark_v1.01/core_state.c:69-84 | two zeros at the end and a step of two or more leave a NUL in the block, so the second scan stops inside it |
| `CoreState.CoreBenchState` | examples/coremark_v1.01/core_state.c:43-99 | the block is swept twice and the CRC runs over the counters of both scans |
| `StateLaws.ReportedIs` | examples/coremark_v1.01/core_state.c:94-97 | the returned CRC is that of 512 bits: for START, INVALID, S1, S2, INT, FLOAT, EXPONENT and SCIENTIFIC in this order, 32 bits each for the calls that ended there and the transitions that left, lowest bit first |
| `CoreState.CoreInitState` | examples/coremark_v1.01/core_state.c:116-166 | as many items as leave two bytes free, then zeros: for size two or more at least two zeros at the end |
| `StateLaws.ItemsAre` | examples/coremark_v1.01/core_state.c:101-155 | which of eight seeds in a row give an integer, a float, a number in scientific notation or an invalid item, how long they are, and that every fourth scientific one is invalid, too |
| `CoreState.SciPatterns` | examples/coremark_v1.01/core_state.c:104-104 | three of the four scientific patterns are recognised as such; `-87e+832` lacks a point and is invalid |
| `CoreState.IntPatterns` | examples/coremark_v1.01/core_state.c:102-102 | the integer patterns are recognised as integers |
| `CoreState.FloatPatterns` | examples/coremark_v1.01/core_state.c:103-103 | the float patterns are recognised as floats |
| `PrintfDirective.IntegerDirective` | components/libc/vsnprintf.c:831-984 | any d, i, u, o, x or X directive with any flags, any width and precision, written or from an argument, and any length, for any argument: the call puts out the field ISO/IEC 9899:2011 section 7.21.6.1 asks for, of the argument's value in the type the length selects (8, 16, 32 or 64 bits, congruent to the argument and in range), exactly if sign, prefix and zero-extended digits fit 32 characters or only a space among spaces is lost, and, for a negative precision, the value is not zero (or octal with `#`) and no zero padding is due |
| `PrintfDirective.ValueIs` | components/libc/vsnprintf.c:949-981 | the value the engine takes the argument for is the one of the selected type that is congruent to it |
| `PrintfDirective.FieldIs` | components/libc/vsnprintf.c:304-401 | the field in the engine's words is the one read off the characters of the directive, digit by digit and flag by flag |
| `PrintfDirective.AmountsRead` | components/libc/vsnprintf.c:844-874 | a width or precision written as a decimal numeral, zeros before it or not, is that number mod 2^32; one from an argument is the argument as an `int` |
| `PrintfDirective.NegativePrecisionIff` | components/libc/vsnprintf.c:869-873 | a precision of zero in place of an omitted one makes the same field exactly if the value is not zero (or octal with `#`) and no zero padding is due |
| `PrintfDirective.NegativePrecisionLosesZero` | components/libc/vsnprintf.c:869-873 | `%.*d` of zero with a precision of -1 puts out nothing, where the standard asks for 0 |
| `PrintfField.FieldExactIff` | components/libc/vsnprintf.c:304-401 | the field built in the scratch buffer is the standard's under exactly that condition |
| `PrintfField.TooPrecise` | components/libc/vsnprintf.c:319-321 | a precision of 33 is already too much |
| `PrintfField.FinishedUnpadded` | components/libc/vsnprintf.c:304-366 | without zero padding the buffer ends up with the low 32 characters of the reversed body |
| `PrintfField.FinishedPadded` | components/libc/vsnprintf.c:304-366 | with zero padding, what is taken back is just what prefix and sign take up |
| `PrintfField.DigitsDenote` | components/libc/vsnprintf.c:373-398 | the digits denote the value and have no leading zero |
| `PrintfDirective.DirectiveReadBack` | components/libc/vsnprintf.c:831-909 | flags in any order and number, width, precision and length are read off the text of a directive and its arguments; a negative width argument is a `-` flag and a width, numbers are taken mod 2^32 |
| `PrintfFormat.Vsnprintf` | components/libc/vsnprintf.c:807-1093 | what is put out and the count, returned as an `int`, depend on format and arguments alone, not on the sink or the room; a buffer gets the first min(count, maxlen - 1) characters and a NUL with the rest untouched, and nothing if maxlen is 0; past 2^32 - 1 characters the places start over |
| `PrintfFormat.Put` | components/libc/vsnprintf.c:817-1079 | the loop over the format emits the rendering of the whole format to any sink |
| `PrintfFormat.ReadSpec` | components/libc/vsnprintf.c:831-909 | the scanner computes flags, width, precision, length, rest and remaining arguments |
| `PrintfFormat.Atoi` | components/libc/vsnprintf.c:264-271 | reads all digits, in 32 bits |
| `PrintfFormat.ConvertInteger` | components/libc/vsnprintf.c:919-981 | emits the integer field of base, flags and value; `ValueIs` and `FieldIs` say which value and which field that is |
| `PrintfFormat.BaseAndFlags` | components/libc/vsnprintf.c:919-947 | base and flags of an integer conversion: `#` dropped for decimals, `+` and space for unsigned ones, `0` with a precision |
| `PrintfFormat.Convert` | components/libc/vsnprintf.c:911-1077 | one conversion of any kind; exponential notation is taken from the argument |
| `PrintfCall.TextDirective` | components/libc/vsnprintf.c:1026-1053 | %s shows as many characters as the precision allows and all without one, padded; a negative precision from an argument shows none, which is right only for blanks within the width |
| `PrintfCall.NullDirective` | components/libc/vsnprintf.c:1028-1030 | a missing text shows as (null), with spaces unless `0` is asked for without `-` |
| `PrintfCall.CharDirective` | components/libc/vsnprintf.c:1006-1024 | %c shows the low eight bits of its argument, padded |
| `PrintfCall.PointerDirective` | components/libc/vsnprintf.c:1057-1066 | a pointer shows like %#010x whatever width is written, a null one as (nil) |
| `PrintfCall.PlainText` | components/libc/vsnprintf.c:817-825 | text without a percent sign stands for itself, before anything |
| `PrintfCall.PercentSign` | components/libc/vsnprintf.c:1068-1071 | two percent signs stand for one |
| `PrintfCall.OneByOne` | components/libc/vsnprintf.c:817-1079 | directives are taken one after the other, each with its own arguments |
| `PrintfWriter.Writer.Out` | components/libc/vsnprintf.c:219-242 | one character more in the stream; buffer, console and discard keep what they stand for |
| `PrintfWriter.Writer.Terminate` | components/libc/vsnprintf.c:1080-1085 | the NUL goes to the end or the last place, or nowhere if there is no room at all |
| `PrintfWriter.EndedOnce` | components/libc/vsnprintf.c:219-224 | as long as the 32-bit count does not start over, writing each character at its count leaves, place by place, the part that fits, a NUL, and what was there before |
| `PrintfWriter.Writer.OutRev` | components/libc/vsnprintf.c:275-299 | the scratch buffer backwards, padded on one side |
| `PrintfWriter.FinishBuffer` | components/libc/vsnprintf.c:306-366 | zeros, taking back, prefix and sign leave the specified scratch contents, width and flags |
| `PrintfWriter.PrintInteger` | components/libc/vsnprintf.c:373-401 | emits the integer field the specification builds |
| `PrintfComponents.RoundedIff` | components/libc/vsnprintf.c:424-631 | rounding and printing together, for every product the multiplication may yield: the numeral is the integral part and the product rounded half to even, exactly if the product is no tie behind zeros or nines only, and zeros of the caller have a point, or a zero integral part, before them |
| `PrintfComponents.NearestIff` | components/libc/vsnprintf.c:424-631 | for every double and every product the multiplication may yield: the numeral is the decimal of that many places nearest to the number, the even one of two, exactly if the product is no tie or a tie that goes to the number's side and is not behind nines only (from 2^52 on: if the product is that integer), and the caller's zeros do no harm |
| `PrintfComponents.KeepsIff` | components/libc/vsnprintf.c:430-448 | when the rounded product rounds like the exact one |
| `Doubles.ProductBelow` | components/libc/vsnprintf.c:429-430 | the product of the part of a double behind its point with 10^p stays below 10^p when it is rounded, for p from 1 to 17 |
| `Doubles.RestIsDouble` | components/libc/vsnprintf.c:429-433 | the part of a double behind its point is a double, so the subtractions are exact |
| `Doubles.NeverPasses` | components/libc/vsnprintf.c:430-430 | rounding a product never passes a double |
| `PrintfComponents.GetComponents` | components/libc/vsnprintf.c:424-459 | the two parts are those of the specification, for every double, every precision up to 17 and every product the multiplication may yield |
| `PrintfComponents.SplitUnits` | components/libc/vsnprintf.c:424-448 | the parts together are the integral part and the rounded product; the fraction has a digit too many exactly at a tie behind nines only |
| `PrintfComponents.NineTie` | components/libc/vsnprintf.c:430-448 | the double nearest 0.95 to one place: the product is 9.5, the parts are 0 and ten tenths |
| `PrintfComponents.FifteenTie` | components/libc/vsnprintf.c:430-448 | the double nearest 0.15 to one place: the product is 1.5, the parts are 0 and two tenths, though one is nearer |
| `PrintfComponents.ThreeTenths` | components/libc/vsnprintf.c:430-448 | the double nearest 0.3 to 17 places: the product is 3 * 10^16, one more than the nearest |
| `PrintfComponents.PrintDecimalNumber` | components/libc/vsnprintf.c:626-631 | a number is broken up and its numeral emitted as the field |
| `PrintfFloat.FixedNearestIff` | components/libc/vsnprintf.c:761-802 | %f with up to 49 places shows the nearest decimal of up to 17, with zeros for the rest, exactly if the product keeps to it |
| `PrintfCall.FixedDirective` | components/libc/vsnprintf.c:761-802 | any f or F directive of up to 49 places, for any number of up to 10^9: digits, point, digits with sign and padding as the flags ask for, exactly if they fit 32 characters or only a space among spaces is lost; the digits stand for the nearest decimal of up to 17 places exactly if the product keeps to it, and there are as many behind the point as asked for but at a tie behind nines |
| `PrintfCall.SixDigits` | components/libc/vsnprintf.c:785-788 | without a precision a number shows as with one of six |
| `PrintfCall.SpecialDirective` | components/libc/vsnprintf.c:766-772 | nan, inf, -inf and +inf, with spaces unless `0` is asked for without `-` |
| `PrintfCall.LargeDirective` | components/libc/vsnprintf.c:774-783 | above 10^9 fixed notation is left to the exponential one |
| `PrintfFloat.PrintFloatingPoint` | components/libc/vsnprintf.c:761-802 | what is no number, infinities, numbers too large for fixed notation, the default precision, and the number itself |
| `PrintfFloat.LimitPrecision` | components/libc/vsnprintf.c:790-794 | the loop puts out zeros for the digits above 17, up to 32 of them |
| `PrintfFloat.LimitedIff` | components/libc/vsnprintf.c:790-794 | what is left is at most 17 exactly if at most 49 digits were asked for |
| `PrintfFloat.AdaptedIff` | components/libc/vsnprintf.c:683-695 | %g goes beyond 17 digits exactly for a decimal exponent of at least -4 that the precision exceeds by more than 18 |
| `PrintfDecimal.DecimalValueIff` | components/libc/vsnprintf.c:544-598 | for any parts the numeral denotes integral + fractional / 10^precision exactly if the fraction has no more digits than the precision and the caller put no zeros behind the numeral, a point is shown, or the integral part is zero; a precision of zero leaves the fraction out |
| `PrintfDecimal.DecimalTextParts` | components/libc/vsnprintf.c:544-598 | the numeral is the part before the point, the point if one is shown, and the part behind it, the caller's zeros belonging to whatever they follow |
| `PrintfDecimal.ShownFraction` | components/libc/vsnprintf.c:544-581 | %f shows exactly `precision` digits of a fraction that has no more, %g none that is zero at the end |
| `PrintfDecimal.TooManyDigits` | components/libc/vsnprintf.c:566-581 | a fraction with a digit too many fills the buffer: the low 32 characters of zeros and digits, no point, no integral part, no sign |
| `PrintfDecimal.RoundedTie` | components/libc/vsnprintf.c:566-581 | ten tenths come out as thirty zeros and a 10 |
| `PrintfDecimal.TrailingZerosMultiply` | components/libc/vsnprintf.c:789-794 | the case where it does not: three zeros put behind the 1 that %.20g makes of 1.0 |
| `PrintfDecimal.DecimalExactIff` | components/libc/vsnprintf.c:600-622 | the field is sign, numeral and padding in full exactly if they fit the buffer, or only a space among spaces is lost |
| `PrintfDecimal.PrintBrokenUpDecimal` | components/libc/vsnprintf.c:540-623 | emits the low 32 characters of sign, zeros and numeral, padded, with the places counted in 32 bits |
| `PrintfDecimal.StrippedValue` | components/libc/vsnprintf.c:549-564 | the %g loop removes zeros only, all of them, counts a place for each, and keeps the value, whatever the fraction |
| `Shell.Shell.Feed` | components/shell/shell.c:632-823 | over every stream of bytes that never fills the line the shell simulates the simple editor of text, cursor and last five lines, and carries out the same command lines |
| `Shell.Shell.Handler` | components/shell/shell.c:632-823 | one byte is one step of the simple editor if and only if it does not take the last place in the line; if it does, the positions are reset over a full line |
| `Shell.StepKeeps` | components/shell/shell.c:632-823 | every step keeps cursor within text, text within the line, at most five non-empty history lines without immediate repeats, and the browse position within them |
| `Shell.RunKeeps` | components/shell/shell.c:632-823 | the same over whole runs |
| `Shell.RecalledOnce` | components/shell/shell.c:665-681 | Up and Enter on a recalled line leave the history as it was |
| `ShellKeys.TextTyped` | components/shell/shell.c:785-815 | printable bytes go in where the cursor is; into an empty line they are the line |
| `ShellKeys.TypedFits` | components/shell/shell.c:789-822 | typed text never takes the last place of the line exactly if it and what was there have at most 119 characters |
| `ShellKeys.TypedBefore` | components/shell/shell.c:702-718 | ESC [ D pressed k times, then text: it goes k places before where the cursor was |
| `ShellKeys.RightUndoesLeft` | components/shell/shell.c:702-718 | ESC [ C as often as ESC [ D leaves the editor as it was exactly if there was room, and the other way around |
| `ShellKeys.DeleteUndoesTyping` | components/shell/shell.c:741-770 | as many bytes 0x08 or 0x7F as characters were typed leave the editor as it was |
| `ShellKeys.UpKeys` | components/shell/shell.c:665-681 | ESC [ A pressed k times shows the k-th line before the one browsed to, or the oldest if there are not as many |
| `ShellKeys.DownUndoesUp` | components/shell/shell.c:665-701 | ESC [ B as often as ESC [ A ends at the entry browsed to, or the newest from the line being typed, and leaves everything as it was exactly if the line was that entry |
| `ShellKeys.LineEntered` | components/shell/shell.c:160-200 | return, line feed and interrupt make a new line the newest of at most five, but not an empty one or the newest once more, and clear it |
| `ShellKeys.UpBringsBack` | components/shell/shell.c:665-681 | a line that was entered comes back with ESC [ A, the cursor at its end |
| `ShellKeys.SessionHistory` | components/shell/shell.c:160-200 | after any lines typed one after the other the history is the last five of them, without empty ones and immediate repeats |
| `ShellKeys.TabCompletes` | components/shell/shell.c:725-738 | Tab makes of a line with matches the longest common prefix of all commands that extend it, and leaves any other |
| `ShellKeys.OthersIgnored` | components/shell/shell.c:720-787 | control bytes without a meaning and bytes from 0x80 on do nothing |
| `ShellKeys.EscapeDropped` | components/shell/shell.c:652-663 | an escape sequence that is none is dropped, and its last byte counts as if typed alone |
| `ShellKeys.CommandEntered` | components/shell/shell.c:578-630 | entering words and quoted strings with any blanks around them runs the command the first word names, with up to sixteen of them as arguments; nothing for a blank line, an error for an unknown word |
| `Shell.Shell.PushHistory` | components/shell/shell.c:160-200 | the last five lines without empty ones and without immediate repeats, compared over whole slots |
| `Shell.Shell.Recall` | components/shell/shell.c:675-681 | a slot becomes the line, with the cursor at its end |
| `Shell.Shell.ArrowKey` | components/shell/shell.c:662-718 | browsing and cursor movement |
| `Shell.Shell.InsertChar` | components/shell/shell.c:789-822 | a character goes in at the cursor and everything behind it moves up |
| `Shell.Shell.EraseChar` | components/shell/shell.c:741-770 | the character before the cursor goes and zeros follow the text |
| `Shell.Shell.Complete` | components/shell/shell.c:725-738 | the line becomes its completion, with the cursor at its end |
| `Shell.Shell.EndLine` | components/shell/shell.c:772-783 | the line goes into the history, is carried out and cleared |
| `Shell.Shell.Exec` | components/shell/shell.c:578-630 | the first word is looked up; a known command gets the arguments of the simple tokenizer |
| `ShellSplit.Split` | components/shell/shell.c:391-469 | the in-place scan ends with argument strings equal to the tokens of a simple recursive tokenizer, cut at sixteen, and changes nothing outside the line |
| `ShellSplit.SplitUndoesWriting` | components/shell/shell.c:391-469 | splitting undoes writing: words without blanks and strings in quotes, quotes in them behind a backslash, with any blanks and tabs around them, are the tokens of the line they make up |
| `ShellSplit.TakeArgument` | components/shell/shell.c:425-465 | one argument: a quoted string with its closing quote overwritten, or a word |
| `ShellComplete.CompletedIsLongestCommon` | components/shell/shell.c:352-385 | a line with matches becomes the longest common prefix of all commands that extend it, though only the first match is compared with the others |
| `ShellComplete.CompletedTwice` | components/shell/shell.c:318-389 | a second Tab changes nothing; a line without matches stays as it is |
| `ShellComplete.AutoComplete` | components/shell/shell.c:318-389 | the line buffer holds the completion and zeros |
| `ShellComplete.StrCommon` | components/shell/shell.c:141-151 | the length of the longest common front of two names |

## Left out

- PrintfFormat.Convert: what exponential notation puts out, for %e, %g and large %f, is taken from the argument.
- PrintfFormat.Put: the same.
- PrintfFormat.Vsnprintf: the same.
- Genromfs.FileNode.constructor: does not build the path from base and name; what reading the file will yield stands in its place.
- PrintfDirective.IntegerDirective: does not speak of %b, which the standard does not have.
- PrintfCall.PointerDirective: does not speak of a precision or of `+` and space flags, for which the standard defines nothing.
- Exponential notation: its decimal exponent comes from a series in `double` arithmetic and bit access.
- `vsnprintf_nano.c`: a smaller variant of the same engine.
- `core_matrix.c`: element-wise loops, of no influence on the list.
- Real file system calls, command line options and the verbose listing of genromfs.
- What the shell sends to the terminal, its prompt, colours and signals, and the running of commands.
- Completion of file names and execution of files: compiled in only with a file system.
- Drivers, RTOS glue, network components and the other tools: register access and thin wrappers.
