# Verified models of Lilu's self-contained algorithms

Lilu patches a running macOS kernel. Most of it talks to the kernel, but it carries algorithms that stand
on their own. This project models those in Dafny and proves what they are for. Each model takes the same
branches, constants and error paths as the code; where the code updates arrays, fields or memory in place,
so does the model, and its methods are proved against functions on values about which the lemmas speak.

`dafny verify dfyconfig.toml` checks everything.

| files | what they model |
|---|---|
| `LzssTree`, `LzssStrings`, `LzssSearch`, `LzssPromotion`, `LzssEncodeState` | the 256 search trees over the 4096-byte ring: shape, order, insertion, deletion, longest match |
| `LzssFormat`, `LzssDecoder`, `LzssCodeBuffer`, `LzssWindow`, `LzssMeaning`, `LzssEncoder`, `LzssRoundTrip`, `LzssTightness` | the LZSS stream, both codecs, their round trip, and a source that reaches the size bound |
| `LzssIndex`, `LzssGreedy` | that the encoder finds and sends the longest match the text has in the window |
| `CriticalFactorization`, `MaximalSuffix`, `TwoWaySearch`, `ByteWords`, `MemMem` | `memmem`: word tests, short windows, two-way search |
| `UmmHeap`, `UmmSteps`, `UmmBroken`, `UmmMalloc`, `UmmLayout` | `umm_malloc`: malloc, free and realloc on block chain and free list, and what an empty split does to them |
| `LzvnFormat`, `LzvnStream`, `LzvnResume`, `LzvnDecoder`, `LzvnEncoding` | the LZVN decoder with wide copies and saved state, and what it makes of a stream an encoder lays out |
| `Ordering`, `QSort` | Bentley and McIlroy's `qsort` |
| `ThreadLocal` | lock-free thread-specific slots under every interleaving |
| `Routes`, `RouteUndo`, `RouteRuns`, `RoutePatcher` | function routing: jump encodings, hook chains, when undoing them restores a function |
| `FindReplace` | masked find and replace |
| `NvramFormat`, `Nvram` | the layers of a stored value: LZSS, encryption, checksum |
| `BlockHash`, `Sha256`, `Sha256Example` | SHA-256 fed in pieces, and the standard's example |
| `PageLookup` | the page index of the user patcher |
| `Bytes`, `Optional` | shared types and words in memory |

## How the harder arguments go

**LZSS.** A tree invariant relates links, parents and string order to the set of nodes below each node, one
small predicate a clause. Insertion, replacement of an equal string, deletion of a leaf and promotion of a
predecessor each keep it. The encoder adds a window invariant: the live nodes are exactly recent positions,
and the byte about to be overwritten belongs to no live string. Reported matches are then true matches of
the text, the code buffer packs units that parse back, and the decoder's ring, whatever it starts with,
reproduces the text. The size bound is tight: from any reference the text before it repeats three bytes, so a
source without such a repetition is sent as literals only, whatever encoder sends it. That the encoder is greedy is
stated on the text alone. It rests on an index invariant: every position of the window has a live node with an equal
string, itself or one that has replaced it, and replacing a node keeps this.

**memmem.** The critical factorization theorem is proved for the split the code computes; each kind of
advance (last byte table, right mismatch, left mismatch with and without a remembered prefix) has its own
lemma that no match is skipped.

**umm_malloc.** Every primitive is a function on the four header and body fields. Health means a rising
chain inverted by `prev`, a circular free list that holds exactly the flagged blocks, and no free
neighbours. Every step says which live blocks keep their data.

**ThreadLocal.** That a set never fails with at most N threads rests on a counting invariant: at most
k - j of k threads hold slot j or a later one or are about to claim one.

**LZVN.** The interpreter has no destination limit, no wide copies and no fallback state. A byte that no
instruction gives a value is `Unset`, so the claims hold for every stream, and the streams that leave such a
byte are characterised exactly. From the encoder's side, a stream is a list of instructions with their literals and
one of five endings: the end of the stream, an instruction cut off anywhere, an undefined opcode, an end of stream with
too few bytes, a distance that reaches too far. For each the output of the decoder is given exactly.

## Where a property holds only under a condition

- A block count that does not fit 16 bits is truncated by `umm_blocks`: the count suffices exactly when it
  is below 65536 (`UmmMalloc.Blocks`, `UmmMalloc.CountIsCut`). A count of zero, which eight sizes in every 512 KB
  have (`UmmMalloc.ZeroCounts`), is special: an allocation that finds a free block then
  makes that block its own successor, and the links form no block chain any more (`UmmMalloc.Heap.MallocNoUnits`,
  `UmmMalloc.Heap.ReallocNoUnits`, `UmmBroken.EmptySplitBreaks`). `Malloc` and `Realloc` state all cases.
- Each LZSS unit is the longest match with a string that starts in the window, or a literal if that has less than three
  bytes, with one exception: of the strings before the text that consist of spaces only, just the first can be found,
  as `init_state` is followed by insertions from the last to the first, each of which replaces its equal
  (`LzssGreedy.Candidate`, `LzssGreedy.BestIsLongest`). There is a text in which a full match is missed for it
  (`LzssGreedy.BlankStringIsMissed`).
- LZVN output is fully determined exactly when no match-only opcode comes before the first distance
  (`LzvnStream.OutputIsDetermined`).
- An LZVN stream decoded in several calls ends as in one, unless a call broke off an instruction that later fails
  its distance check, or that fits and is followed by an undefined opcode or a cut end of stream: then each call
  falls back to its own start, and more output is kept. This is exact (`LzvnResume.CallResumes`), with a stream
  of four bytes that shows it (`LzvnResume.BrokenStreamKeepsMore`). Before an undefined opcode or a cut end of stream
  the last instruction is taken back, and one with a rejected distance is taken back with its literals
  (`LzvnEncoding.StreamIsRead`).
- A slotted jump reaches its slot exactly when the slot is within signed 32-bit reach, which the code does not
  check (`Routes.PointsToSlot`, `Routes.FarSlotIsMissed`).
- Undoing the routes of a function gives it its first bytes back exactly if none but the first has kept patches, and
  none has written behind the first (`RouteRuns.UndoIsExact`; the function starts with no jump of its own). A route
  keeps patches again when the jump before reads as none. For routes that work this is so exactly if that jump leads
  to address 0, in whatever form, so undo restores exactly if no route but the last leads to 0
  (`RouteRuns.WorkingRoutesAreUndone`, `RouteRuns.NullRouteIsNotUndone`). Behind a slot out of reach it is so exactly
  if the word the jump does go through is 0 (`RouteRuns.MissedSlotReads`). The forms fit over each other unless a slot
  lies a multiple of 4 GB behind its jump (`RouteRuns.PlannedFits`). `RouteUndo.RouteKeepsInv` and
  `RouteUndo.UndoneExactly` say the same of all functions together, after any routes.
- The buffer of `NVStorage::compress` has 1024 bytes more than the source, four of which the length word takes.
  That is enough for all sources of a length exactly up to 8160 bytes (`NvramFormat.SlackSuffices`); from 8161
  on there is a source for each length whose stream is written past the buffer (`NvramFormat.WitnessOverruns`).
- Thread-specific storage never refuses a value exactly when there are no more threads than slots
  (`ThreadLocal.SetSucceeds`, `ThreadLocal.SetCanFail`).
- The page index finds what a scan finds when an offset separates the stored pages. When none does, the code leaves
  offset 0 beside the column of the last word; it then finds what a scan finds for every page exactly if each
  page begins and ends with the same word, and no page before it ends with that word
  (`PageLookup.LookupIsScan`). Two equal pages with different first and last words are both missed
  (`PageLookup.TwinPagesAreMissed`). Pages that differ first in their last word make the code read past a page
  (`PageLookup.UserPatcher.LoadLookups`, `PageLookup.LastWordSeparates`).
- Find and replace rewrites matches of the original data, whatever the lengths: each search goes on behind what was
  written. It writes past the data exactly if a wanted match of the original has less room than the replacement needs,
  which takes a replacement longer than the pattern, and it never ends exactly if the replacement is empty, no count
  is given and there is a match beyond those skipped (`FindReplace.FindAndReplaceWithMask`,
  `FindReplace.PastDataIsExact`, `FindReplace.ForeverIsExact`). Both happen
  (`FindReplace.LongerReplacementOverruns`, `FindReplace.EmptyReplacementNeverEnds`).

## Model

| member | source | states |
|---|---|---|
| LzssTree.AttachRightKeepsTree | Lilu/Sources/kern_compression.cpp:202-209 | hanging a new right leaf keeps the trees parent-consistent, ordered and acyclic |
| LzssTree.AttachLeftKeepsTree | Lilu/Sources/kern_compression.cpp:210-217 | the same for a new left leaf |
| LzssTree.ReplaceKeepsTree | Lilu/Sources/kern_compression.cpp:229-238 | a node with an equal string takes over its place and the trees stay in order |
| LzssTree.DetachKeepsTree | Lilu/Sources/kern_compression.cpp:247-250 | a node with at most one child is unlinked and the trees stay in order |
| LzssPromotion.PromotionKeepsTree | Lilu/Sources/kern_compression.cpp:251-270 | the writes for a node with two children equal detaching its predecessor and replacing the node by it, which keeps the trees |
| LzssSearch.WalkDown | Lilu/Sources/kern_compression.cpp:201-228 | one comparison on the way down keeps every live string either searched or below the next node |
| LzssSearch.SearchedAll | Lilu/Sources/kern_compression.cpp:192-239 | when the walk ends, the best match is the longest over all live strings |
| LzssEncodeState.EncodeState.constructor | Lilu/Sources/kern_compression.cpp:171-182 | empty, well-formed trees and a ring of spaces |
| LzssEncodeState.EncodeState.CompareStrings | Lilu/Sources/kern_compression.cpp:219-222 | the number of shared bytes, and the order of the two strings |
| LzssEncodeState.EncodeState.InsertNode | Lilu/Sources/kern_compression.cpp:192-239 | keeps the trees, adds r (in place of an equal string) and reports the true longest match over all live strings |
| LzssEncodeState.EncodeState.DeleteNode | Lilu/Sources/kern_compression.cpp:242-271 | keeps the trees and removes exactly the given node |
| LzssWindow.WriteMissesLiveStrings | Lilu/Sources/kern_compression.cpp:346-360 | the ring byte about to be overwritten, and its mirror, belong to no live string |
| LzssWindow.TextChangeKeepsTree | Lilu/Sources/kern_compression.cpp:346-360 | changing bytes outside live strings keeps the trees |
| LzssWindow.MatchDecodes | Lilu/Sources/kern_compression.cpp:145-156 | a match the encoder reports decodes to the text that follows, overlap and wrap-around included |
| LzssFormat.ParsePack | Lilu/Sources/kern_compression.cpp:320-383 | units packed in groups of eight behind flag bytes, a partial last group included, parse back |
| LzssCodeBuffer.PackIsBounded | Lilu/Sources/kern_compression.cpp:320-383 | units that expand to n bytes pack into at most n + ceil(n / 8) |
| LzssCodeBuffer.PutLiteral | Lilu/Sources/kern_compression.cpp:324-327 | the code buffer then packs one more literal |
| LzssCodeBuffer.PutReference | Lilu/Sources/kern_compression.cpp:328-334 | the code buffer then packs one more reference, position in 12 bits and length in 4 |
| LzssCodeBuffer.Flush | Lilu/Sources/kern_compression.cpp:335-344 | the group reaches the destination unless there is no room |
| LzssDecoder.NextFlag | Lilu/Sources/kern_compression.cpp:136-139 | the flag word with its marker in the high byte yields the same bits as counting to eight |
| LzssDecoder.CopyMatch | Lilu/Sources/kern_compression.cpp:146-156 | a reference is copied byte by byte from the ring until the destination is full |
| LzssDecoder.DecompressLzss | Lilu/Sources/kern_compression.cpp:121-160 | for every stream the output is the meaning of its units, cut to the destination |
| LzssEncoder.Start | Lilu/Sources/kern_compression.cpp:287-319 | the look-ahead is loaded, the strings before it inserted, and the first match found |
| LzssEncoder.Advance | Lilu/Sources/kern_compression.cpp:345-374 | past the bytes just coded: strings leave and enter so that the live nodes are again exactly the window |
| LzssEncoder.CompressLzss | Lilu/Sources/kern_compression.cpp:273-391 | whatever becomes of it, the units sent are greedy: each the longest match the text has in the window, or a literal if that has under three bytes; a result is their packing, stands for the source, decodes to it whatever the decoder's ring starts with, within the size bound; it fails only when the units of a beginning of the source are too long, never at the bound |
| LzssGreedy.BestIsLongest | Lilu/Sources/kern_compression.cpp:192-239 | the match insert_node reports is the longest the text has at a position a match may start from, on the text alone |
| LzssGreedy.GreedyIsDetermined | Lilu/Sources/kern_compression.cpp:320-383 | the greedy law determines all units but for where a match is taken from |
| LzssGreedy.BlankStringIsMissed | Lilu/Sources/kern_compression.cpp:287-319 | a text with a full match right before its beginning, within reach, of which one byte less is found |
| LzssIndex.IndexTakes | Lilu/Sources/kern_compression.cpp:192-239 | after an insertion, also one that replaces an equal node, every position of the window has a live node with an equal string, one that is deleted no sooner |
| LzssIndex.IndexMoves | Lilu/Sources/kern_compression.cpp:345-374 | this still holds when the oldest node is deleted and a byte read in its place |
| LzssIndex.SpaceTakes | Lilu/Sources/kern_compression.cpp:306-313 | after each of the first insertions the only live string of spaces is the one just inserted |
| LzssTightness.ReferenceRepeats | Lilu/Sources/kern_compression.cpp:145-156 | three bytes that a reference yields whatever the ring starts with occur earlier in the text |
| LzssTightness.BoundIsReached | Lilu/Sources/kern_compression.cpp:320-383 | for every length there is a source all of whose streams have exactly the length of the bound |
| LzssRoundTrip.CompressThenDecompress | Lilu/Sources/kern_compression.cpp:121-160 | compressing and decompressing with the source length is the identity |
| ByteWords.WordTest | Lilu/Sources/kern_memmem.cpp:33-37 | the word expression is non-zero exactly if a byte of the word is zero |
| MemMem.MemChr | Lilu/Sources/kern_memmem.cpp:39-55 | the first occurrence of a byte, or none |
| MemMem.TwoByte | Lilu/Sources/kern_memmem.cpp:57-63 | the first occurrence of a two-byte needle |
| MemMem.ThreeByte | Lilu/Sources/kern_memmem.cpp:65-72 | the first occurrence of a three-byte needle |
| MemMem.FourByte | Lilu/Sources/kern_memmem.cpp:74-81 | the first occurrence of a four-byte needle |
| MemMem.Find | Lilu/Sources/kern_memmem.cpp:180-200 | for every haystack and needle the first occurrence, or none exactly if there is none |
| CriticalFactorization.CriticalFactorizationTheorem | Lilu/Sources/kern_memmem.cpp:98-136 | the split at the later of the two maximal suffixes is critical: a repetition there is a period of the needle |
| CriticalFactorization.NoRepetitionLeftOfMaximalSuffix | Lilu/Sources/kern_memmem.cpp:98-136 | no short repetition is centred left of where a maximal suffix starts |
| MaximalSuffix.Compute | Lilu/Sources/kern_memmem.cpp:98-134 | start and period of the maximal suffix in one byte order |
| TwoWaySearch.FillTables | Lilu/Sources/kern_memmem.cpp:92-96 | the byte set holds exactly the needle's bytes, the shift table their last positions |
| TwoWaySearch.Factorize | Lilu/Sources/kern_memmem.cpp:98-142 | a critical split, and either the needle's period with a prefix to remember or a shift no match can undercut |
| TwoWaySearch.SkipByLastByte | Lilu/Sources/kern_memmem.cpp:150-163 | aligning the last byte with its last place in the needle skips no match |
| TwoWaySearch.SkipRightMismatch | Lilu/Sources/kern_memmem.cpp:165-171 | a mismatch in the right half at k allows k - ms without skipping a match |
| TwoWaySearch.SkipFullRightHalf | Lilu/Sources/kern_memmem.cpp:172-176 | a mismatch in the left half allows a shift by the period |
| TwoWaySearch.SkipRememberedPrefix | Lilu/Sources/kern_memmem.cpp:153-158 | with a remembered prefix a short table shift is safely raised |
| TwoWaySearch.Search | Lilu/Sources/kern_memmem.cpp:86-178 | the two-way search returns the first occurrence, or none exactly if there is none, and ends |
| UmmMalloc.Blocks | umm_malloc/umm_malloc.c:129-151 | the least number of units for a size, truncated to 16 bits, and when that is enough |
| UmmMalloc.ZeroCounts | umm_malloc/umm_malloc.c:129-151 | exactly which sizes have a count of zero in 16 bits |
| UmmMalloc.DataFillsBlock | umm_malloc/umm_malloc.c:470-473 | the bytes an allocation returns start right behind the two links of the block and end where the next block starts |
| UmmHeap.SplitKeepsChain | umm_malloc/umm_malloc.c:162-171 | splitting a block keeps the chain rising and inverted by prev |
| UmmHeap.DisconnectKeepsHeap | umm_malloc/umm_malloc.c:175-184 | taking a block off the free list keeps the list exactly the flagged blocks |
| UmmHeap.MergeKeepsHealth | umm_malloc/umm_malloc.c:217-223 | merging a used block into the one below keeps the heap healthy |
| UmmSteps.PushStep | umm_malloc/umm_malloc.c:333-339 | pushing a block on the free list keeps health and all other blocks' data |
| UmmSteps.CarveStep | umm_malloc/umm_malloc.c:434-458 | taking the lower part of a free block keeps health and all live data |
| UmmMalloc.Heap.constructor | umm_malloc/umm_malloc.c:227-281 | one free block, nothing live |
| UmmMalloc.Heap.AssimilateUp | umm_malloc/umm_malloc.c:191-210 | a free block above joins c; live blocks and data are kept |
| UmmMalloc.Heap.Free | umm_malloc/umm_malloc.c:285-344 | exactly that block stops being live, the heap stays healthy, all other data is kept; NULL does nothing |
| UmmMalloc.Heap.FindBest | umm_malloc/umm_malloc.c:387-422 | a smallest sufficient free block, or none exactly if there is none |
| UmmMalloc.Heap.Malloc | umm_malloc/umm_malloc.c:348-474 | for every size: fails exactly for size 0 or when no free block has the units, then changing nothing; else a best-fit block of exactly that many units becomes live and all data is kept; a count of zero in 16 bits returns a best-fit block and leaves no chain, or unit 0 of a heap without free blocks |
| UmmMalloc.Heap.MallocNoUnits | umm_malloc/umm_malloc.c:434-458 | a count of zero units takes the smallest free block for ever: its own successor, on the free list and returned to the caller |
| UmmBroken.EmptySplitBreaks | umm_malloc/umm_malloc.c:162-171 | after splitting nothing off a block no set of block starts makes the links a chain |
| UmmMalloc.Heap.MoveDown | umm_malloc/umm_malloc.c:596-602 | links and data after moving a block down into the free one below |
| UmmMalloc.Heap.Shrink | umm_malloc/umm_malloc.c:629-633 | the block is cut to k units and the rest freed, its kept data unchanged |
| UmmMalloc.Heap.GrowInPlace | umm_malloc/umm_malloc.c:589-611 | up, down or both ways, in this order of preference: enough units, and the old data carried along |
| UmmMalloc.Heap.MoveToNew | umm_malloc/umm_malloc.c:612-626 | a best-fit block with the old data and the old one freed, or failure with nothing changed |
| UmmMalloc.Heap.Realloc | umm_malloc/umm_malloc.c:478-639 | for every size: success gives the units asked for with the data up to the smaller size, in place if the block with the free one above has them, else from the start of the free block below if that is enough, else in a best-fit block; failure happens exactly without room and changes nothing; no other live block is touched; a count of zero in 16 bits frees the block it returns and leaves no chain |
| UmmMalloc.Heap.ReallocNoUnits | umm_malloc/umm_malloc.c:629-633 | for a count of zero the block itself is split empty and freed, and no chain is left |
| UmmLayout.FreeingAllRestoresInitial | umm_malloc/umm_malloc.c:227-281 | a healthy heap with nothing live has exactly the links umm_init writes |
| UmmLayout.UnitsAreConserved | umm_malloc/umm_malloc.c:227-281 | block sizes add up to the units between unit 0 and the last |
| UmmLayout.NoFitMeansNoRun | umm_malloc/umm_malloc.c:387-459 | a request fails exactly when there are not that many units in a row outside live blocks |
| LzvnStream.OpcodesReadBack | lzvn/lzvn.c:147-180 | each documented bit layout is decoded to its lengths and distance, wherever it stands |
| LzvnFormat.CopiedAt | lzvn/lzvn.c:534-546 | a match repeats the byte D back, also where source and target overlap |
| LzvnStream.FreshCallRepresents | lzvn/lzvn.c:144-819 | a limited call gives a prefix of the interpreter's output, all of it at the end of the stream, which it reaches if there is room; without room the destination is filled |
| LzvnStream.OutputIsDetermined | lzvn/lzvn.c:593-643 | every output byte has a value exactly if no match-only opcode precedes the first distance |
| LzvnResume.CallResumes | lzvn/lzvn.c:181-205 | going on from the saved state with more room ends as one call would if and only if the instruction broken off does not fail behind the break; if it does, the two results differ |
| LzvnResume.BrokenStreamKeepsMore | lzvn/lzvn.c:181-205 | a stream of which one call keeps nothing and two calls keep a byte |
| LzvnResume.ManyCallsAreOne | lzvn/lzvn.c:181-205 | a stream one call decodes to its end gives the same state through any growing sequence of calls |
| LzvnDecoder.CopyWide | lzvn/lzvn.c:696-702 | eight-byte stores write the literal and change nothing before it or past the destination end |
| LzvnDecoder.RepeatWide | lzvn/lzvn.c:546-553 | eight-byte copies from at least eight back equal the byte-by-byte copy |
| LzvnDecoder.DecoderState.CopyLiteralAndMatch | lzvn/lzvn.c:488-577 | the shared copy routine does what the limited interpreter does, with its distance check and saved state |
| LzvnDecoder.DecoderState.CopyLiteral | lzvn/lzvn.c:688-735 | the same for literals |
| LzvnDecoder.DecoderState.Resume | lzvn/lzvn.c:193-205 | a saved instruction is continued as the limited interpreter continues it |
| LzvnDecoder.DecoderState.Decode | lzvn/lzvn.c:144-819 | one call leaves exactly the specified state, writes nothing past the destination end, and ends |
| LzvnDecoder.DecodeBuffer | lzvn/lzvn.c:821-841 | the returned bytes are a prefix of what the stream emits: all of it for a complete stream with enough room, as much as there is room for if there is not enough, and else what one call keeps |
| LzvnEncoding.OpcodeClasses | lzvn/lzvn.c:738-810 | exactly which opcodes are undefined, do nothing, or end the stream |
| LzvnEncoding.StreamIsRead | lzvn/lzvn.c:144-819 | every list of instructions with their literals, nops among them, laid out one after the other, is decoded to what it means; behind it the stream may end, be cut off anywhere, or hold an undefined opcode, a cut end of stream or a distance too far, and for each it is said what is kept |
| LzvnEncoding.DecodeStream | lzvn/lzvn.c:821-841 | the bytes and the count returned for each such stream and each destination size |
| QSort.Sink | Lilu/Sources/kern_qsort.cpp:134-137 | one insertion keeps the range a permutation and extends the sorted part |
| QSort.Med3 | Lilu/Sources/kern_qsort.cpp:115-121 | one of the three, and a median under a total preorder |
| QSort.Partition | Lilu/Sources/kern_qsort.cpp:153-179 | equal, smaller, larger, equal around the pivot, nothing unknown left, by permutation |
| QSort.Gather | Lilu/Sources/kern_qsort.cpp:188-192 | two block exchanges leave smaller, equal and larger elements in this order |
| QSort.Pass | Lilu/Sources/kern_qsort.cpp:131-200 | one pass makes a prefix final and leaves a strictly smaller rest |
| QSort.QSort | Lilu/Sources/kern_qsort.cpp:123-201 | for any comparator a permutation that ends; sorted when the comparator is a total preorder |
| ThreadLocal.RunIsInv | Lilu/Headers/kern_util.hpp:666-758 | under every interleaving each thread has at most one slot, and it holds the thread's value |
| ThreadLocal.OnlyTheOwnerTouches | Lilu/Headers/kern_util.hpp:701-758 | a step changes a value only in a slot its thread holds |
| ThreadLocal.GetIsRight | Lilu/Headers/kern_util.hpp:729-737 | get yields the last value set and not erased since, or null if there is none |
| ThreadLocal.SlotStays | Lilu/Headers/kern_util.hpp:729-737 | the slot get returned keeps its value while other threads move |
| ThreadLocal.EraseIsRight | Lilu/Headers/kern_util.hpp:744-757 | erase reports whether there was a value, and none is left |
| ThreadLocal.SetSucceeds | Lilu/Headers/kern_util.hpp:663-726 | with no more threads than slots every set succeeds in every run |
| ThreadLocal.SetCanFail | Lilu/Headers/kern_util.hpp:701-726 | with more threads than slots some run makes a set fail |
| Routes.RouteIsReadBack | Lilu/Sources/kern_patcher.cpp:759-779 | readChain decodes each of the three jumps to the routed target |
| Routes.PointsToSlot | Lilu/Sources/kern_patcher.cpp:461-468 | a slotted jump goes through its slot exactly if the slot is in reach |
| Routes.FarSlotIsMissed | Lilu/Sources/kern_patcher.cpp:461-468 | a slot out of reach exists in every memory beyond two gigabytes, and the jump misses it |
| RouteUndo.PatchesRestore | Lilu/PrivateHeaders/kern_patcher.hpp:59-75 | undoing the patches of a route restores the bytes recorded, whatever was written since |
| RouteUndo.RouteKeepsInv | Lilu/Sources/kern_patcher.cpp:390-563 | every route, wherever it leads, keeps all functions whose last route works leading to their targets, those whose first patches alone were kept restorable, and those with patches kept again spoilt |
| RouteUndo.UndoneExactly | Lilu/Sources/kern_patcher.cpp:69-80 | after any routes of any functions, undoing all patches gives a function its first bytes back exactly if none were kept for it a second time |
| RouteRuns.UndoIsExact | Lilu/Sources/kern_patcher.cpp:415-440 | for every run of routes of one function, undo restores it exactly if no later route found it to read as no jump and nothing new stands behind the first code |
| RouteRuns.WorkingRoutesAreUndone | Lilu/Sources/kern_patcher.cpp:415-440 | routes that work are undone exactly if none but the last leads to address 0 |
| RouteRuns.MissedSlotReads | Lilu/Sources/kern_patcher.cpp:759-779 | a jump whose slot is out of reach keeps patches again exactly if the word it goes through is 0 |
| RouteRuns.PlannedFits | Lilu/Sources/kern_patcher.cpp:415-440 | the form chosen behind a jump that is read is no longer than that jump, unless its argument is 0 |
| RouteRuns.NullRouteIsNotUndone | Lilu/Sources/kern_patcher.cpp:390-563 | a route to address 0, in any form that works, and any other behind it: undoing does not restore the function |
| RoutePatcher.KernelPatcher.GetAddressSlot | Lilu/Sources/kern_mach.cpp:910-917 | the next slot, and none exactly if none is left |
| RoutePatcher.KernelPatcher.Install | Lilu/Sources/kern_patcher.cpp:516-538 | atomic and split stores leave the same memory |
| RoutePatcher.KernelPatcher.Plan | Lilu/Sources/kern_patcher.cpp:390-448 | exactly when the route fails, panics or goes through, from what is asked for, what the function starts with and whether a slot is left; which form it takes; the previous target or the trampoline becomes the original; memory stays as it is |
| RoutePatcher.KernelPatcher.RouteFunction | Lilu/Sources/kern_patcher.cpp:390-563 | the same outcome and form, and memory, patches, hooks and slots in every case, the state staying in order; unless the slot is out of reach the function then leads to the new target; behind a working route not to 0 what undo does stays the same |
| RoutePatcher.FormFits | Lilu/Sources/kern_patcher.cpp:415-440 | over a jump the form chosen is no longer than that jump, and a short form is in reach |
| RoutePatcher.RouteInTurn | Lilu/Sources/kern_patcher.cpp:390-563 | any number of wrapped long routes of one function, with slots in reach for all or with none, all go through, and each wrapper receives the target of the route before |
| RoutePatcher.KernelPatcher.Deinit | Lilu/Sources/kern_patcher.cpp:69-80 | a function for which patches were kept has its first bytes again exactly if they were not kept a second time |
| FindReplace.FindPattern | Lilu/Sources/kern_patcher.cpp:605-649 | the first masked match at or after the offset, or none |
| FindReplace.RewrittenIsPatched | Lilu/Sources/kern_patcher.cpp:677-692 | at each chosen match the data is the replacement without a mask; with one the masked bits are the replacement's, the others the original's, no further than the pattern is long; all bytes elsewhere are the original's |
| FindReplace.MatchMeans | Lilu/Sources/kern_patcher.cpp:605-649 | a match has the bytes of the pattern, each after its mask if there are masks |
| FindReplace.FindAndReplaceWithMask | Lilu/Sources/kern_patcher.cpp:651-705 | for any two lengths, the matches of the original data from skip on, count of them or all, are rewritten byte by byte as the masks say, and nothing else; going past the data and never ending happen exactly under conditions on the original data |
| FindReplace.NextHit | Lilu/Sources/kern_patcher.cpp:651-705 | a search behind all that was rewritten finds what it would find in the original data, for any two lengths |
| FindReplace.ProgressHit | Lilu/Sources/kern_patcher.cpp:677-692 | one more match patched: the data is the original with exactly the chosen matches rewritten |
| FindReplace.PastDataIsExact | Lilu/Sources/kern_patcher.cpp:677-692 | the run ends before a write past the data exactly if a wanted match of the original data has too little room |
| FindReplace.ForeverIsExact | Lilu/Sources/kern_patcher.cpp:661-702 | the run never ends exactly for an empty replacement, no count and a match beyond those skipped |
| FindReplace.LongerReplacementOverruns | Lilu/Sources/kern_patcher.cpp:677-692 | two bytes for the only one of the data go past it |
| FindReplace.ForeverRepeats | Lilu/Sources/kern_patcher.cpp:661-702 | an empty replacement brings the loop back to the same data and offset |
| FindReplace.HitsAreUnique | Lilu/Sources/kern_patcher.cpp:651-705 | the list of matches is determined by the data, skip and the lengths |
| FindReplace.OnlyMaskedBitsChange | Lilu/Sources/kern_patcher.cpp:681-686 | bits outside the replacement mask stay, those inside become the replacement's |
| NvramFormat.StoredIsLoaded | Lilu/Sources/kern_nvram.cpp:43-226 | a stored value is read back exactly when the reader asks for no option the writer did not use |
| NvramFormat.LoadedExactly | Lilu/Sources/kern_nvram.cpp:43-136 | for arbitrary stored bytes, what is accepted and read, byte by byte |
| NvramFormat.WrongChecksumIsRejected | Lilu/Sources/kern_nvram.cpp:94-99 | bytes with the checksum bit whose last word is not the checksum of the rest are never read |
| NvramFormat.DecryptedIsInverse | Lilu/Sources/kern_crypto.cpp:35-146 | framing and padding are undone, given that block decryption inverts encryption |
| NvramFormat.SlackSuffices | Lilu/Sources/kern_nvram.cpp:290-302 | over all sources of a length and all streams that may be sent for them, the fixed slack less the length word suffices exactly up to 8160 bytes |
| NvramFormat.WitnessOverruns | Lilu/Sources/kern_nvram.cpp:290-302 | from 8161 bytes on there is a source whose every stream is written past the buffer |
| Nvram.Compress | Lilu/Sources/kern_nvram.cpp:290-313 | a length word and a stream that decodes to the source; overrun exactly if the stream sent is longer than the 32-bit buffer size leaves behind the length word, never up to 8160 bytes; without it no failure but for memory and the empty source |
| Nvram.Decompress | Lilu/Sources/kern_nvram.cpp:315-340 | the source of the stream, rejected unless it has the stated length |
| Nvram.Encrypt | Lilu/Sources/kern_crypto.cpp:35-97 | the encrypted frame, and nothing exactly without key, data or memory |
| Nvram.Decrypt | Lilu/Sources/kern_crypto.cpp:99-146 | the framed data, with every rejection |
| Nvram.NVStorage.Write | Lilu/Sources/kern_nvram.cpp:149-226 | succeeds exactly if the options are accepted, there is data, the buffer is not overrun and, unless raw, there is a key if one is needed and memory for each stage; a success stores a form of the value under exactly those options, other entries stay; writing past the buffer is reported and happens only above 8160 bytes |
| Nvram.NVStorage.Read | Lilu/Sources/kern_nvram.cpp:43-136 | a value exactly if the stored bytes have the magic, a known version, all options asked for, a right checksum if there is one, and well-formed layers, and then what the layers hold; raw, the entry itself |
| Nvram.WriteThenRead | Lilu/Sources/kern_nvram.cpp:43-226 | write and read are inverse for every combination of options whenever the buffer is not overrun |
| BlockHash.Context.Update | sha256/sha256.c:98-111 | the context has absorbed the piece as well |
| BlockHash.Context.Final | sha256/sha256.c:113-142 | the hash value is the chain over the padded concatenation |
| BlockHash.PaddedLong | sha256/sha256.c:125-131 | the two-block ending is the standard's padding |
| Sha256.Transform | sha256/sha256.c:43-82 | the block computation of section 6.2.2 of FIPS 180-4 |
| Sha256.Hash | sha256/sha256.c:84-157 | any sequence of pieces gives the SHA-256 of their concatenation |
| Sha256Example.AbcDigest | sha256/sha256.c:25-82 | the digest the standard gives for its one-block example |
| PageLookup.UserPatcher.LoadLookups | Lilu/Sources/kern_user.cpp:975-1043 | finds the first separating offset if there is one, leaves the columns of the three offsets that follow it as stated whether or not, and stays in range exactly unless the pages differ first in their last word |
| PageLookup.LastWordSeparates | Lilu/Sources/kern_user.cpp:975-1043 | two pages that differ first in their last word |
| PageLookup.UserPatcher.FindPage | Lilu/Sources/kern_user.cpp:166-200 | with any offsets and columns, the four words and the final comparison choose the first page whose first column has that word, if it is the page |
| PageLookup.LookupIsScan | Lilu/Sources/kern_user.cpp:166-200 | for every state loadLookups leaves, the index finds for all pages what a scan finds if and only if an offset separates the pages or their edges identify them |
| PageLookup.TwinPagesAreMissed | Lilu/Sources/kern_user.cpp:1007-1020 | two equal pages whose first and last word differ are stored, and a scan finds them, but the index finds neither |

## Left out

- Pointers are indices or offsets; memory is little-endian; allocation is a Boolean the caller gives.
- LzssEncoder.CompressLzss: the 16-byte code buffer and pointer differences are indices, and the 32-bit `int` positions are unbounded.
- TwoWaySearch.Search: the `size_t` start value -1 of the suffix scan is modelled by the index one higher.
- UmmMalloc.Heap.Malloc: `umm_heap == NULL` and the call to umm_init it makes are the constructor; calls after a count of zero units has broken the chain.
- UmmMalloc.Heap.Realloc: the data of a block is moved by unit and field, all whole units of it, not cut at the last byte.
- UmmMalloc: heaps of 3 to 0x7FFE units and the best-fit build; first fit, umm_info, umm_calloc and the critical sections are not modelled.
- LzvnDecoder.DecoderState.Decode: the 32-bit `lzvn_offset` of 32-bit machines is unbounded.
- QSort.QSort: elements are exchanged whole; element size, the swap by words or bytes and the 32-bit `int` of byte counts are not modelled.
- ThreadLocal: steps are sequentially consistent; deinit, which is not synchronised, is not modelled.
- RoutePatcher.KernelPatcher.RouteFunction: 64-bit machines; one MachInfo; trampolines are an address given by the caller, not built; write protection always toggles; failures to store patches and eraseCoverageInstPrefix are not modelled.
- FindReplace.FindAndReplaceWithMask: write protection always toggles; the model stops where a replacement would go past the data.
- Nvram.Compress: the model stops where the length word or the stream goes past the buffer.
- Nvram.NVStorage.Write: sizes within 2048 of 2^32, where the 32-bit sums of `Crypto::encrypt` and of the header wrap around, are excluded; `Nvram.Encrypt` excludes those within 32 of it, `Nvram.WriteThenRead` what Write excludes. `Nvram.Compress` covers them all.
- Nvram.NVStorage.Read: the block cipher and CRC32 are functions that keep the promises of `NvramFormat.Sound`; zlib, prelinked kernels and the property tree itself are not modelled.
- Nvram.WriteThenRead: raw values are not part of it; a reader that asks for the sensitive bit is always refused, since the header never stores it.
- BlockHash.Context.Flush: the context is given its block function as a value; that sha256_transform computes that function is `Sha256.Transform`.
- BlockHash.Context.Final: total length below 2^61 bytes, as the standard requires, and pieces below 2^32 bytes, past which the code's counter does not end.
- PageLookup.UserPatcher.LoadLookups: the model stops where the code reads past a page; applying the patches of a found page is not modelled.
- IOKit, Mach-O loading, EFI and RTC access, policies, disassembly, AES, the circular buffer, containers and number helpers: foreign calls or easy members.
