# CelOS kernel: verified model

A Dafny model of five parts of the CelOS kernel, with proofs of what each is for:

- **Inflate** (`kernel/src/include/ssfn.h:449-763`). The decoder's bit reader, Huffman tables and block parsers are
  proved against a reference inflate that only knows bit positions of the stream (RFC 1951).
  Files: `Bits`, `BitStream`, `BitReversal`, `Canonical`, `HuffmanTable`, `BitReader`, `InflateSpec`, `InflateTables`,
  `Inflate`, `StoredBlocks`, `CompressedBlocks`.
- **Paging** (`pmm.c`, `vmm.c`, `mmu.c`). Memory maps a table frame to its 512 words, and a ghost map gives every usable
  frame one owner. The radix walk refines a flat map from page keys to leaf words; ownership and sharing are kept over
  every run. Files: `PageTable`, `PhysPages`, `Regions`, `Ownership`, `VirtMem`, `Runs`,
  `RegionRuns`.
- **Heap** (`alloc.c`). The headers in memory are read as a chain of blocks that tiles its pool.
  Files: `HeapBlocks`, `Heap`, `HeapRuns`, `HeapCases`.
- **Scheduler** (`sched.c`, `list.c`, `smp.c:21-44`). The linked queues are proved against a value-level scheduler, about
  which fairness, priorities and context preservation are proved for every interleaving. Files: `SchedSpec`, `Sched`.
- **Formatted output** (`printf.c`, integer and string conversions). `vsnprintf_` is a bounded view of an unbounded
  rendering; integer fields have the shape their flags ask for and read back as the argument, and formats written from
  their parts render to them. Files: `PrintfSpec`, `Printf`, `PrintfDigits`, `PrintfFields`, `PrintfHash`,
  `PrintfFormats`.

Code that updates fields or arrays in place is a class or a method with loops; its contract ties the new state to a
specification function or predicate, and the properties are proved of that. Addresses are natural numbers, 0 is NULL, and
`HIGHER_HALF`/`PHYSICAL` are the identity. Values that come from elsewhere are parameters: the boot memory map, the
input bytes, what the memory of an output buffer holds, the memory a pool gets from the page allocator, a task's stack,
page map and unset registers, and the registers found by an interrupt.

Places where the code does not do what its name or comment promises are stated as such: `MmVirtFindRegion` returns an old
region when it fills a gap (`Regions.FreshIffAppended`), a lookup keeps flag bits above bit 11
(`PageTable.TranslationRoundTrip`), a split forgets the old successor's back link (`HeapBlocks.TakenLinks`) and does not
ask for room for a header (`HeapBlocks.TakenTiles`), a free does not add to `FreeSize` what it frees
(`HeapBlocks.FreeSizeDrift`), an allocation in a gap loses a frame (`RegionRuns.LoseFrame`), zeros beyond 32
characters stop short and drop the sign (`PrintfDigits.FieldLength`, `PrintfDigits.IntegerReadsBack`), `%b` drops digits
beyond 32 (`PrintfFields.BinaryReadsBack`), and the `#` flag drops digits that fill the width
(`PrintfHash.HashReadsBack`).

## Model

| member | source | states |
|---|---|---|
| `BitReversal.BitReverse16Correct` | kernel/src/include/ssfn.h:466-473 | the four mask-and-shift stages put bit i of a 16-bit number at bit 15 - i |
| `BitReversal.BitReverseCorrect` | kernel/src/include/ssfn.h:475-478 | reversing and shifting gives the reversal of the low `bits` bits, whatever lies above them |
| `Canonical.KraftIffCodesFit` | kernel/src/include/ssfn.h:490-504 | every length's codes fit below the next power of two exactly when the lengths satisfy the Kraft inequality |
| `Canonical.PrefixFree` | kernel/src/include/ssfn.h:494-520 | under the Kraft inequality no symbol's canonical code is a prefix of another's |
| `Canonical.CodeOrder` | kernel/src/include/ssfn.h:494-520 | in (length, symbol) order each canonical code, extended by any bits, comes before every later code |
| `Canonical.SlotOrder` | kernel/src/include/ssfn.h:506-513 | the slots of the symbol lists are in (length, symbol) order, so different symbols get different slots |
| `Canonical.SlotBound` | kernel/src/include/ssfn.h:506-513 | a used symbol's slot is below the number of symbols: the lists are never overrun |
| `Canonical.LimitMono` | kernel/src/include/ssfn.h:494-505 | the left-aligned limits of the lengths never decrease |
| `Canonical.MatchOfLength` | kernel/src/include/ssfn.h:562-574 | some code of length s is next in the stream exactly when the next s bits lie between that length's first code and limit |
| `Canonical.MatchUpTo` | kernel/src/include/ssfn.h:566-568 | no code of at most t bits is next exactly when the next t bits are at or above that length's limit |
| `Canonical.MatchUnique` | kernel/src/include/ssfn.h:576-588 | at most one symbol's code is next in the stream |
| `Canonical.DecodeIffMatches` | kernel/src/include/ssfn.h:576-588 | the reference decoding of a position is a symbol exactly when that symbol's code is next |
| `HuffmanTable.Huffman.CountSizes` | kernel/src/include/ssfn.h:485-489 | counts how many symbols have each length |
| `HuffmanTable.Huffman.FirstCodes` | kernel/src/include/ssfn.h:493-505 | fails exactly when the Kraft inequality fails; otherwise the rows hold every length's first code, first slot and left-aligned limit |
| `HuffmanTable.Huffman.FillFast` | kernel/src/include/ssfn.h:513-519 | writes exactly the fast entries congruent to the reversed code |
| `HuffmanTable.Huffman.PlaceSymbol` | kernel/src/include/ssfn.h:507-513 | enters a symbol at its slot without disturbing earlier symbols |
| `HuffmanTable.Huffman.PlaceFast` | kernel/src/include/ssfn.h:513-519 | enters a short code so that each fast entry still names the one short code its index starts with |
| `HuffmanTable.Huffman.Build` | kernel/src/include/ssfn.h:480-524 | succeeds exactly on length lists that satisfy the Kraft inequality, and then all tables represent the canonical code |
| `HuffmanTable.FastUnique` | kernel/src/include/ssfn.h:513-519 | nine bits start with at most one short code |
| `BitReader.Reader.FillBits` | kernel/src/include/ssfn.h:544-550 | more than 24 bits are buffered, the buffer is still the next bits of the stream, and the position is unchanged |
| `BitReader.Reader.Receive` | kernel/src/include/ssfn.h:552-560 | returns the next n bits, first bit lowest, and advances by n |
| `BitReader.Reader.AlignToByte` | kernel/src/include/ssfn.h:696-697 | advances to the next byte boundary; whole bytes stay buffered |
| `BitReader.AppendByte` | kernel/src/include/ssfn.h:547 | or-ing a byte in above the buffered bits appends eight bits of the stream, losing none to the 32-bit width |
| `BitReader.FastTableExact` | kernel/src/include/ssfn.h:580-586 | the fast table answers exactly when a code of at most nine bits is next, and with that symbol |
| `BitReader.FastMiss` | kernel/src/include/ssfn.h:580-587 | a miss means the next nine bits are above the limit of length 9, which is where the slow path starts |
| `BitReader.Reader.FindLongCode` | kernel/src/include/ssfn.h:562-573 | the slow path finds the one longer code that is next, or reaches length 16 exactly when no code is |
| `BitReader.Reader.HuffmanDecode` | kernel/src/include/ssfn.h:576-588 | returns the symbol whose code is next and consumes exactly its length; -1 exactly when no code is next |
| `InflateSpec.CopiedFromBefore` | kernel/src/include/ssfn.h:639-641 | every byte of a match equals the byte dist places before it, overlapping or not |
| `InflateSpec.FixedLengthsComplete` | kernel/src/include/ssfn.h:718-725 | the fixed literal/length code uses up the code space exactly |
| `InflateSpec.FixedDistancesComplete` | kernel/src/include/ssfn.h:727 | so does the fixed distance code |
| `InflateSpec.WholeHeader` | kernel/src/include/ssfn.h:600 | when no token straddles byte 8 of the output, the header that the buffer grows by is the output's own first eight bytes |
| `InflateTables.LengthExtras` | kernel/src/include/ssfn.h:610 | a length symbol has no extra bits below 265 and for 285, and otherwise one more bit for every four symbols |
| `InflateTables.LengthRanges` | kernel/src/include/ssfn.h:609-610 | the lengths start at 3, each symbol's range starts where the one before it ends, and the last symbol means 258 |
| `InflateTables.LengthMeans` | kernel/src/include/ssfn.h:628-629 | every length symbol with its extra bits means a length of 3 to 258 |
| `InflateTables.EveryLength` | kernel/src/include/ssfn.h:609-629 | every length of 3 to 258 is said by some symbol and extra bits |
| `InflateTables.DistanceExtras` | kernel/src/include/ssfn.h:612 | a distance symbol has no extra bits below 4, and then one more bit for every two symbols |
| `InflateTables.DistanceRanges` | kernel/src/include/ssfn.h:611-612 | the distances start at 1, each symbol's range starts where the one before it ends, and the last range ends at 32768 |
| `InflateTables.DistanceMeans` | kernel/src/include/ssfn.h:631-633 | every distance symbol with its extra bits means a distance of 1 to 32768 |
| `InflateTables.EveryDistance` | kernel/src/include/ssfn.h:611-633 | every distance of 1 to 32768 is said by some symbol and extra bits |
| `InflateTables.LengthOrder` | kernel/src/include/ssfn.h:648-662 | the lengths of the code-length code come in the order 16, 17, 18, 0, 8, and then alternately below and above 8 |
| `InflateTables.FixedCodes` | kernel/src/include/ssfn.h:718-725 | the canonical code of the fixed lengths is the table of RFC 1951, section 3.2.6: 00110000 to 10111111, 110010000 to 111111111, 0000000 to 0010111 and 11000000 to 11000111 |
| `InflateTables.FixedDistanceCodes` | kernel/src/include/ssfn.h:727 | the fixed distance code of a symbol is its five-bit number |
| `InflateTables.SizeDeclared` | kernel/src/include/ssfn.h:599 | a font declares a size exactly when its bytes 4 to 7 are that size, lowest byte first |
| `InflateTables.MagicBytes` | kernel/src/include/ssfn.h:599 | a buffer holds a font header exactly when it starts with S, F and N |
| `Inflate.InitDefaults` | kernel/src/include/ssfn.h:719-728 | the default length arrays are the fixed codes of the standard |
| `Inflate.Decoder.Expand` | kernel/src/include/ssfn.h:590-607 | grows the buffer exactly when it still has eight bytes and these hold a font header, to the size declared there, keeping the output; a header whose end is not written yet is completed by what the memory held |
| `Inflate.Decoder.CopyMatch` | kernel/src/include/ssfn.h:639-641 | the dist == 1 loop and the general loop append the reference copy; at distance 0 the memory is left as it is |
| `Inflate.Decoder.NextItem` | kernel/src/include/ssfn.h:618-633 | reads exactly the item the reference reads, reserved symbols included, and stops where it stops |
| `Inflate.Decoder.ParseHuffmanBlock` | kernel/src/include/ssfn.h:614-644 | succeeds exactly when the reference block ends and its output can be stored, with that output and position, wherever tokens begin and end |
| `Inflate.Decoder.ReadHeader` | kernel/src/include/ssfn.h:698-705 | the four header bytes are the stream's next four, partly from the buffer and partly from memory, leaving the buffer empty |
| `Inflate.Decoder.ParseUncompressedBlock` | kernel/src/include/ssfn.h:692-716 | succeeds exactly when the reference stored block does, with its output and position |
| `Inflate.Decoder.ExpandLengths` | kernel/src/include/ssfn.h:666-686 | the list is the reference expansion of symbols 16, 17 and 18; fails exactly when that fails; writes nothing past hlit + hdist |
| `Inflate.Decoder.ComputeHuffmanCodes` | kernel/src/include/ssfn.h:646-690 | builds tables for exactly the two codes the reference reads, or fails exactly when it does |
| `Inflate.Decoder.ParseBlock` | kernel/src/include/ssfn.h:738-748 | each kind of block agrees with the reference block |
| `Inflate.Decoder.ParseZlib` | kernel/src/include/ssfn.h:730-751 | the whole stream, any mix of blocks, agrees with the reference inflate |
| `Inflate.ZlibDecode` | kernel/src/include/ssfn.h:753-762 | succeeds exactly when the stream is valid and its output fits 8 bytes or the buffer holds a font header when it must grow, and returns the inflated bytes |
| `StoredBlocks.InflateStored` | kernel/src/include/ssfn.h:692-716 | data written as any sequence of stored blocks inflates to the data, and no token straddles byte 8 exactly when the data ends before or some block ends there |
| `StoredBlocks.RoundTrip` | kernel/src/include/ssfn.h:753-762 | however a font is cut into stored blocks, if one ends after its eight-byte header the decoder returns the font |
| `StoredBlocks.EncodeThenDecode` | kernel/src/include/ssfn.h:753-762 | every font, of any length, has such an encoding and is decoded to itself |
| `CompressedBlocks.TokenRead` | kernel/src/include/ssfn.h:618-633 | a literal or match written with the codes of any two Kraft lists, and its extra bits, is read as that literal or match |
| `CompressedBlocks.BodyRead` | kernel/src/include/ssfn.h:614-644 | for any two codes, what is written for any literals and matches reads back as what they stand for |
| `CompressedBlocks.EveryMatch` | kernel/src/include/ssfn.h:609-633 | the fixed codes can say every match: any length of 3 to 258 from any distance of 1 to 32768 |
| `CompressedBlocks.SaidMatch` | kernel/src/include/ssfn.h:609-633 | with any codes, a match that no reserved symbol says has a length of 3 to 258 and a distance of 1 to 32768 |
| `CompressedBlocks.RunsRead` | kernel/src/include/ssfn.h:666-686 | run-length coding is undone: 16 with two bits, 17 with three and 18 with seven are read as the repetitions and zeros they were written for |
| `CompressedBlocks.AnyCodes` | kernel/src/include/ssfn.h:646-690 | every two lists of code lengths can be declared, with single lengths and a fixed-width code |
| `CompressedBlocks.CodesRead` | kernel/src/include/ssfn.h:646-690 | any two codes are found in the block, whatever their lengths are cut into: single lengths, 3 to 6 more of the length before, 3 to 10 zeros or 11 to 138 zeros, written with any code for these |
| `CompressedBlocks.InflateCoded` | kernel/src/include/ssfn.h:730-751 | inflating undoes compression: any blocks, with the fixed codes or any others, give what their literals and matches stand for |
| `CompressedBlocks.RoundTrip` | kernel/src/include/ssfn.h:753-762 | the decoder returns that output exactly when it fits eight bytes or is a font |
| `CompressedBlocks.FixedSays` | kernel/src/include/ssfn.h:718-728 | the fixed codes have a code for every literal and the end of a block, so every font can be written with them |
| `CompressedBlocks.EncodeThenDecode` | kernel/src/include/ssfn.h:753-762 | every font, written as literals with the fixed codes or any others that have them, is decoded to itself |
| `PageTable.TableWordFields` | kernel/src/arch/x86/mmu.c:22-29 | a table entry made from a frame is that frame with the three lowest bits set: present, and it leads back to the frame |
| `PageTable.LeafPermits` | kernel/src/arch/x86/mmu.c:22-46 | in every well-formed tree a walk permits writing, and user access, exactly when the leaf it ends at does: no table on the way restricts it |
| `PageTable.MappingPermits` | kernel/src/arch/x86/mmu.c:48-53 | what a mapping permits is what its flags say, whatever the frame |
| `PageTable.IndexIsDigit` | kernel/src/arch/x86/mmu.c:34-49 | the shift-and-mask index of a level is that digit, base 512, of the page number modulo 2^36 |
| `PageTable.TranslationRoundTrip` | kernel/src/arch/x86/mmu.c:48-70 | a lookup returns the frame mapped exactly when every flag bit from bit 12 up is already set in the frame's address |
| `PageTable.NoExecuteIsNotStripped` | kernel/src/arch/x86/mmu.c:69 | with the no-execute flag the lookup does not return the frame |
| `PageTable.PathOwner` | kernel/src/arch/x86/mmu.c:33-46 | a walk only meets tables of its own tree, or of the kernel's upper half, each carrying the key's prefix |
| `PageTable.SameTable` | kernel/src/arch/x86/mmu.c:33-46 | two walks that meet in a table follow keys with the same prefix, and from different roots only in the upper half |
| `PageTable.LeafWriteEffect` | kernel/src/arch/x86/mmu.c:48-62 | writing a leaf changes exactly that key, in exactly the spaces whose walk ends in the same table |
| `PageTable.AddTableKeepsTree` | kernel/src/arch/x86/mmu.c:26-29 | a new table keeps the trees well formed, and every table reachable from its root |
| `PageTable.AddTableKeepsLeaf` | kernel/src/arch/x86/mmu.c:26-29 | making a table changes no translation |
| `PageTable.AddRootEffect` | kernel/src/mm/vmm.c:132-142 | a new top level sees the kernel's upper half and an empty lower half; every other space is unchanged |
| `PageTable.SharingLasts` | kernel/src/mm/vmm.c:141-142 | a shared present top-level entry stays shared as long as present upper-level entries stay |
| `PageTable.SharedTranslation` | kernel/src/mm/vmm.c:141-142 | spaces that share the top-level entry of a key translate it alike |
| `PageTable.SameTableIffTogether` | kernel/src/arch/x86/mmu.c:33-46 | two spaces walk to a key through the same leaf table exactly when they are one space or both hold the kernel's upper-half entry for it |
| `PageTable.SharingNotMade` | kernel/src/arch/x86/mmu.c:26-29 | no map or unmap makes a space share an entry it did not share before |
| `PhysPages.AddressStack.Push` | kernel/src/mm/pmm.c:16-22 | appends the address, or changes nothing exactly when the stack is full |
| `PhysPages.AddressStack.Pop` | kernel/src/mm/pmm.c:24-29 | takes the last address pushed; 0 exactly when there is none |
| `PhysPages.PagesOfCovered` | kernel/src/mm/pmm.c:54-59 | a page is pushed at boot exactly when a usable entry covers it |
| `PhysPages.PagesOfDistinct` | kernel/src/mm/pmm.c:54-59 | no page is pushed twice |
| `PhysPages.ShrunkPages` | kernel/src/mm/pmm.c:45-53 | the usable pages are the stack's own and the pushed ones, with none in both |
| `PhysPages.StorageSize` | kernel/src/mm/pmm.c:44 | the stack's storage is whole pages, enough for eight bytes for every usable page and less than one page more |
| `PhysPages.SlotsOutside` | kernel/src/mm/pmm.c:44-59 | every slot of the stack lies in a page of its storage, and has no byte in any page that is pushed |
| `PhysPages.PhysInit` | kernel/src/mm/pmm.c:33-60 | the stack's storage comes from the first usable entry with room, the capacity is the number of usable pages, every other usable page is pushed, and no pushed page holds a byte of a slot |
| `Regions.PlacedOk` | kernel/src/mm/vmm.c:146-166 | on both the gap and the append path the ring stays sorted, page-aligned, disjoint and above its base |
| `Regions.RemovedOk` | kernel/src/mm/vmm.c:57-61 | so it does when a region is destroyed |
| `Regions.LowestFree` | kernel/src/mm/vmm.c:146-166 | first fit: from the first region on, the address of a new region is the lowest from which that many pages are in no region; in an empty ring it is the base |
| `Regions.FreshIffAppended` | kernel/src/mm/vmm.c:156-165 | the address handed out is the new region's, and outside every older region, exactly when the region was appended |
| `Regions.GapPathReturnsOldRegion` | kernel/src/mm/vmm.c:155-159 | three allocations and a free leave a ring where the next allocation is handed an old region's address |
| `Regions.Ring.InsertRegion` | kernel/src/mm/vmm.c:49-55 | the list stays a well-linked cycle with the node after the given one |
| `Regions.Ring.AppendRegion` | kernel/src/mm/vmm.c:41-47 | the list stays a well-linked cycle with the node last |
| `Regions.Ring.DestroyRegion` | kernel/src/mm/vmm.c:57-61 | the list stays a well-linked cycle without the node, and the node's frame is what is freed |
| `Regions.Ring.FindFit` | kernel/src/mm/vmm.c:147-160 | finds the first region followed by a large enough gap, and none exactly when the new region is appended |
| `Regions.Ring.FindRegion` | kernel/src/mm/vmm.c:146-166 | the new ring is the first-fit placement; the node returned is the old neighbour on the gap path |
| `Regions.Ring.FreeRegion` | kernel/src/mm/vmm.c:222-232 | removes the region at an address, or changes nothing exactly when there is none |
| `Regions.RunKeepsRing` | kernel/src/mm/vmm.c:146-234 | every run of allocations and frees, gap path included, keeps the ring sorted, aligned and disjoint |
| `Regions.RunRing` | kernel/src/mm/vmm.c:32-61 | over every such run the linked list stays a well-linked cycle showing exactly those regions |
| `Ownership.LeafWriteDone` | kernel/src/arch/x86/mmu.c:48-62 | the exact effect of a map or unmap, tables made on the way included: one key changes, in the space and in every space sharing its kernel entry, and nowhere else |
| `Ownership.PageMapped` | kernel/src/mm/vmm.c:209-212 | mapping a fresh frame makes exactly one page live |
| `Ownership.PageUnmapped` | kernel/src/mm/vmm.c:225-229 | freeing a page's frame and unmapping it makes exactly that page dead |
| `Ownership.FramesNotShared` | kernel/src/mm/vmm.c:204-214 | two live pages never share a frame |
| `Ownership.RoomToPush` | kernel/src/mm/pmm.c:16-22 | while a usable frame is in use the capacity check of a push does not fire |
| `Ownership.SpannedBound` | kernel/src/mm/vmm.c:204-214 | n consecutive pages spread over at most (n + 510) / 512 + 1 leaf tables |
| `Ownership.FramesStep` | kernel/src/arch/x86/mmu.c:26-29 | one more page of a range takes its own frame and at most the tables, of each level, that it is the first to need |
| `Ownership.PagesKeptOutside` | kernel/src/mm/vmm.c:168-177 | a mapping of any key but a live region page's leaves every region page alone |
| `Ownership.LivePageOverwritten` | kernel/src/mm/vmm.c:168-177 | mapping over a live region page keeps its frame accounted for exactly when the new word leads to the same frame |
| `Ownership.NewSpaceInvariant` | kernel/src/mm/vmm.c:129-144 | a new page map keeps the whole invariant and changes no other space's translations |
| `Ownership.RegionLinked` | kernel/src/mm/vmm.c:146-166 | a new region, in a gap or at the end, gives its structure a frame of its own and keeps every space consistent |
| `Ownership.RegionUnlinked` | kernel/src/mm/vmm.c:57-61 | destroying a region returns its structure's frame and keeps every space consistent |
| `VirtMem.Machine.constructor` | kernel/src/mm/vmm.c:63-77 | three frames make the kernel's page map, and the whole invariant holds |
| `VirtMem.Machine.GetNextLevel` | kernel/src/arch/x86/mmu.c:21-31 | follows a present entry; otherwise makes exactly one table when asked to, and changes nothing when not |
| `VirtMem.Machine.TraverseLevels` | kernel/src/arch/x86/mmu.c:33-46 | returns the leaf table of the key, changing no translation and making at most one leaf table |
| `VirtMem.Machine.VirtMap` | kernel/src/arch/x86/mmu.c:48-53 | exactly the key mapped changes, in the space and those that share its kernel entry; only free frames become tables, one for each table missing on the way |
| `VirtMem.Machine.VirtUnmap` | kernel/src/arch/x86/mmu.c:55-62 | exactly that key becomes unmapped there, and no frame changes use |
| `VirtMem.Machine.GetPhysicalAddress` | kernel/src/arch/x86/mmu.c:64-70 | returns the flat map's leaf without its low twelve bits, or 0, changing nothing |
| `VirtMem.Machine.FindRegion` | kernel/src/mm/vmm.c:146-166 | first fit, in a gap or at the end: the new region's structure gets a frame of its own, and the address returned is the old neighbour's in a gap |
| `VirtMem.Machine.AllocatePages` | kernel/src/mm/vmm.c:204-214 | on both paths the pages from the address returned are mapped, with the flags, to frames of their own that were free, and only their keys change; appended pages are live and the whole invariant holds; it takes at most a frame for the region, one for each page and the tables the pages spread over, at most (n + 510) / 512 + 1 of them leaf tables |
| `VirtMem.Machine.FreePages` | kernel/src/mm/vmm.c:216-234 | returns every page's frame and the region's, unmaps exactly its keys; a misaligned or unknown address changes nothing |
| `VirtMem.Machine.NewPageMap` | kernel/src/mm/vmm.c:129-144 | a new space shares every present upper-half entry of the kernel and has an empty lower half; its empty ring starts at 0x1000 |
| `VirtMem.Machine.MapFixed` | kernel/src/mm/vmm.c:168-177 | a mapping of anything but a live region page keeps the whole invariant |
| `VirtMem.Machine.UnmapFixed` | kernel/src/mm/vmm.c:192-194 | so does removing one |
| `Runs.RunMaps` | kernel/src/arch/x86/mmu.c:21-70 | over any maps and unmaps through any spaces, at any addresses, tables made on the way included, every key of every space reads what the last operation on it left, through the space itself or one sharing its kernel entry; so sharing spaces translate alike and lower halves are private |
| `Runs.NewSpaceThenMaps` | kernel/src/mm/vmm.c:129-144 | after MmNewPageMap and any later maps and unmaps through any spaces, each key whose kernel entry was present is translated alike by both; lower halves change only through their own space |
| `Runs.FlatShared` | kernel/src/mm/vmm.c:141-142 | spaces sharing a kernel entry have one flat map for its keys |
| `Runs.MapThenLookup` | kernel/src/arch/x86/mmu.c:48-70 | looking up an address just mapped returns its frame exactly when the flags leave the address bits alone; the walk to it permits writing and user access exactly when they say so |
| `Runs.Boot` | kernel/src/mm/pmm.c:33-60 | after boot each usable page of the memory map, and no other, has an owner, the stack's pages own themselves, and every slot of the stack lies in one of them |
| `Runs.Step` | kernel/src/mm/vmm.c:129-234 | carries out exactly the operations whose conditions hold; each then has its exact effect on spaces, owners and translations, the others change nothing; the invariant, the tables, the stack's storage and the lower halves of other spaces are kept |
| `Runs.Run` | kernel/src/mm/vmm.c:129-234 | every run of new spaces, region allocations and frees, and mappings of anything but live region pages is a chain of such steps, and keeps the invariant and the stack's storage; spaces sharing a kernel entry keep translating it alike; the lower half of an untouched space is unchanged |
| `Runs.BootAndRun` | kernel/src/mm/pmm.c:33-69 | from boot through such a chain of steps, each usable page of the memory map is in exactly one place, except the address stack's own pages, which are in none; no other frame is anywhere, none is on the stack twice, and none in any place holds a byte of the stack's array |
| `Runs.RunWithNewSpace` | kernel/src/mm/vmm.c:129-144 | a new space, then such a chain of steps, further new spaces included: each upper-half key whose kernel entry was present when the space was made is translated by it as by the kernel |
| `Runs.OnePlace` | kernel/src/mm/pmm.c:62-69 | a frame is found in a place exactly when its owner says so: free stack, a tree, a page map or ring node, a region header, or one live page |
| `Runs.AllocateThenFree` | kernel/src/mm/vmm.c:204-234 | allocating and freeing restores the rings and every frame, except free frames that became tables; the range is unmapped, in the space and those sharing its entry, and nothing else is translated differently, so every translation is restored where nothing was mapped before |
| `RegionRuns.StepRing` | kernel/src/mm/vmm.c:146-234 | a step of the machine with the changes MmVirtFindRegion and MmDestroyRegion make to the links: the ring shows the regions before and after |
| `RegionRuns.RunRings` | kernel/src/mm/vmm.c:146-234 | over every run the linked ring of a space is a well-linked cycle of exactly its regions, each node in the frame whose owner is that region's header |
| `RegionRuns.AllocateInGap` | kernel/src/mm/vmm.c:146-166 | on the gap path the page mapped first is a live page of an older region: its frame keeps its owner, is not free, and is found nowhere exactly when no page of the gap led to it; frames and trees stay consistent, the whole invariant does not |
| `RegionRuns.LoseFrame` | kernel/src/mm/vmm.c:204-234 | three allocations, the second freed, and one more: in every machine with room for them the frame of the first region's page ends in no place |
| `HeapBlocks.TilesAddUp` | kernel/src/mm/alloc.c:17-29 | sizes and headers of the blocks that tile a pool add up to its total size |
| `HeapBlocks.FreedBlock` | kernel/src/mm/alloc.c:117-132 | after a free the block lies in one free block that has no free neighbour |
| `HeapBlocks.FreedKeepsUsed` | kernel/src/mm/alloc.c:117-132 | every other used block is still there, and there is no new one |
| `HeapBlocks.FreeSizeDrift` | kernel/src/mm/alloc.c:104-115 | how much more FreeSize grows than the free bytes when a block of any tiled pool is freed, and exactly when that is nothing: by the free blocks before it, and none, one or more after it |
| `HeapBlocks.CoalescedExact` | kernel/src/mm/alloc.c:104-132 | where no free blocks are neighbours only the two blocks beside it matter |
| `HeapBlocks.MergeRecorded` | kernel/src/mm/alloc.c:104-112 | a merge leaves exactly the headers of the joined chain, with back links inverse to the forward links |
| `HeapBlocks.TakenTiles` | kernel/src/mm/alloc.c:78-81 | after the split guard the blocks still tile the pool exactly when the block fitted exactly or left room for a header |
| `HeapBlocks.TakenLinks` | kernel/src/mm/alloc.c:36-47 | after a split the links are still inverse exactly when nothing was split off or the block was the last |
| `HeapBlocks.TakenBytes` | kernel/src/mm/alloc.c:78-87 | what an allocation subtracts from FreeSize is exactly what the free bytes lose |
| `HeapBlocks.LifoTaken` | kernel/src/mm/alloc.c:78-85 | allocating from the last block keeps a pool whose last block only is free tiled, 16-aligned and of that shape |
| `HeapBlocks.LifoFreed` | kernel/src/mm/alloc.c:117-132 | freeing the last used block does too, and adds to FreeSize exactly what the free block gains |
| `HeapBlocks.TakenThenFreed` | kernel/src/mm/alloc.c:49-132 | a free undoes the allocation before it |
| `Heap.Heap.constructor` | kernel/src/mm/alloc.c:17-34 | the first pool is well formed, one free block of ten pages without its header, and every byte of it reads 0 |
| `Heap.Heap.Merge` | kernel/src/mm/alloc.c:104-115 | the headers, the cleared payload and the credit of one merge |
| `Heap.Heap.JoinForward` | kernel/src/mm/alloc.c:123-124 | joins exactly the run of free blocks after the block |
| `Heap.Heap.JoinBackward` | kernel/src/mm/alloc.c:126-129 | joins exactly the run of free blocks before it |
| `Heap.Heap.FreeBlock` | kernel/src/mm/alloc.c:117-132 | from any pool whose blocks tile it with inverse links, whatever the others are: terminates, the block and its free neighbours become one free block, the pool stays such a pool, no byte of another used payload or outside the pool changes |
| `Heap.Heap.Free` | kernel/src/mm/alloc.c:117-132 | in a heap of well-formed pools a free keeps them so and leaves every other used payload untouched; refuses pointers that are no block's |
| `Heap.PoolAdded` | kernel/src/mm/alloc.c:17-29 | a new pool on memory of its own is one free block, linked behind the last; every older pool stays well formed |
| `Heap.NewPoolPages` | kernel/src/mm/alloc.c:58 | a new pool is the fewest multiple of four pages that is at least four times the request |
| `Heap.Heap.FindPool` | kernel/src/mm/alloc.c:54-64 | the first pool that seems to have room, or a new one appended to the list exactly when none does |
| `Heap.Heap.FindBlock` | kernel/src/mm/alloc.c:66-75 | the first free block that is large enough, and 0 exactly when there is none |
| `HeapBlocks.TakenHeader` | kernel/src/mm/alloc.c:36-47 | a split that has room for a header leaves every header of the pool right, except the back link of the block after the one split off |
| `Heap.Heap.Alloc` | kernel/src/mm/alloc.c:49-89 | takes the first fitting block of the first pool with room; the heap stays well formed exactly when no block fits, or the one taken fits exactly or leaves room for a header and is the last; a new pool reads 0 throughout |
| `Heap.LifoAllocated` | kernel/src/mm/alloc.c:49-89 | in a heap where only last blocks are free the search never fails, nothing underflows, the pointer is 16-aligned, and the heap stays such a heap |
| `Heap.LifoReleased` | kernel/src/mm/alloc.c:117-132 | so it does when a pool's most recent allocation is freed |
| `HeapRuns.Step` | kernel/src/mm/alloc.c:49-132 | a request with memory that spoils no header, a release of any block in use and a store to a held payload lead to exactly the state and pointer the operation stands for, and touch no other payload in use; any other request or release changes nothing |
| `HeapRuns.Run` | kernel/src/mm/alloc.c:49-132 | every run of requests, releases in any order and stores, until a request would spoil the headers, goes through exactly those states; its pointers are 16-aligned, those in use together are apart, and what is stored through one is read back; if only most recent allocations are released, no request spoils the headers and each with memory for it is served |
| `HeapRuns.LifoStep` | kernel/src/mm/alloc.c:49-132 | where only last blocks are free a request spoils no header and is served, and releasing a most recent allocation keeps it so |
| `HeapRuns.StillUsed` | kernel/src/mm/alloc.c:49-132 | over a run the pointer of a served request is that of a block in use until its release |
| `HeapRuns.LiveTogether` | kernel/src/mm/alloc.c:49-132 | the blocks of a pointer and of one served while it is held, headers and all, do not overlap |
| `HeapRuns.StoredIsRead` | kernel/src/mm/alloc.c:76-132 | a byte stored to held memory is what is read there, until it is stored to again or the block is released |
| `Heap.LivePayloads` | kernel/src/mm/alloc.c:17-132 | in such a heap payloads are disjoint and 16-aligned, the blocks add up to the pool, and FreeSize is exact |
| `HeapCases.FreesUncredited` | kernel/src/mm/alloc.c:117-132 | requests of 64 and 16 bytes, the first freed: 64 more bytes are free than FreeSize says |
| `HeapCases.LosesTiling` | kernel/src/mm/alloc.c:78-81 | then a request of 48: the blocks no longer tile the pool |
| `HeapCases.LosesBackLink` | kernel/src/mm/alloc.c:36-47 | requests of 64, 256 and 64, the second freed, and 64 again: the third block's back link is wrong |
| `SchedSpec.TickTasks` | kernel/src/sys/sched.c:68-104 | a timer interrupt saves the found registers in the interrupted task and no other, and leaves exactly the chosen task running |
| `SchedSpec.TickOk` | kernel/src/sys/sched.c:68-104 | exactly the current task is running afterwards, and only the chosen queue's iterator moves, by one place around its ring |
| `SchedSpec.CreateOk` | kernel/src/sys/sched.c:42-66 | a new task is ready at the end of its queue, and every other task is as before |
| `SchedSpec.RunAll` | kernel/src/sys/sched.c:42-104 | every interleaving of creations and interrupts keeps exactly the current task running and the iterators on their rings |
| `SchedSpec.ContextKept` | kernel/src/sys/sched.c:72-76 | over every run each task keeps exactly the registers found at its last interruption, or its first ones |
| `SchedSpec.ResumesLast` | kernel/src/sys/sched.c:96-100 | an interrupt resumes the chosen task with exactly those registers |
| `SchedSpec.FirstRun` | kernel/src/sys/sched.c:52-55 | whatever happens in between, a task first resumes at its entry, with segments 0x08 and 0x10, flags 0x202, and its stack pointer 0x3000 above its stack |
| `SchedSpec.RunRanked` | kernel/src/sys/sched.c:25-61 | over every run the tasks of priority 3 are on the first queue, those of priority 2 on the second, and all others on the third |
| `SchedSpec.HighestPriorityRuns` | kernel/src/sys/sched.c:25-95 | over every run from the empty queues, the next interrupt runs a task of priority 3 if there is one, otherwise of 2 if there is one; where all priorities are 1 to 3, no task has a higher priority than the one it runs |
| `SchedSpec.TickSlice` | kernel/src/sys/sched.c:77-103 | the interrupt makes the chosen task and its page map current, for 5, 10 or 15 units at priority 1, 2 or 3; with no task at all it comes again after 25 |
| `SchedSpec.AfterTicks` | kernel/src/sys/sched.c:77-99 | without new tasks, j interrupts run the task j places ahead in the highest queue and touch no other queue's iterator |
| `SchedSpec.Fairness` | kernel/src/sys/sched.c:68-104 | as many interrupts as the highest queue has tasks run each of its tasks exactly once, in list order, and no other task |
| `Sched.List.constructor` | kernel/src/lib/list.c:4-10 | an empty circular list |
| `Sched.List.Append` | kernel/src/lib/list.c:12-20 | the list stays a well-linked cycle with the new item last and the count right |
| `Sched.CreateTaskQueues` | kernel/src/sys/smp.c:21-44 | three separate empty queues of priorities 3, 2 and 1, chained in that order, iterators at the heads |
| `Sched.Cpu.constructor` | kernel/src/sys/smp.c:21-44 | the objects show the empty scheduler |
| `Sched.Cpu.GetQueueFromPriority` | kernel/src/sys/sched.c:25-40 | the queue made with that priority, the one made with priority 1 for any number but 1 to 3 |
| `Sched.Cpu.FindQueue` | kernel/src/sys/sched.c:77-86 | the highest queue with a task, null exactly when there is none |
| `Sched.Cpu.NextTask` | kernel/src/sys/sched.c:87-95 | terminates, and stops at the next task of the ring past the head |
| `Sched.Cpu.Schedule` | kernel/src/sys/sched.c:68-104 | the linked objects go to the state of the value-level tick; returns the registers to resume and the time slice |
| `Sched.Cpu.CreateTask` | kernel/src/sys/sched.c:42-66 | the linked objects go to the state of the value-level creation; the task is the last of the queue made with its priority, of 1 for an unknown one, and every other queue has the tasks it had |
| `Sched.Run` | kernel/src/sys/sched.c:42-104 | any interleaving leaves the objects in the state of the value-level run |
| `Printf.Out` | kernel/src/lib/printf.c:136-141 | a character lands at its index exactly when that is below the limit |
| `Printf.OutRev` | kernel/src/lib/printf.c:202-226 | writes the reversed buffer with its padding; the index advances by the full length whatever the limit |
| `Printf.NtoaFormat` | kernel/src/lib/printf.c:230-280 | writes the formatted field, within the limit only |
| `Printf.Convert` | kernel/src/lib/printf.c:295-302 | the conversion buffer holds the value's digits, lowest first, as far as they fit |
| `Printf.NtoaLong` | kernel/src/lib/printf.c:284-329 | writes the integer field of a value, sign, base, precision, width and flags |
| `Printf.CharOut` | kernel/src/lib/printf.c:779-797 | writes the character with its padding |
| `Printf.StrnLen` | kernel/src/lib/printf.c:174-179 | the string's length, at most the bound |
| `Printf.StringOut` | kernel/src/lib/printf.c:799-823 | writes the string, cut to the precision, with its padding |
| `Printf.Atoi` | kernel/src/lib/printf.c:191-198 | the decimal number modulo 2^32, and where it ends |
| `Printf.ScanConversion` | kernel/src/lib/printf.c:604-683 | flags, width, precision and length exactly as the reference reads them |
| `Printf.IntegerOut` | kernel/src/lib/printf.c:687-759 | writes the integer conversion's text, with the argument cast as its length modifier says |
| `Printf.Vsnprintf` | kernel/src/lib/printf.c:580-910 | returns the length of the unbounded text, cast to an int, whatever count is; stores the longest prefix that leaves room for a terminator, and the terminator; nothing else changes, and nothing at all when count is 0 |
| `PrintfDigits.DigitsParse` | kernel/src/lib/printf.c:295-302 | the digits parse back to the value and start with a zero only for 0 |
| `PrintfDigits.NtoaShape` | kernel/src/lib/printf.c:202-329 | for every 64-bit value in base 8 to 16, with and without a precision, the field is sign, zeros, digits and padding in the order the flags ask for; zeros stop at 32 characters, and then there is no sign |
| `PrintfDigits.FieldLength` | kernel/src/lib/printf.c:202-329 | the field is as long as the width or its contents, whichever is more, exactly unless zero-padding to more than 32 is asked for |
| `PrintfDigits.WideZeroPadLosesSign` | kernel/src/lib/printf.c:211-280 | zero-padding -7 to 33 characters prints 32, and no sign |
| `PrintfDigits.IntegerReadsBack` | kernel/src/lib/printf.c:687-759 | what %d, %i, %u, %x, %X and %o print has that shape, and reads back as the argument under its length modifier's cast, which PrintfFields says, exactly when that is not negative or the zeros that width or precision ask for leave room for its sign |
| `PrintfFields.SignedCast` | kernel/src/lib/printf.c:726-737 | %d and %i: the value is in the range of char, short, int or long, as the length modifier says, and differs from the argument by a multiple of 2^8, 2^16, 2^32 or 2^64 |
| `PrintfFields.UnsignedCast` | kernel/src/lib/printf.c:740-755 | the same for the unsigned types and %u, %x, %X, %o and %b |
| `PrintfFields.CastExact` | kernel/src/lib/printf.c:726-755 | the value is the argument itself exactly when the argument is a value of that type |
| `PrintfFields.ArgumentReadsBack` | kernel/src/lib/printf.c:687-759 | an argument of its type is read back itself, in base 10 from %d, %i and %u, in base 16 from %x and %X and in base 8 from %o, exactly when it is not negative or zeros leave room for its sign |
| `PrintfFields.BinaryReadsBack` | kernel/src/lib/printf.c:697-755 | %b prints the lowest 32 binary digits, so an argument of its type is read back exactly when it is below 2^32 |
| `PrintfFields.LettersOfOneCase` | kernel/src/lib/printf.c:298 | whatever the flags, the letters of a number are upper case with the uppercase flag and lower case without |
| `PrintfFields.IntegerCase` | kernel/src/lib/printf.c:709-712 | so %X prints no lower-case digit and the others no upper-case one |
| `PrintfFields.PointerReadsBack` | kernel/src/lib/printf.c:825-846 | %p prints sixteen upper-case hexadecimal digits, which are the address modulo 2^64 |
| `PrintfHash.HashReadsBack` | kernel/src/lib/printf.c:245-268 | with # and no precision a positive argument is read back from %x and %X, after 0x or 0X, exactly when its digits, or with zero-padding its digits and one zero, do not fill the width, and from %o exactly when its digits do not: otherwise the first digits are lost; the prefix is there exactly unless zeros fill 32 characters |
| `PrintfHash.HashShape` | kernel/src/lib/printf.c:245-268 | with # and no precision the field is the prefix 0x, 0X, 0b or 0 before the digits that are kept, as far as 32 characters have room |
| `PrintfHash.HashPrecisionShape` | kernel/src/lib/printf.c:230-268 | with a precision the prefix comes before the zeros it asks for, and no digit is lost |
| `PrintfFormats.StringPlaces` | kernel/src/lib/printf.c:799-823 | %s prints the string up to its terminator or the precision, and spaces up to the width, before it or after it with the - flag |
| `PrintfFormats.CharPlaces` | kernel/src/lib/printf.c:779-797 | %c prints the lowest byte of its argument last, or first with the - flag, and spaces up to the width |
| `PrintfFormats.NumberRead` | kernel/src/lib/printf.c:191-198 | a decimal numeral in a format is read as its value modulo 2^32 |
| `PrintfFormats.ConversionRead` | kernel/src/lib/printf.c:604-683 | a conversion written with any flags, a width and precision as numbers or arguments, and any length modifier is read as exactly those |
| `PrintfFormats.FormatReadsBack` | kernel/src/lib/printf.c:580-865 | a format put together from plain text and conversions renders to that text and to what the conversions print, in order, each with the next argument |

## Left out

- Inflate.ZlibDecode: streams that run out of data, and outputs larger than the size a font declares, are excluded: the code then reads past the data it was given, or writes past its buffer. A failing MmRealloc is not modelled.
- Inflate.Decoder.Expand: declared sizes below 8 are excluded, because the buffer is then smaller than the output it already holds.
- Inflate.Decoder.ParseZlib: streams that run out of data, and outputs larger than the size a font declares, as above.
- Inflate.Decoder.ParseBlock: the same.
- Inflate.Decoder.ParseHuffmanBlock: the same.
- Inflate.Decoder.ParseUncompressedBlock: the same.
- Inflate.Decoder.NextItem: streams that run out of data.
- Inflate.Decoder.ExpandLengths: the same.
- Inflate.Decoder.ComputeHuffmanCodes: the same.
- InflateSpec.ReadCounts: 287 and 288 literal/length codes are accepted, and the reserved symbols are read as the zeros of the kernel's tables, as the code does and RFC 1951 does not.
- HuffmanTable.Huffman.Build: code lengths are below 16 and at most 288 in number, as every caller passes them.
- VirtMem.Machine.AllocatePages: the flags are below 0x1000, without which a free does not find its frame again.
- Runs.Step: an allocation that would fill a gap is not a step of a run, because it breaks the invariant; RegionRuns.AllocateInGap says how.
- RegionRuns.RunRings: one space's ring at a time; that the rings of different spaces share no node is not modelled.
- VirtMem.Machine.GetNextLevel: a frame is always available; the ASSERT on an empty stack, and NULL returns of the allocators, are not modelled.
- VirtMem.Machine.MapFixed: not over a live region page, which loses its frame (Ownership.LivePageOverwritten); VirtMem.Machine.VirtMap and Runs.RunMaps have no such limit. MmVirtMap with address 0, which takes a region, is not modelled.
- VirtMem.Machine.UnmapFixed: not of a live region page, for the same reason.
- Runs.RunMaps: three free frames are set aside for each mapping; VirtMem.Machine.VirtMap asks only for the tables that are missing.
- PhysPages.PhysInit: some usable entry is large enough for the stack, as the code assumes.
- Regions.Ring.FindRegion: 64-bit wrap-around of region addresses is not modelled; page counts are positive.
- HeapBlocks.TakenHeader: header bytes that overlap another block's header, when a split leaves no room for one, are not modelled byte by byte; HeapBlocks.TakenTiles says when that happens.
- Heap.Heap.Alloc: sizes are positive and small enough for the new pool's size to fit a size_t; additions to FreeSize do not wrap. MmRealloc is not part of this model.
- Heap.Heap.FreeBlock: a pool in which a split has lost a back link is not covered, except that HeapCases.LosesBackLink shows how it comes about.
- Heap.Heap.Free: the other pools are well formed too; Heap.Heap.FreeBlock asks only for the one.
- HeapRuns.Run: a run stops before a request that would spoil the headers (Heap.Heap.Alloc says exactly when); releases of anything but a block in use, which the kernel refuses or merges again, are not made; callers store only to memory they hold.
- Sched.Cpu.Schedule: timers, end-of-interrupt and the CR3 write are not modelled, nor are several CPUs at once; every step is atomic.
- Printf.Vsnprintf: formats that end inside a conversion and missing or mistyped arguments are excluded, because the code then reads past them; the text is shorter than 2^64; the other output functions are not modelled.
- PrintfDigits.NtoaShape: without the # flag, which PrintfHash.HashShape covers, and not for base 2, whose digits do not fit the 32-character buffer and which PrintfFields.BinaryReadsBack covers.
- PrintfHash.HashReadsBack: without a precision; PrintfHash.HashPrecisionShape says what is printed with one.
- PrintfFormats.FormatReadsBack: a numeral width does not start with 0, which is a flag; letters that are no conversion print themselves.
- PrintfDigits.FieldLength: without a precision, whose zeros PrintfDigits.NtoaShape counts.
- PrintfSpec.IntegerValue: the most negative value, whose negation overflows in C, is negated mathematically.
- Bit operations are recursive functions on natural numbers, related to shifts and remainders by lemmas in Bits, instead of machine words.
- Glyph rendering, kerning, font selection and the glyph cache in ssfn.h.
- Drivers and tables: AHCI, PCI, ACPI, MADT, APIC, PIT, GDT, IDT, ports and assembly.
- Interrupt queueing in interrupt.c, whose nested handlers do not conserve the queue.
- The file systems bfs.c, diskfs.c and vfs.c, the terminals, boot code in main.c, and the RISC-V stubs.
