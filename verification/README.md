# EOS kernel and floppy loader: a Dafny model

EOS is a small x86-64 hobby kernel with a FAT12 floppy boot chain.  This project models its
hard parts and proves what they do, for all inputs, all runs and all reachable states:

- **Physical memory** (`core/memblk.c`, `core/memblk.h`, `core/main.c`, `BIOS/memory.c`,
  `BIOS/memory.h`, `BIOS/page.h`, `ctzll`): the firmware memory map becomes 2 MiB page counts,
  the counts become a block array and a used/free bitmap, a word-at-a-time scan finds free
  runs, and `simple_malloc` and `alloc_memblk` hand out memory.
  Files `Bits`, `Scan`, `ScanReach`, `ScanShift`, `MemoryMap`, `Coverage`, `Runs`, `Requests`,
  `Allocator`, `Boot`, `BootRuns`, `Structs`.
- **Intrusive circular list** (`core/list.h`): `Ring`.
- **Formatter, text cursor and glyphs** (`core/print.c`, `putchar_framebuffer`):
  `Itoa`, `Numerals`, `Format`, `Conversions`, `Cursor`, `Glyph`, `Display`, `Lines`.
- **FAT12 loading** (`bootloader/floppy/mbr.asm`, `loader.asm`): `Fat12`.

Code that changes state is a method, or a class with the source's fields, proved against a
specification function; the laws are then lemmas about those functions.

`dafny verify dfyconfig.toml` checks everything.

## What the proofs say

**The scan is first fit on what it sees.**  `Scan.FindZeroSequence` keeps the source's loop with
its four exits.  At every word boundary the loop shifts a word by 64, which C leaves undefined;
what the machine delivers there is a parameter.  `Scan.Seen` is the bitmap as the loop then sees
it, and the answer is the bit-by-bit first fit on it.
- On every machine an answered run is free (`Scan.SearchHonest`).
- It is the true first fit exactly under the condition of `ScanShift.SearchFindsFirst`: the shift
  delivers no bit where the rest of the run is read at a word boundary, and does not hide the
  first position of a run inside a word.  Behind used blocks alone, and for one block, that comes
  down to the delivered bits (`SearchBehindUsed`, `SearchForOne`): one block is found if and only
  if the shift delivers no bit at its position.
- On x86-64, where the shift delivers the next word, `ScanShift.MaskedSearch` puts it in terms of
  the bitmap: one block is found if and only if the position one word later is free too.
  `ScanShift.MaskedSearchMisses` is a bitmap with 64 free blocks on which a request for one finds
  nothing.
- Where the shift delivers nothing, `ScanReach.PlainSearch` and `ScanReach.SearchStaysInside` say
  how far the search counts behind the bitmap and when that matters.

**Every allocation run is safe exactly when its calls are guarded, on every machine.**
`Runs.RunSafe` ties "every state of the run is safe" (grants are blocks, disjoint, free at boot;
the set bits up to the end of the last bitmap word are those set at boot and those granted; heap
chunks disjoint and between floor and ceiling) to a guard for each call.  The step is total: a run
that is found is handed out, marked and paid for, whether or not its blocks exist.
- `Requests.NoFreeRun` says in lengths of clear runs when a request that no free run meets is
  answered all the same; the bits behind the last block, which stay clear from boot through every
  guarded run (`Requests.SlackStays`), are part of that length.  `Requests.GuardedPlain` and
  `Requests.GuardedX86` put the guard without the search.
- `Boot.BootFromTable` reaches a safe state from any firmware table, and
  `Boot.RunKeepsMemoryApart` carries the result down to bytes of memory.
- `BootRuns` holds runs from boot states that go wrong without their guard: a block handed out
  twice, blocks handed out that do not exist, and heap memory that overlaps a granted block, with
  the exact bound (`BootRuns.HeapMeetsBlock`, `Boot.HeapApart`).

**No memory that the firmware offers is lost.**  `MemoryMap.KeptRecords` says which entries of a
table are recorded, and that nothing else is; `Coverage.BlocksAre` says which addresses become
blocks, and `Coverage.PagesBecomeBlocks` when those are the whole pages of an entry.  `Structs`
derives the sizes taken from the heap from the fields of the C structures.

**A number is printed as what it is.**  `Numerals.RenderExactly`: a text is what `itoa_k` writes if
and only if it consists of the right sign, the right prefix and the one numeral of the number, with
padding where the flags put it, and the numeral cut at the front where the field is too narrow.
`Conversions` states every conversion of the formatter in those terms: reading a directive gives
back the parts it was written from (`PartsReadBack`), and each conversion prints its argument's
value (`PrintsUnsigned`, `PrintsSigned`, `PrintsPointer`, `PrintsString`, `PrintsChar`).
`Format.SplitsAnywhere` says where a format may be split, `Format.DoubledPrintsBack` is the quoting
law, and `Itoa.RenderLength` and `RenderFits` give the length of every rendering.

**The cursor stays in the grid exactly on screens that fit**, and characters are drawn on the
screen except by backspace at column 0 (`Cursor.GridKept`, `Cursor.DrawnOnScreen`).  Printed text
with newlines and tabs can be read off the frame buffer, byte by byte (`Lines.PrintedCell`), and
line `k` off row `k` (`Lines.PrintedLine`).

**A FAT12 chain is loaded sector by sector** (`Fat12.LoadKernel`, `Fat12.LoadByName`), entry
decoding inverts packing, and LBA to CHS is a bijection.

## Where the code does less than its comments promise

The code is kept as it is; each case has its condition, exact unless "Left out" says otherwise.

- `bitmap_length` counts bits (core/memblk.h:161) and is passed as a count of words
  (core/memblk.c:148).  The scan then reads on behind the bitmap; that memory is the parameter
  `beyond`.  `Requests.NoFreeRun` says when it is answered from there, `Requests.SlackOverruns` and
  `Requests.FullOverruns` that the last word of the bitmap alone is enough, and
  `BootRuns.RequestsAtBoot` shows it on a boot state.
- The window (core/memblk.c:106) shifts by 64 at a word boundary: `ScanShift.SearchFindsFirst`,
  `SearchBehindUsed`, `SearchForOne`, `MaskedSearch`, `MaskedSearchMisses`.
- `mem_bitmap_set_range` writes one word (core/memblk.h:57), and `1UL << 64` is undefined.
  `Runs.MarkExact` says when a free run is marked exactly; `wild` is what the undefined shift
  delivers.  `BootRuns.DoubleGrant` is a run after boot that hands out a block twice.
- The block loop runs from `start` to `blockcounts` (core/memblk.c:158):
  `Allocator.BlockLoopCovers`.
- In `simple_malloc` the second lookup repeats the first (core/memblk.c:72), so nothing is ever
  marked.  Safety therefore rests on the heap staying below the page boundary above the boot
  heap, which is the ceiling of `Runs.Guarded`; `BootRuns.HeapMeetsBlock` shows that no higher one
  would do.
- The upper bound of `is_address_in_mmap` is pointer arithmetic on 8-byte units
  (core/memblk.c:44): `Allocator.LookupCovers`.
- `bitmap_len_byte` holds bytes although documented in words (core/memblk.h:162), and is added to
  a pointer to words (core/main.c:69), so eight times the room is set aside.
- The blocks of a RAM entry are laid out from its base, not from its first page
  (core/init/x86_64/BIOS/memory.h:67): they are its whole pages if and only if the entry starts at a
  page boundary (`Coverage.PagesBecomeBlocks`).
- Page counts and block totals are exact only without wrap-around:
  `MemoryMap.PageCountExact`, `BlocksInside`, `CountsAgree`.
- `%u` reads its argument as a signed number (core/print.c:408-413): `Format.UnsignedDecimal`.
- Backspace at column 0 assigns pixels to cell coordinates (core/print.c:492-495):
  `Cursor.BackspaceAtMargin`, `Cursor.DrawnOnScreen`.
- Only 0xFFF ends a chain (bootloader/floppy/mbr.asm:221), while docs/bootloader/BIOS/Fat12.txt
  line 148 and section "FAT Type Determination" of the Microsoft FAT specification allow 0xFF8
  to 0xFFF: `Fat12.EndTest`.
- The loader searches the directory sector that the boot sector left in memory and reads none
  itself (bootloader/floppy/loader.asm:192-196): `Fat12.SearchBoth`.
- The boot sector loads at a 16-bit offset (bootloader/floppy/mbr.asm:227), so a file of more than
  64 KiB overwrites its beginning: `Fat12.LoadLoader`, `Fat12.ShortFile`.

## Model

| member | source | states |
|---|---|---|
| DeBruijn.CtzllIsCtz | core/lib_k.h:283-308 | for every word the de Bruijn lookup is the count of zero bits below the lowest set bit that the scan uses, 64 for zero |
| DeBruijn.Isolate | core/lib_k.h:288 | `x & -x` is the lowest set bit alone |
| DeBruijn.TableInverts | core/lib_k.h:290-305 | the table gives back `k` for the 64-bit product with bit `k`, for all 64 bits |
| Bits.LowestBitIs | core/lib_k.h:278-309 | the trailing-zero count as used by the scan: that bit is set and none below it |
| Bits.WindowBit | core/memblk.c:106 | bit `j` of the combined word is bit `off + j` of the two words read as one; at `off == 0` it is that of the first word or of what the undefined shift delivers |
| Scan.FitFrom | core/memblk.c:80-144 | the reference search: the least start whose run is clear, none if there is none |
| Scan.Segment | core/memblk.c:104-141 | every iteration moves on by at most 64 positions and takes them for clear and then set ones as its window shows them |
| Scan.SeenBits | core/memblk.c:102-142 | the iterations cover the bitmap; a used bit is seen set, and a bit seen set is used or delivered by the undefined shift |
| Scan.SearchHonest | core/memblk.c:86-144 | whatever the undefined shift delivers, an answered run is free |
| Scan.MixedWord | core/memblk.c:80-83 | a mixed word holds `z` clear bits and then at least one and at most `64 - z` set ones, counted by `skip_ones` |
| Scan.ScanStep | core/memblk.c:102-142 | every iteration settles the search at `window_start`, or carries the window on, or starts a new one, further on |
| Scan.ZeroAdvances | core/memblk.c:109-119 | a zero word settles the search at `window_start` or keeps the invariant at the next word boundary |
| Scan.OnesAdvances | core/memblk.c:122-127 | a full word keeps the invariant with an empty window at the next word boundary, further on |
| Scan.MixedAdvances | core/memblk.c:131-141 | a mixed word settles the search or keeps the invariant behind the set bits, further on |
| Scan.ShortBitmap | core/memblk.c:89-92 | the quick check is right: no run is longer than the bitmap |
| Scan.ScanWord | core/memblk.c:104-141 | one iteration settles the search or leaves the state that the next one starts with, further on |
| Scan.ScanWords | core/memblk.c:93-143 | the loop terminates with the first fit on what it sees |
| Scan.FindZeroSequence | core/memblk.c:86-144 | the word-wise scan is first fit on what it sees, for every value of the undefined shift and with the 64-bit product of line 89; nothing for length 0; an answered run is free |
| ScanReach.PlainSearch | core/memblk.c:102-142 | where the shift by 64 delivers nothing, the search is first fit on the bits within reach |
| ScanReach.SearchStaysInside | core/memblk.c:102-106 | that is the answer for the bitmap alone, for every request, if and only if the bitmap does not spill or an inner run is at least as long as the last one with its spill |
| ScanReach.GuardBit | core/memblk.c:106 | one set bit behind the bitmap keeps that search inside |
| Scan.LongerStretch | core/memblk.c:148 | searching more bits changes the answer exactly when only the longer stretch has a fit |
| ScanShift.FirstFitSeen | core/memblk.c:86-144 | the first fit is answered with if and only if the loop sees all of it |
| ScanShift.AlignedSeen | core/memblk.c:104-119 | a free run from a word boundary on is seen in full if and only if the undefined shift delivers no bit at its positions |
| ScanShift.InnerSeen | core/memblk.c:104-119 | a free run from inside a word on, where an iteration starts: seen in full if and only if it ends within 64 positions or the shift delivers no bit at its positions behind the next boundary |
| ScanShift.Reached | core/memblk.c:131-141 | an iteration starts at every free position behind a used one that is a word boundary or is seen clear |
| ScanShift.InWord | core/memblk.c:104-141 | once an iteration starts inside a word, all free positions of that word are seen |
| ScanShift.BoundaryHides | core/memblk.c:106-139 | an iteration at a boundary hides a free position behind a used one if and only if the shift shows it as set and nothing interrupts the set bits before it |
| ScanShift.HiddenIs | core/memblk.c:104-141 | the first position of a run inside a word is seen clear if and only if it is not so hidden by an iteration at the boundary of its word |
| ScanShift.HiddenKnown | core/memblk.c:104-141 | that does not depend on the iterations in the first word, behind used positions alone, or where the boundary is a free position behind a used one |
| ScanShift.SearchFindsFirst | core/memblk.c:86-144 | the exact condition under which the search answers with the first fit, for every value of the undefined shift |
| ScanShift.SearchBehindUsed | core/memblk.c:86-144 | behind used positions alone that is so if and only if the shift delivers no bit where the run is read at a boundary, nor at its first position |
| ScanShift.SearchForOne | core/memblk.c:86-144 | the first free position is answered with if and only if the shift delivers no bit there |
| ScanShift.SearchUndisturbed | core/memblk.c:86-144 | for every bitmap it is enough that the shift delivers no bit where the run is read at a boundary, nor at its first position |
| ScanShift.MaskedSearch | core/memblk.c:106 | the same on x86-64 in terms of the bitmap: necessary and sufficient conditions, which agree for runs at a word boundary, behind used positions alone, and for one block |
| ScanShift.MaskedSearchMisses | core/memblk.c:106 | a bitmap with 64 free blocks on which the x86-64 search for one finds none |
| ScanShift.MaskedWindowExact | core/memblk.c:106 | the x86-64 shift reads the same window as one that gives 0 if and only if the position is off a word boundary or the next word adds no bit |
| MemoryMap.PageAlign | core/init/x86_64/BIOS/page.h:28-33 | the least page boundary not below the address, or 0 where that leaves 64 bits |
| MemoryMap.MemConfig.constructor | core/init/x86_64/BIOS/init.c:89-95 | 32 zeroed records |
| MemoryMap.MemConfig.RecordEntry | core/init/x86_64/BIOS/memory.c:36-88 | one entry appends its record, or nothing when an ignored RAM entry steps the counters back, and adds its pages |
| MemoryMap.MemConfig.InitMemory | core/init/x86_64/BIOS/memory.c:24-92 | the records are exactly those of the entries up to the first type outside 1 to 4, in order, but for RAM without a page; `ramcounts` is the sum of RAM pages modulo 2^32 |
| MemoryMap.KeptRecords | core/init/x86_64/BIOS/memory.c:31-89 | every entry reached leaves its record: base, page count, 2048 for RAM with a page, base, length / 1024, 1 for types 2 to 4; there is no other record, and the order is that of the table |
| MemoryMap.RecordsUnique | core/init/x86_64/BIOS/memory.c:31-89 | that determines the records |
| MemoryMap.PageCountIs | core/init/x86_64/BIOS/memory.c:47-54 | the page count of every range in page numbers, also where start or end leave 64 bits |
| MemoryMap.PageCountExact | core/init/x86_64/BIOS/memory.c:47-54 | the count is the number of aligned pages wholly inside the range if and only if end and rounded-up start both or neither leave 64 bits |
| MemoryMap.BlocksInside | core/init/x86_64/BIOS/memory.c:47-54 | the pages counted fit in the range from its raw base, unless only the rounded-up start leaves 64 bits |
| MemoryMap.CountsAgree | core/init/x86_64/BIOS/memory.h:56-77 | `ramcounts` is the number of blocks that are written if and only if that number fits in 32 bits |
| MemoryMap.BlocksModulo | core/init/x86_64/BIOS/memory.h:58-77 | the two loops count the same number of blocks modulo 2^32 |
| MemoryMap.KeptDisjoint | core/init/x86_64/BIOS/memory.c:31-89 | disjoint RAM ranges leave records whose 2 MiB pages are disjoint |
| MemoryMap.BlocksOfTable | core/init/x86_64/BIOS/memory.h:61-67 | for disjoint RAM ranges every block lies inside a RAM range and no two blocks overlap |
| Coverage.BlocksAre | core/init/x86_64/BIOS/memory.h:58-77 | an address becomes a block if and only if it is that of a page counted, modulo 2^32, in a RAM entry that is reached, laid out from its base |
| Coverage.PagesCounted | core/init/x86_64/BIOS/memory.h:61-67 | such an entry is given as many blocks as it has whole pages |
| Coverage.PagesBecomeBlocks | core/init/x86_64/BIOS/memory.h:67 | its whole pages are blocks if and only if it starts at a page boundary |
| Ring.ListInit | core/list.h:23-28 | a node alone is a ring |
| Ring.ListAppend | core/list.h:30-37 | the ring with the node right behind the entry; nothing changes for a null pointer |
| Ring.ListInsertToHead | core/list.h:39-46 | the ring with the node right before the entry; nothing changes for a null pointer |
| Ring.ListDel | core/list.h:48-55 | the ring without exactly that node, whose links are null; a ring of one is left alone |
| Ring.IsListEmpty | core/list.h:57-59 | true exactly for a null pointer or a ring of one |
| Ring.ListLength | core/list.h:69-78 | terminates on every ring, from any member, with its size minus one |
| Ring.AppendThenDel | core/list.h:30-55 | deleting what was appended gives every member its old links back |
| Ring.InsertThenDel | core/list.h:39-55 | deleting what was inserted does too |
| Ring.InsertedIsRing | core/list.h:30-46 | which links make the spliced-in node part of one consistent cycle |
| Ring.RemovedIsRing | core/list.h:48-55 | which links leave one consistent cycle without the member |
| Ring.Rotated | core/list.h:6-11 | a ring read from any other member is a ring |
| Ring.RingUnique | core/list.h:69-78 | the links determine the ring: two rings with a common first member are equal |
| Runs.MarkedBits | core/memblk.h:57 | exactly the part of the range in its first word is set |
| Runs.MarkExact | core/memblk.h:57 | a free range is marked exactly if and only if it lies in one word, a whole word only if the undefined shift gives all ones |
| Runs.FoundFree | core/memblk.c:148 | on every machine, a run of blocks that is found is free |
| Runs.StepSafe | core/memblk.c:65-78 | on every machine, one call keeps safety if and only if its guard holds |
| Runs.RunSafe | core/memblk.c:146-168 | on every machine, a run of calls is safe in every state if and only if every call is guarded |
| Runs.NothingTakenBack | core/memblk.c:146-168 | in every run, guarded or not, used blocks stay used and grants are never withdrawn |
| Requests.RunAcross | core/memblk.c:148 | when bits have a run that the blocks alone do not have, in lengths of clear runs |
| Requests.SlackStays | core/main.c:71 | the bits of the last bitmap word that are no blocks stay clear from boot through every guarded run |
| Requests.NoFreeRun | core/memblk.c:146-149 | a request that no free run meets is answered, with blocks that do not exist, only if some run behind the blocks is long enough, and where the shift delivers nothing if and only if |
| Requests.AnsweredAnyway | core/memblk.c:148 | on every machine, a run among the words searched, where the shift delivers no bit, is enough for an answer |
| Requests.SlackOverruns | core/memblk.c:148 | the last free blocks and the slack alone are enough for blocks that do not exist to be answered |
| Requests.UsedBehind | core/memblk.c:148 | when everything behind the bitmap is used, such a request is refused if it asks for more than those, and where the shift delivers nothing only then |
| Requests.FullOverruns | core/memblk.c:146-168 | with all blocks used, a request for one is answered with the block behind the last if and only if the shift delivers no bit there; the heap then moves and its bit is set |
| Requests.FirstInMemory | core/memblk.c:148 | the first free run of blocks is the first fit of all that the search reads |
| Requests.FreeRun | core/memblk.c:148 | when a request that a free run meets is answered with the first such run, on every machine |
| Requests.FreeRunX86 | core/memblk.c:148 | the same on x86-64, in terms of what the search reads |
| Requests.GuardedPlain | core/memblk.c:146-168 | the guard of a request in lengths of clear runs, without the search, where the shift delivers nothing |
| Requests.GuardedX86 | core/memblk.c:146-168 | the guard of a request on x86-64 without the search, where the first free run is free one word on or no run behind the blocks is long enough |
| Allocator.IntervalTest | core/memblk.h:43 | when the sign-bit test accepts an address |
| Allocator.IntervalExact | core/memblk.h:43 | the test is closed-interval membership for every address if and only if the interval is shorter than 2^63 |
| Allocator.LookupCovers | core/memblk.c:44 | the lookup accepts the first 16 KiB of a 2 MiB block and the byte behind them |
| Allocator.Gmd.IsAddressInMmap | core/memblk.c:39-51 | the least block whose bounds hold the address, not-found exactly when there is none |
| Allocator.Gmd.SimpleMalloc | core/memblk.c:65-78 | returns the heap top and moves it by the bytes asked for; the bitmap is not touched |
| Allocator.Gmd.SetRange | core/memblk.h:57 | the bitmap becomes `Runs.Mark` of the old one, word by word, and nothing else changes |
| Allocator.Gmd.SetBit | core/memblk.h:55 | of all bits of the bitmap, exactly that one becomes set |
| Allocator.Gmd.NewMemblk | core/memblk.c:33-37 | the block gets the list and the fragment count 0, since the length of a list of one leaves the entry out; its type is not stored |
| Allocator.Gmd.ClaimBlocks | core/memblk.c:158-161 | exactly the blocks from the 32-bit `start` below `blockcounts` get the list |
| Allocator.Gmd.Grant | core/memblk.c:151-164 | heap, bitmap, block array and fragment after a run is found, whether or not its blocks exist |
| Allocator.Gmd.AllocMemblk | core/memblk.c:146-168 | `NULL` exactly when the search finds no run; otherwise the new state is the step of the run model, with fragment, list and blocks written for the run found, and the heap moved by the sizes that `Structs` derives |
| Allocator.BlockLoopCovers | core/memblk.c:158 | the block loop reaches exactly the run if and only if the run starts at block 0 |
| Structs.FragmentLayout | core/memblk.h:81-92 | the fields of a fragment have one layout, 0, 8, 16, 20, 24, and take 32 bytes |
| Structs.NodeLayout | core/list.h:6-11 | a list node holds a fragment and two pointers in 48 bytes |
| Structs.MemblkLayout | core/memblk.h:127-134 | a block record takes 32 bytes |
| Structs.StructHolds | core/memblk.h:81-92 | memory of the size of a structure holds all its fields, aligned and disjoint |
| Structs.GrantTakes | core/memblk.c:151-154 | a grant takes 32 and 48 bytes of the heap, one behind the other, and keeps it aligned |
| Structs.ChunksHold | core/memblk.c:151-157 | those chunks hold the fields of the fragment and of the list node, and are disjoint |
| Boot.MemBitSize | core/memblk.h:41 | the bytes of the least number of whole words that hold `n` bits |
| Boot.InitBlock | core/init/x86_64/BIOS/memory.h:67-74 | one more block is expanded, and used exactly when it lies below the page above the heap |
| Boot.ExpandRecord | core/init/x86_64/BIOS/memory.h:61-76 | the blocks of one record are expanded, and the index moves on by their number |
| Boot.MemblkInit | core/init/x86_64/BIOS/memory.h:58-77 | the block array is filled exactly, with the addresses of the RAM records in order |
| Boot.PlaceTables | core/main.c:65-77 | the addresses of the layout; core image, bitmap, block array and heap ascend without overlap and are large enough |
| Boot.LayoutExact | core/main.c:65-77 | each address is the first 1 KiB boundary behind what comes before it, the blocks behind eight times the bitmap and the heap behind 32 bytes a block; no other addresses are |
| Boot.StartKernel | core/main.c:56-82 | a block is free exactly when it lies at or above the page above the heap; the bits behind the last block are clear; nothing is handed out |
| Boot.BootFromTable | core/main.c:61-82 | from any firmware table to the boot state of that table, which is safe; every page counted in a reached RAM entry has its block; the bits behind the last block are clear |
| Boot.RunKeepsMemoryApart | core/main.c:65-88 | after any guarded run from boot, on every machine, memory of different block grants and of the heap is disjoint, byte by byte, and the bits behind the last block are clear |
| Structs.BootAligned | core/main.c:69-77 | the heap starts at a multiple of 8 |
| Structs.HeapOfGrants | core/memblk.c:146-168 | in a guarded run of block requests every grant moves the heap by 80 bytes |
| Boot.SafeApart | core/memblk.c:146-168 | a safe state keeps granted blocks apart from each other and from the heap in memory |
| Boot.HeapApart | core/memblk.c:65-78 | `simple_malloc` keeps memory apart if and only if the heap ends below the blocks handed out |
| BootRuns.DoubleGrant | core/memblk.c:162 | three requests after boot, on every machine whose shift delivers no bit there, that hand out a block twice |
| BootRuns.DoubleGrantX86 | core/memblk.c:162 | the same on x86-64, as long as the bit behind the bitmap is clear |
| BootRuns.RequestsAtBoot | core/memblk.c:146-168 | requests after boot with one free block: up to 64 blocks are handed out from block 0 on if and only if the shift delivers no bit at their positions |
| BootRuns.HeapMeetsBlock | core/memblk.c:65-78 | after boot and one grant, heap memory and the block are apart if and only if the heap ends at or below the page boundary above the boot heap |
| Structs.OneBlockGrant | core/memblk.c:146-168 | heap, chunks and grant after that boot and one request, in numbers |
| Itoa.BaseTestExact | core/print.c:55 | the sign-bit test accepts exactly bases 2 to 36 |
| Itoa.DigitCharIsEntry | core/print.c:45-50 | the digit characters are the entries of the two tables |
| Itoa.Pad | core/print.c:144-148 | the padding loop writes as many characters as the counter says and leaves it negative |
| Itoa.PutDigits | core/print.c:190-194 | writes the stored digits in reverse order |
| Itoa.WriteDigits | core/print.c:92-121 | the division loop stores the digits, least significant first |
| Itoa.Measure | core/print.c:58-138 | the counters after sign, prefix and field width are taken off |
| Itoa.WriteNumber | core/print.c:141-200 | the writing loops put out blanks, sign, prefix, zeros, digits and blanks |
| Itoa.ItoaK | core/print.c:36-203 | writes exactly `Render` at the position, the text that `Numerals.RenderExactly` describes, and returns the position behind it; nothing for a base out of range |
| Itoa.RenderLength | core/print.c:123-202 | the length of every rendering in sign, prefix, digits, precision and width |
| Itoa.RenderFits | core/print.c:123-202 | the rendering has exactly the width of the field if and only if sign and prefix fit and the precision does not exceed the digits or the room, or no room is left |
| Itoa.AtMost64Digits | core/print.c:39 | at most 64 digits, for every number and base |
| Itoa.RenderValue | core/print.c:91-138 | the digits shown, read back, are the magnitude modulo base^k, and all of it when no digit is cut |
| Itoa.EvalLowDigits | core/print.c:99-120 | the `k` lowest digits make the number modulo base^k |
| Numerals.NumeralUnique | core/print.c:92-121 | a number has one numeral in each base |
| Numerals.DigitsNumeral | core/print.c:92-121 | the digits that the division loop writes are that numeral, in the case of the flag |
| Numerals.RenderShows | core/print.c:60-202 | every rendering shows `-num` behind a minus sign, `num`, or `num + 2^64`, with sign and prefix by the flags; blanks in front, blanks behind, or zeros between prefix and digits fill the field; a narrow field keeps the last digits |
| Numerals.RenderExactly | core/print.c:36-203 | and it is the only text that does |
| Numerals.ReadLast | core/print.c:129-134 | the last digits of a number are its remainder |
| Numerals.ZeroPadded | core/print.c:175-194 | a zero-padded number is sign, prefix and as many digits as fill the field, the number modulo that power of the base |
| Itoa.AtoiK | core/print.c:27-34 | the value of the digits up to the first non-digit in a 32-bit `int`, and the pointer left there |
| Itoa.DecimalRoundTrip | core/print.c:27-203 | `atoi_k` reads the plain decimal rendering and stops right behind it; it returns the number if and only if that fits in an `int` |
| Format.ReadSpec | core/print.c:225-304 | the flag loop, width, precision and qualifier deliver the parts of the directive and stop at the conversion character |
| Format.WriteChar | core/print.c:310-327 | `%c`: the character with blanks before or behind it |
| Format.WriteString | core/print.c:329-363 | `%s`: the string cut to the precision, with blanks before or behind it |
| Format.WriteConversion | core/print.c:308-448 | every conversion writes its text and consumes its arguments |
| Format.VsprintfK | core/print.c:207-452 | terminates on every format, writes its text, the one that `Conversions` describes directive by directive, and a terminator, and nothing else, and returns the length of the text |
| Format.FormatAppend | core/print.c:216-451 | a format split behind a complete directive prints as its parts do, arguments consumed in order |
| Format.SplitsAnywhere | core/print.c:216-451 | the first part can be split off for every continuation if and only if it ends with a complete directive |
| Format.DoubledPrintsBack | core/print.c:430-434 | doubling the percent signs of any string makes it print back as that string |
| Format.UnsignedDecimal | core/print.c:408-413 | `%u` prints a 32-bit value if and only if it is below 2^31 |
| Conversions.AsInt32Exact | core/print.c:413 | a 32-bit argument is the two's complement value of its low 32 bits |
| Conversions.AsInt64Exact | core/print.c:411 | a 64-bit argument is that of all its bits |
| Conversions.PartsReadBack | core/print.c:225-304 | reading a directive gives back the flags, width, precision and qualifier it was written from, given as digits or taken as arguments, and stops at its conversion |
| Conversions.PrintsUnsigned | core/print.c:365-402 | `%b`, `%o`, `%x`, `%X`: the 32 or 64 bits of the argument in base 2, 8, 16, in the right case; the arguments left |
| Conversions.PrintsPointer | core/print.c:381-390 | `%p`: all 64 bits in base 16, by default on 16 zero-padded digits |
| Conversions.PrintsSigned | core/print.c:404-414 | `%d`, `%i`: the two's complement value of the argument |
| Conversions.PrintsWidened | core/print.c:408-414 | `%u`: that value widened to 64 bits, without a sign |
| Conversions.PrintsChar | core/print.c:310-327 | `%c`: the character in a field of the width, on the side that `-` selects |
| Conversions.PrintsString | core/print.c:329-363 | `%s`: the string up to its end and to the precision, in a field of the width |
| Conversions.PrintsNull | core/print.c:331-335 | nothing for a null pointer |
| Conversions.PrintsOther | core/print.c:416-447 | `%%`, `%n` and unknown conversions |
| Conversions.AmongText | core/print.c:216-451 | between two pieces of text a directive prints what it prints alone |
| Conversions.HexAddress | core/main.c:49 | `%#018lx` prints every 64-bit number as `0x` and its sixteen digits |
| Conversions.KernelAddress | core/main.c:47-49 | 0xffff800000001000 is printed as `0xffff800000001000` |
| Conversions.FiveDigits | core/init/x86_64/BIOS/memory.c:42 | `%05d` prints five characters: the digits of the number modulo 10^5, or a minus sign and four |
| Conversions.BitmapLine | core/main.c:85 | `%0*lb` prints as many binary digits as asked for: the low bits of the word |
| Cursor.TabWidth | core/print.c:501 | one to eight blanks, up to the next multiple of 8 columns |
| Cursor.Console.PutChar | core/print.c:510 | one drawing call at the pixel position of the cell |
| Cursor.Console.SettlePosition | core/print.c:515-523 | the end-of-line and end-of-screen checks |
| Cursor.Console.BackUp | core/print.c:489-496 | one cell back, or the pixel quantities from column 0 |
| Cursor.Console.Iterate | core/print.c:473-523 | one iteration, with the jump into the tab branch while blanks are pending |
| Cursor.Console.Show | core/print.c:471-525 | the loop terminates and does what typing the characters one by one does |
| Cursor.Console.Print | core/print.c:455-527 | formats and types the text, with the effect on the grid that `Lines` gives in coordinates; -1 and no effect for a character cell without size |
| Cursor.GridKept | core/print.c:473-523 | every character keeps the cursor in the grid if and only if the screen fits in 16 signed bits |
| Cursor.TextInGrid | core/print.c:471-525 | every text leaves the cursor in the grid |
| Cursor.BackspaceAtMargin | core/print.c:489-496 | backspace at column 0 leaves the cursor where it is, when cells are wider than a pixel and there is more than one column |
| Cursor.DrawnOnScreen | core/print.c:497-511 | a character is drawn on the screen if and only if it is not such a backspace |
| Cursor.PrintableText | core/print.c:508-523 | `n` printable characters move the cell index by `n`, modulo rows times columns |
| Lines.Newline | core/print.c:482-486 | a newline draws nothing and goes to column 0 of the next row, of row 0 behind the last |
| Lines.Backspace | core/print.c:487-498 | a backspace off column 0 goes back one cell and blanks it |
| Lines.BackspaceFromMargin | core/print.c:489-497 | at column 0 a backspace blanks a place given by pixel quantities taken for cells, and where it goes from there |
| Lines.Tab | core/print.c:499-507 | a tab blanks the cells up to the next multiple of 8 columns, counted on over the end of the row |
| Lines.TabInRow | core/print.c:499-507 | the same in coordinates, short of the end of the row |
| Lines.TabOverEnd | core/print.c:499-523 | and over it |
| Lines.TextEnds | core/print.c:471-525 | where text without backspaces leaves the cursor |
| Glyph.PutPixel | core/init/x86_64/BIOS/init.c:40-46 | the bytes of one pixel |
| Glyph.NextPixel | core/init/x86_64/BIOS/init.c:37-38 | halving the mask selects the font bit of the next column |
| Glyph.PutPixels | core/init/x86_64/BIOS/init.c:34-59 | the mask walks from bit 7 to bit 0, and each bit selects the colour of its pixel |
| Glyph.PutRow | core/init/x86_64/BIOS/init.c:33-59 | one glyph row of eight pixels, the rest of the buffer as before |
| Glyph.PutRows | core/init/x86_64/BIOS/init.c:31-61 | sixteen rows, one screen width apart |
| Glyph.PutcharFramebuffer | core/init/x86_64/BIOS/init.c:23-63 | the painted buffer; unchanged when the pixel depth is not a whole number of bytes; all writes inside the buffer |
| Glyph.PixelOfByte | core/init/x86_64/BIOS/init.c:33 | every byte belongs to exactly one pixel |
| Glyph.PaintedPixel | core/init/x86_64/BIOS/init.c:31-61 | inside the cell each pixel has the colour its font bit selects, outside it what was there before |
| Glyph.BlueFirst | core/init/x86_64/BIOS/init.c:42 | the bytes of a pixel are blue, green, red and 0 |
| Glyph.RowOfInk | core/init/x86_64/BIOS/init.c:34-38 | column 0 is the most significant bit of a glyph row |
| Display.DrawAll | core/print.c:497-511 | the drawing calls of a text paint their glyphs one over the other |
| Display.ShownPixel | core/print.c:497-511 | after any drawing calls a pixel shows the last glyph drawn over it, or what was there |
| Display.TextOnScreen | core/print.c:471-525 | text is drawn on the screen if and only if no backspace at column 0 draws off it |
| Display.PrintedText | core/print.c:455-527 | a printable text that fits on the screen can be read off the frame buffer, each character in its cell |
| Lines.PrintedCell | core/print.c:455-527 | text without backspaces, up to a screenful, can be read off the frame buffer byte by byte: each character in its cell, with the glyph of its code, blanks in the cells a tab passes |
| Lines.PrintedLine | core/print.c:455-527 | line `k` is read off row `k` |
| Display.PrintOn | core/print.c:455-527 | what `print` leaves in the frame buffer, for every text that draws on the screen |
| Fat12.ChsInverts | bootloader/floppy/loader.asm:745-767 | LBA to CHS is a bijection between the 2880 sectors and the floppy's addresses |
| Fat12.ChsNext | bootloader/floppy/loader.asm:745-767 | consecutive sectors follow one another along a track, then on the other head, then on the next cylinder |
| Fat12.AreasFollow | bootloader/floppy/mbr.asm:84-108 | tables, directory and data follow one another; cluster 2 is the sector right behind the directory, and the first table holds the entries of all data clusters |
| Fat12.ReadSectors | bootloader/floppy/loader.asm:737-796 | reading by CHS delivers the sectors of that LBA |
| Fat12.DecodePacked | bootloader/floppy/loader.asm:829-861 | decoding inverts the packing of two 12-bit entries in three bytes |
| Fat12.GetFatEntry | bootloader/floppy/loader.asm:821-864 | the entry of every cluster, also where it straddles two sectors |
| Fat12.PackedChain | bootloader/floppy/loader.asm:306-314 | following packed entries gives the chain of the disk |
| Fat12.ChainAcyclic | bootloader/floppy/loader.asm:306-308 | a chain that ends has no cycle |
| Fat12.ChainUnique | bootloader/floppy/loader.asm:263-314 | the first cluster determines the chain |
| Fat12.CopySector | bootloader/floppy/loader.asm:284-292 | one sector is copied and nothing else changes |
| Fat12.LoadKernel | bootloader/floppy/loader.asm:263-314 | loading terminates with the sectors of the chain in order from the offset on, and nothing else changes |
| Fat12.LoadLoader | bootloader/floppy/mbr.asm:215-228 | every 512-byte slot of the segment holds the last sector loaded there, or what it held before |
| Fat12.ShortFile | bootloader/floppy/mbr.asm:215-228 | a file of at most 128 sectors is there whole, in order |
| Fat12.EndTest | bootloader/floppy/mbr.asm:219-228 | from the first cluster of a file the code follows a chain that ends if and only if the file's end mark is 0xFFF; with another mark the next sector does not exist |
| Fat12.CompareName | bootloader/floppy/mbr.asm:157-168 | all eleven characters are equal |
| Fat12.SearchSector | bootloader/floppy/mbr.asm:146-174 | the first of sixteen entries with the name, none exactly when there is none |
| Fat12.SearchRoot | bootloader/floppy/mbr.asm:133-183 | the first of 224 entries with the name, none exactly when there is none; its sector stays in the buffer |
| Fat12.EntryReadBack | bootloader/floppy/mbr.asm:189-201 | name and first cluster are read back from the bytes of a directory entry |
| Fat12.LoadByName | bootloader/floppy/mbr.asm:133-231 | from the name to the loaded file: the chain of the first matching entry, or nothing |
| Fat12.SearchBoth | bootloader/floppy/loader.asm:184-229 | the kernel is found if and only if its entry is in the directory sector that holds the loader's |

## Left out

- UEFI loader: firmware protocol calls and printing only.
- Interrupt handlers, descriptor tables, port I/O, VBE mode choice, CR and GDT writes.
- Inline-assembly string functions, `memset` and `memcpy`: the memory they clear is modelled as
  cleared where a later read depends on it; the contents of heap memory are not modelled.
- `free_memblk` is declared and never defined; the `TEMPLATE` files, build and linker scripts.
- Floppy retries: reading always succeeds.  Neither a failing disk nor the limits of a firmware read across a
  track boundary are modelled.
- Scan.FindZeroSequence: the word behind the bitmap is required because the code reads it.
- ScanShift.SearchFindsFirst: for a run inside a word whose first position the shift shows as set, behind free and used positions in turn, the condition names whether an iteration starts at the boundary of that word (`StartsAt`), which takes going through the words before it; `ScanShift.HiddenKnown` lists when it does not.
- ScanShift.MaskedSearch: for such runs, one necessary and one sufficient condition.
- Requests.GuardedX86: exact where the first free run is free one word on; elsewhere the search may answer with a later run, whose guard is `Runs.Guarded`.
- Requests.NoFreeRun: on a machine whose shift by 64 delivers bits, the condition is necessary; `Requests.AnsweredAnyway` is the sufficient one there.
- Allocator.Gmd.Grant: what the block loop writes behind the block array, and the mark behind the bitmap, are not modelled.  The loop writes onto the heap, and so possibly onto the fragment itself, which `Overwritten` then leaves open; with 2^32 blocks or more asked for and found the loop does not end (`Endless`).
- Allocator.Gmd.ClaimBlocks: block counts of 2^32 and more are kept from it, since the loop of the source does not end on them; `Allocator.Gmd.AllocMemblk` answers `Endless` there.
- Allocator.Gmd.AllocMemblk: as for `Allocator.Gmd.Grant`.
- Requests.GuardedPlain: for machines whose shift by 64 delivers nothing; `Requests.GuardedX86` is the one for x86-64.
- Allocator.Gmd.SetRange: the value of a shift by 64 or more is the parameter `wild`, since C does not define it.
- Allocator.LookupCovers: for the 2048 KiB blocks that the boot sequence records, whose bound does not leave 64 bits.
- Boot.PlaceTables: the end of the core image is taken to lie within 64 TiB above the kernel's base address.
- Boot.RunKeepsMemoryApart: RAM ranges that are disjoint and do not reach beyond the kernel's linear mapping (2^47 bytes); the firmware map is an input sequence of 32 entries.
- Itoa.ItoaK: the width counters are unbounded, so widths near the limits of a 32-bit `int` are not modelled as the C code would treat them.
- Coverage.PagesCounted: entries that do not reach beyond 2^64 - 2 MiB and have fewer than 2^32 pages; `Coverage.BlocksAre` covers every table.
- Coverage.PagesBecomeBlocks: as for `Coverage.PagesCounted`, and disjoint RAM ranges.
- Structs.FragmentLayout: alignment as on x86-64, where a pointer has 8 bytes.
- Conversions.PartsReadBack: for directives whose width does not start with 0, which would be a flag; what other formats print is `Format.Formatted`.
- Numerals.ZeroPadded: for a precision of at most 1, so that it adds no digits.
- Lines.PrintedCell: a text longer than the screen draws over its own beginning; backspaces are in `Lines.Backspace` and `Cursor.DrawnOnScreen`.
- Lines.PrintedLine: lines that leave room in their row; `Lines.PrintedCell` covers those that go on in the next.
- Itoa.AtoiK: signed overflow, which C leaves undefined, wraps around in two's complement; so does the negated width of a `*`.
- Itoa.RenderFits: the field width and the precision are unbounded integers.
- Format.VsprintfK: `%n` consumes its argument and its pointer write is dropped; a missing argument, or one of another kind, delivers 0 or a null pointer, where C leaves it undefined; the buffer is required to be large enough, which the code does not check.
- Cursor.Console.Print: the text is required to fit the 4096-byte buffer, which the code does not check; the drawing itself is added in `Display.PrintOn`.
- Display.PrintOn: for the 8 by 16 cells and pixel depths of one to four bytes, and text that draws on the screen (`Display.TextOnScreen`); beyond it the code writes outside the frame buffer or onto other pixels.
- Cursor.PrintableText: on screens of fewer than 2^15 columns and rows; `Cursor.GridKept` says what happens on larger ones.
- Glyph.PutcharFramebuffer: for cells inside the frame buffer and at most 32 bits a pixel; beyond that the code writes outside it, or shifts a colour too far. The font is an arbitrary 16-byte glyph.
- Fat12.LoadKernel: for chains of data clusters ending in 0xFFF; a cyclic chain makes the code load for ever, and the loader's memory limit is the size of the target.
- Fat12.ShortFile: one direction; a longer file cannot be whole in one segment.
