# Virtual memory unit with a FIFO TLB and LRU page replacement

A model of the address-translation engine of `VMU_Page_Replacement/main.c`.
It is a simulator of a small virtual-memory unit. A 32-bit logical address
splits into an 8-bit page number and an 8-bit offset. The page is looked up
first in a 16-slot translation-lookaside buffer (TLB), which is refilled first
in, first out. A TLB miss falls back to a page table. A page-table miss is a
page fault: the page's 256 bytes are copied from a backing store into a
physical frame. Frames are handed out in order until all `frameAmount` of them
are in use. After that, each fault evicts the least-recently-used frame. Every
access stamps its frame with a global age counter, which then advances.

The whole engine is one immutable state record (`Mmu.State`). It holds:

- the TLB and its head index;
- the page table (page to frame, or -1) and the reverse frame table;
- the per-frame ages and the global age;
- the allocation counter, the hit and fault counters, and physical memory.

Each C routine is a pure function from state to state. `Mmu.Inv` is the state
invariant:

- every table has its configured size, the TLB head is in `[0, 16)` and
  `frameAllocated <= frameAmount`;
- the page table and the frame table are inverse on mapped entries;
- every non-empty TLB slot agrees with the page table;
- every frame in use was stamped with an age below the current age; frames
  not yet handed out keep their initial age 0.

Every translation preserves it.

Modules, following the source's parts:

- `Addressing`: `getNumber` and `getOffset`. Each left shift is written as a
  multiply modulo 2^32, and the unsigned right shift as a division.
- `Tlb`: `initTLB`, `searchTLB` and `insertTLB`, plus the invalidation loop of
  `dumpFrame`.
- `Lru`: the minimum-age scan of `dumpFrame`.
- `BackingStore`: the 256-byte page read of `loadFromBackStore`.
- `Mmu`: the state, `initPageTable`, `initPhysicalAddress`, `allocateFrame`,
  `dumpFrame`, `loadFromBackStore` and `getAddressValue`.
- `Replay`: translating a stream of addresses, as the driver loop does, and
  properties of whole runs.

`frameAmount` is a parameter of `Mmu.Init`. The source fixes it at 256
(`main.c:26`), which equals the number of pages, so with the shipped value
eviction never runs. The model covers every positive `frameAmount`.

The code computes the page number as `(address << 16) >> 24`, with the right
shift on an `unsigned int`. That is bits 15..8 of the address. Bits 31..16 of
the address are ignored, and `Addressing.GetNumberIsSecondByte` states which
bits are taken.

## Model

| member | source | states |
|---|---|---|
| Addressing.GetNumber | VMU_Page_Replacement/main.c:168-172 | the page number of any 32-bit address is in [0, 256) |
| Addressing.GetOffset | VMU_Page_Replacement/main.c:174-178 | the offset of any 32-bit address is in [0, 256) |
| Addressing.GetNumberIsSecondByte | VMU_Page_Replacement/main.c:168-172 | the page number is bits 15..8 of the address, that is (address mod 2^16) div 256, negative addresses included |
| Addressing.GetOffsetIsLowByte | VMU_Page_Replacement/main.c:174-178 | the offset is bits 7..0 of the address, address mod 256 |
| Addressing.Decompose | VMU_Page_Replacement/main.c:211 | page * 256 + offset is the low 16 bits of the address; for 0 <= address < 65536 it is the address itself |
| Addressing.Compose | VMU_Page_Replacement/main.c:168-178 | splitting page * 256 + offset gives back that page and that offset |
| Tlb.FirstMatch | VMU_Page_Replacement/main.c:56-61 | the index found is the lowest slot from the start index on that holds the page, or -1 exactly when no such slot holds it |
| Tlb.Search | VMU_Page_Replacement/main.c:53-63 | on a match, the frame of the first matching slot and one more hit; on no match, -1 and the TLB, head and hit count unchanged |
| Tlb.Insert | VMU_Page_Replacement/main.c:65-71 | only the slot at the head is overwritten, with (page, frame); the head becomes (head + 1) mod 16 and stays in range; the hits are unchanged |
| Tlb.InsertAllSlots | VMU_Page_Replacement/main.c:65-71 | a run of up to 16 inserts fills the slots from the head onward, wrapping, in insertion order; it leaves the rest alone and moves the head by the run length mod 16 |
| Tlb.InitTlb | VMU_Page_Replacement/main.c:43-51 | whatever the fresh buffer held, afterwards every slot is (-1, -1), the head is 0 and the hits are 0 |
| Tlb.InvalidateFrame | VMU_Page_Replacement/main.c:118-124 | every slot whose frame is the evicted frame becomes (-1, -1); every other slot, the head and the hits are unchanged |
| Tlb.FullCycleForgets | VMU_Page_Replacement/main.c:65-71 | after 16 inserts none of which carries a page, a lookup of that page misses: FIFO replacement has cycled the whole buffer |
| Tlb.InsertThenSearch | VMU_Page_Replacement/main.c:53-71 | a page inserted while no slot held it is found again with the inserted frame, counting one hit |
| Tlb.InvalidatedFrameNotFound | VMU_Page_Replacement/main.c:118-124 | after invalidation no lookup answers with the evicted frame |
| Lru.Scan | VMU_Page_Replacement/main.c:110-115 | the strict-< scan keeps the running minimum: afterwards the age it holds is at most every age and the frame is the first to carry it, or -1 exactly when nothing undercut the start value |
| Lru.LowestAgeFrame | VMU_Page_Replacement/main.c:107-115 | starting from the current age, the scan returns -1 exactly when no age is below it; otherwise the first frame of minimal age, whose age is below the start value |
| Lru.LowestAgeSkipsYounger | VMU_Page_Replacement/main.c:107-115 | when every age is below the current age the scan picks a frame, and never one whose age exceeds another frame's age |
| BackingStore.ReadPage | VMU_Page_Replacement/main.c:141-143 | the frame receives 256 bytes, byte i being the store's byte at page * 256 + i, or 0xFF (EOF as a char) past the end |
| BackingStore.ReadPageIsSlice | VMU_Page_Replacement/main.c:137-143 | with a full 64 KiB store a page read is exactly the slice [page * 256, page * 256 + 256) |
| Mmu.Init | VMU_Page_Replacement/main.c:149-166 | the starting state meets the invariant, with every page unmapped, every TLB slot empty and every counter zero |
| Mmu.DumpFrame | VMU_Page_Replacement/main.c:104-129 | with memory full, the victim is the first frame of minimal age; TLB slots pointing at it are emptied and the page it held is unmapped, with every other slot and mapping as before; its frame-table entry becomes -1 |
| Mmu.AllocateFrame | VMU_Page_Replacement/main.c:180-187 | while frames remain, the next fresh frame and one more allocated; once full, the LRU victim and the count unchanged; either way the frame is in range and nothing refers to it any more |
| Mmu.LoadFromBackStore | VMU_Page_Replacement/main.c:139-143 | the allocated frame records the page in the frame table and holds the page's 256 bytes; every other frame is untouched |
| Mmu.BindKeepsTables | VMU_Page_Replacement/main.c:89 | binding the faulting page to the freshly loaded frame restores the table shapes, the page/frame inverse and TLB agreement |
| Mmu.HandleFault | VMU_Page_Replacement/main.c:85-90 | one more fault; the page maps to the loaded frame and the frame records the page; copies stay copies; any other page whose mapping changed was the victim's page and is now unmapped |
| Mmu.HandleFaultTlb | VMU_Page_Replacement/main.c:118-124 | the TLB after a fault is the TLB before it with exactly the slots of the frame taken over emptied (none for a fresh frame); head and hits unchanged |
| Mmu.Resolve | VMU_Page_Replacement/main.c:79-90 | a TLB miss exactly when no slot holds the page; a hit is counted exactly when one does; a fault exactly when the page was unmapped; a mapped page keeps its frame |
| Mmu.ResolveTlb | VMU_Page_Replacement/main.c:79-90 | the TLB after the lookup half is the lookup's own result (one more hit on a match, untouched on a miss), further invalidated for the frame taken over when the page faulted |
| Mmu.CacheAndStamp | VMU_Page_Replacement/main.c:92-97 | on a TLB miss the mapping is cached, so a lookup of the page then finds the frame; the frame's age becomes the current age, the age advances by one, and the full invariant holds again |
| Mmu.CacheAndStampTlb | VMU_Page_Replacement/main.c:92-94 | a TLB hit leaves the TLB exactly as it was; a miss is exactly one FIFO insertion of (page, frame) at the head |
| Mmu.GetAddressValue | VMU_Page_Replacement/main.c:73-102 | preserves the invariant; afterwards the page is mapped (to the same frame if it already was) and the frame records the page; the frame's age is the old age and the age is one more; the byte returned is the frame's byte at the offset |
| Mmu.TranslateTlb | VMU_Page_Replacement/main.c:73-102 | after a translation, on a TLB hit the slots and head are unchanged and only the hit count rises; on a miss the TLB is the old one (with the slots of an evicted frame emptied after a fault) plus one insertion of (page, frame) at the old head, the head advancing mod 16 |
| Mmu.TranslateCaches | VMU_Page_Replacement/main.c:209 | after a translation the TLB holds the page and a repeat lookup answers with the frame the page table maps it to |
| Mmu.TranslateCounts | VMU_Page_Replacement/main.c:79-90 | a fault is counted exactly when both the TLB and the page table miss, and a hit exactly when the TLB holds the page; a fault takes the next fresh frame while one is left and the first LRU frame once none is |
| Mmu.TranslateOthers | VMU_Page_Replacement/main.c:85-90 | a translation changes another page's mapping only by unmapping the page whose frame it took over, and only on a fault with memory full |
| Mmu.GetAddressValueReadsStore | VMU_Page_Replacement/main.c:73-102 | if the frames in use hold copies of their pages, the byte returned is the store's byte at page * 256 + offset, and the frames still hold copies |
| Replay.StepReadsStore | VMU_Page_Replacement/main.c:73-102 | from frames that hold copies of their pages, one translation returns the store's byte at the address's low 16 bits and keeps the invariant and the copies |
| Replay.RunKeepsCopies | VMU_Page_Replacement/main.c:139-143 | a run that starts with every frame in use holding a copy of its page ends with the invariant and the copies intact |
| Mmu.FaultIntoFreshFrame | VMU_Page_Replacement/main.c:180-187 | a fault while frames remain maps the page to frame frameAllocated, and no other mapping changes |
| Mmu.MappedPageStays | VMU_Page_Replacement/main.c:79-83 | touching a mapped page changes no mapping, allocates nothing and faults nothing; only its frame's age moves |
| Mmu.FaultEvictsLru | VMU_Page_Replacement/main.c:104-129 | a fault with memory full unmaps the LRU frame's page and maps the faulting page to that frame; every other mapping is unchanged |
| Replay.Run | VMU_Page_Replacement/main.c:204-206 | translating a stream keeps the invariant, yields one byte per address, advances the age by the stream length and never moves the allocation counter backwards |
| Replay.UnmappedNotCached | VMU_Page_Replacement/main.c:118-126 | an unmapped page has no TLB slot |
| Replay.MappingInjective | VMU_Page_Replacement/main.c:140 | no frame holds two mapped pages |
| Replay.RunReadsStore | VMU_Page_Replacement/main.c:131-147 | every byte a run returns is the store's byte at the address's low 16 bits |
| Replay.ColdRun | VMU_Page_Replacement/main.c:85-90 | distinct, unmapped pages fault once each and never hit the TLB |
| Replay.ColdStart | VMU_Page_Replacement/main.c:159-166 | from the initial state, a stream of distinct pages faults on every one and hits never |
| Replay.YoungestSurvives | VMU_Page_Replacement/main.c:107-115 | with at least two frames, a page whose frame is strictly the youngest keeps its frame through the next translation |
| Replay.MostRecentSurvives | VMU_Page_Replacement/main.c:95-96 | with at least two frames, the page used by one translation still holds the same frame after the next: LRU never evicts the most recently used frame |
| Replay.RepeatHits | VMU_Page_Replacement/main.c:209 | translating an address on the page just translated hits the TLB, does not fault and changes no mapping |

## Left out

- The `main` driver (`main.c:189-221`) is not modelled. It does the file
  opening, the `fscanf` parsing, the CSV output, the percentage printing, and
  the `TLBHits--` that cancels its own verification lookup. All of that is I/O
  and reporting. `Replay.Run` models only its loop of translations.
- The file I/O of `loadFromBackStore` (`fopen`, `fseek`, `getc`, `fclose`) is
  not modelled. The store is a byte sequence given as a parameter.
- `getAddressValue` returns a signed `char`, which the driver prints as a
  signed number. The model keeps bytes as 0..255, because the
  reinterpretation only matters for printing.
- `malloc` leaves the frame table and physical memory uninitialised. The model
  starts them at -1 and zeros. No frame is read before it is loaded, and the
  frame table of a fresh frame is written before it is read, so nothing
  observable depends on the start values. The TLB's garbage, which `initTLB`
  overwrites, is a parameter of `Tlb.InitTlb`.
- Tlb.Search, Mmu.HandleFault, Mmu.Resolve, Mmu.TranslateCounts and
  Mmu.CacheAndStamp do not model counter overflow. `TLBHits` and `pageFaults`
  are C `int`s (`main.c:39-40`), so their `++` past 2^31 - 1 translations
  overflows, which C leaves undefined. `age` is an `unsigned long` and wraps
  after 2^64. The model's counters are unbounded naturals, so "one more hit",
  "one more fault" and "the age is one more" are stated for every input.
- `lowestAge` in `dumpFrame` is an `int` while `age` is an `unsigned long`, so
  past 2^31 accesses the comparison would see a truncated value. Ages are
  unbounded naturals in the model, so this wrap-around is not modelled.
- The left shifts in `getNumber` and `getOffset` (`main.c:169`, `main.c:175`)
  act on a signed `int`. `address << 24` overflows for every address of 128
  or more, and `address << 16` for every address of 32768 or more, as well as
  for negative addresses. C leaves any such shift undefined. The model gives
  it the wrap-around (two's-complement) meaning that compilers implement.
- Mmu.Init requires frameAmount > 0. With no frames, `dumpFrame` would index
  frame -1.
- Fixed end-to-end traces are not stated as separate lemmas. For example, the
  addresses 0, 0, 256 from a fresh start, on a store whose only non-zero byte
  is byte 0 with value 65, read 65, 65 and 0, with two faults and one TLB hit.
  Such outcomes follow from `Replay.RunReadsStore`, `Mmu.FaultIntoFreshFrame`,
  `Mmu.TranslateCounts`, `Replay.UnmappedNotCached`, `Replay.RepeatHits`,
  `Mmu.MappedPageStays` and `Mmu.FaultEvictsLru`.
