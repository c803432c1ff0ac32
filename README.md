# Paged address translation, modelled in Dafny

The program simulates paged memory. A logical address is split into a page
number and an offset by `PAGE_SIZE` (256). A page/frame table of `NUM_PAGES`
(1024) entries maps each page to a frame or to -1 ("unmapped"). Physical
memory has `NUM_FRAMES` (8) slots, each holding the page it contains or -1
("empty"). On a miss the page is loaded: first fit into the lowest empty
frame, or else into the frame the table already names for that page. The
physical address is `frame * FRAME_SIZE + offset`, with `FRAME_SIZE` = 1024.
The driver pre-fills the table with `page % NUM_FRAMES` and then translates
randomly generated addresses.

The project has three modules:

- `Address` (`address.dfy`) holds the constants and the pure arithmetic. It
  models C++'s truncating `/` and `%`, the address split, the physical-address
  formula and the address generator. The value `rand()` returned is a
  parameter.
- `PagingModel` (`paging_model.dfy`) describes the table and memory as one
  value, `Memory`. `Load` says what loading a page does to that value, and
  `Translate` what one translation step does. The lemmas about them are
  proved here.
- `Pager` (`pager.dfy`) holds the class `PagedMemory` over two arrays, which
  mirror the two `vector<int>`s updated in place. Its methods are proved to
  change the arrays exactly as `Load` and `Translate` say. `RunTrials` is the
  driver's loop over a sequence of random draws.

Where a textbook pager would behave differently, the model follows the
code:

- Eviction does not unmap the evicted page: its entry goes stale
  (`FallbackLeavesStaleEntry`).
- The victim is the frame already recorded for the incoming page. This is
  neither FIFO nor LRU.
- There is no "already resident" error. Loading a page that is already
  mapped still takes the first empty frame.
- There is no "address out of range" error. An address in (-256, 0) gives
  page 0 and a negative offset, because C++ `/` and `%` truncate toward zero.
  An address of -256 or below would index the table at a negative position,
  which is undefined behaviour, so `CanTranslate` excludes it.
- A miss with every frame full reads the table entry -1 and indexes physical
  memory at -1, which is undefined behaviour. `CanLoad` and `CanTranslate`
  exclude exactly this case (`MissNeedsEmptyFrame`).
- The table/memory consistency a pager is meant to keep says that memory is
  the inverse of the table's mapped entries, in both directions. It holds at
  a cold start and every translation keeps it (`TranslateKeepsConsistent`).
  Under it no two pages share a frame (`ConsistentIsInjective`) and no page
  sits in two frames (`ConsistentNoPageTwice`). The
  driver's pre-filled table breaks it (`PrefilledNotConsistent`). Because the
  table is pre-filled, the driver never takes the miss path
  (`PrefilledNeverFaults`, `RunTrials`).

## Model

| member | source | states |
|---|---|---|
| `Address.GenerateLogicalAddress` | HW3OperatingSystems.cpp:15-17 | a generated address lies in [0, NUM_PAGES * PAGE_SIZE) and equals the draw when the draw is already in range |
| `Address.PageNumber` | HW3OperatingSystems.cpp:56 | C++ `/` by PAGE_SIZE, truncating toward zero: for a non-negative address the page's byte range contains the address, for a negative one the quotient is rounded up; `PageNumberRange` and `SplitRoundTrip` state its range and inverse |
| `Address.Offset` | HW3OperatingSystems.cpp:57 | C++ `%` by PAGE_SIZE: page number * PAGE_SIZE + offset is the address and the offset has the address's sign; `SplitRoundTrip` bounds it |
| `Address.PhysicalAddress` | HW3OperatingSystems.cpp:65 | frame * FRAME_SIZE + offset: for an offset below FRAME_SIZE, dividing by FRAME_SIZE gives back the frame and the remainder the offset; `PhysicalAddressDecode` adds the bounds |
| `Address.SplitRoundTrip` | HW3OperatingSystems.cpp:56-57 | page number * PAGE_SIZE + offset gives back the address for every address; the offset is in [0, PAGE_SIZE) for non-negative addresses and in (-PAGE_SIZE, 0] for negative ones |
| `Address.PageNumberRange` | HW3OperatingSystems.cpp:56-59 | the page number is non-negative iff the address exceeds -PAGE_SIZE, and below NUM_PAGES iff the address is below NUM_PAGES * PAGE_SIZE |
| `Address.GeneratedAddressValid` | HW3OperatingSystems.cpp:55-59 | every generated address has a page number in [0, NUM_PAGES) and an offset in [0, PAGE_SIZE), so the "Invalid Page Number" branch is never taken |
| `Address.PhysicalAddressDecode` | HW3OperatingSystems.cpp:65 | for a frame in range and an in-page offset, the physical address divided by FRAME_SIZE is the frame, the remainder is the offset, and the address is below NUM_FRAMES * FRAME_SIZE |
| `Address.PhysicalAddressInjective` | HW3OperatingSystems.cpp:65 | distinct in-range (frame, offset) pairs never yield the same physical address |
| `PagingModel.UnmappedTable` | HW3OperatingSystems.cpp:42 | the table as created has NUM_PAGES entries, all -1 |
| `PagingModel.EmptyFrames` | HW3OperatingSystems.cpp:45 | physical memory as created has NUM_FRAMES slots, all -1 |
| `PagingModel.CircularTable` | HW3OperatingSystems.cpp:48-50 | after the fill loop every entry p is p mod NUM_FRAMES, a valid frame |
| `PagingModel.FirstEmptyFrom` | HW3OperatingSystems.cpp:22-23 | the ascending scan finds an empty slot with no empty slot before it, or reports none exactly when every scanned slot is occupied |
| `PagingModel.Load` | HW3OperatingSystems.cpp:20-36 | after a load, both lengths are unchanged, the page's entry is a frame, and that frame holds the page |
| `PagingModel.LoadPreservesValid` | HW3OperatingSystems.cpp:20-36 | a load keeps every entry -1 or a frame and every slot -1 or a page |
| `PagingModel.LoadFirstFit` | HW3OperatingSystems.cpp:22-27 | when f is the lowest empty frame, the load puts the page in f, records f in the table, and changes no other slot or entry |
| `PagingModel.LoadFallback` | HW3OperatingSystems.cpp:32-35 | with all frames occupied, the page's entry must already be a frame; only that slot changes, it becomes the page, and the table ends identical |
| `PagingModel.FallbackLeavesStaleEntry` | HW3OperatingSystems.cpp:30-35 | a page sharing the victim frame keeps its entry, which now names a frame that no longer holds it |
| `PagingModel.MissNeedsEmptyFrame` | HW3OperatingSystems.cpp:32-34 | for an unmapped page, loading is defined iff some frame is empty |
| `PagingModel.Translate` | HW3OperatingSystems.cpp:56-73 | the step is a translation iff the page number is below NUM_PAGES, otherwise it reports the invalid page and changes nothing; a miss leaves the state equal to `Load` of the old state (first fit, nothing else changed), a hit changes nothing; a translation carries the split of the address and the physical address of the frame the table then holds; the state stays valid |
| `PagingModel.TranslateHitChangesNothing` | HW3OperatingSystems.cpp:60-65 | when the table already maps the page, the step performs no writes and uses that frame |
| `PagingModel.TranslateTwice` | HW3OperatingSystems.cpp:56-65 | translating the same address a second time is defined, changes nothing and returns the identical result |
| `PagingModel.TranslateBounds` | HW3OperatingSystems.cpp:65 | a translated physical address fits a C++ int; for a non-negative address it lies in physical memory and decodes to the table's frame and the offset |
| `PagingModel.PrefilledNeverFaults` | HW3OperatingSystems.cpp:48-65 | from the pre-filled table and empty memory, every translation with an in-table page is a hit: the state is unchanged and the frame is the page mod NUM_FRAMES |
| `PagingModel.ConsistentIsInjective` | HW3OperatingSystems.cpp:24-25 | when memory is the inverse of the table, no two mapped pages share a frame |
| `PagingModel.ConsistentNoPageTwice` | HW3OperatingSystems.cpp:24-25 | when memory is the inverse of the table, no page is held by two frames |
| `PagingModel.ColdStartConsistent` | HW3OperatingSystems.cpp:42-45 | the table and memory as created are valid and consistent in both directions |
| `PagingModel.PrefilledNotConsistent` | HW3OperatingSystems.cpp:45-50 | after the fill loop the table maps page 0 to frame 0 while frame 0 is empty, so consistency fails |
| `PagingModel.ColdFault` | HW3OperatingSystems.cpp:42-65 | from the state as created, translating an address of logical memory binds its page to frame 0, stores it in frame 0, changes nothing else, and yields the offset as physical address |
| `PagingModel.TranslateKeepsConsistent` | HW3OperatingSystems.cpp:56-65 | from a state where memory is the inverse of the table, a translation keeps both directions, since a miss can only be served by first fit into an empty frame |
| `Pager.PagedMemory.constructor` | HW3OperatingSystems.cpp:42-45 | creates fresh arrays with every table entry unmapped and every frame empty |
| `Pager.PagedMemory.FillCircular` | HW3OperatingSystems.cpp:48-50 | the table array becomes page mod NUM_FRAMES and memory is untouched |
| `Pager.PagedMemory.LoadPage` | HW3OperatingSystems.cpp:20-36 | the in-place scan and writes leave the arrays equal to `Load` of the old state |
| `Pager.PagedMemory.TranslateAddress` | HW3OperatingSystems.cpp:56-73 | the in-place step leaves the arrays and result equal to `Translate` of the old state |
| `Pager.RunTrials` | HW3OperatingSystems.cpp:54-74 | one result per draw; each is a hit on page a / PAGE_SIZE with offset a % PAGE_SIZE and physical address (page mod NUM_FRAMES) * FRAME_SIZE + offset |

## Left out

- Random number generation (`rand`, `srand(time(nullptr))`): the value `rand()` returns is a parameter of `GenerateLogicalAddress` and `RunTrials`.
- Console output: the load and eviction messages, the hexadecimal formatting, and the `logicalAddress != physicalAddress` guard that only decides whether to print. No event values are returned. A trial's page number and offset, and an invalid page number, are in the `Translation` result. The frame a load reports is the page's new table entry. The page an eviction reports is the old content of slot `table[p]`.
- The driver's fixed count of 10 trials: `RunTrials` takes any number of draws.
- The range of `rand()` (`RAND_MAX`, which the platform defines): any non-negative draw is admitted.
- Unbinding evicted pages, an "already resident" error, an "address out of range" error and a real FIFO or LRU policy: the code has none of them.
