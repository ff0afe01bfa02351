# Virtual-texture page streaming, modelled in Dafny

This project models the page-residency core of a virtual-texture renderer.
The renderer streams 1024×1024 pages of a large virtual texture into a
4096×4096 physical atlas of 4×4 slots. The model covers two components.

* **`PageManager`** (`src/page_manager.h`) is the frame-thread streaming
  state machine. Each frame it decodes a feedback buffer of 32-bit words
  into an ordered, de-duplicated set of `(lod, x, y)` page requests. It
  dispatches a load for every request whose page-table cell is empty and
  that is not already in flight. Each dispatch takes the next slot of a
  shuffled slot permutation. Finished loads are queued, and
  `FlushUploadQueue` drains the queue. For each record it uploads the page
  into the atlas, writes the packed entry `1 | x<<1 | y<<9` into the page
  table, and clears the request from `processing`.
* **`PageAllocator`** (`src/page_allocator.h`) is the one-shot allocator.
  It shuffles the slot indices once and hands them out as grid coordinates
  until it reports "Out of memory!".

The state is an immutable record, and every operation is a pure function
or a method over it. The loader's pending callbacks are part of the state
(`loads`). A completion is a separate event, and completions may run in
any order between frames (`StreamingEvents.Step`).

Files:

* `wrappers.dfy` holds `Option` and `Result`, the latter standing for
  `std::expected<T, std::string>`.
* `bits.dfy` holds the byte/integer conversion facts.
* `permutations.dfy` holds the identity fill, the shuffle and the
  pigeonhole lemma.
* `page_allocator.dfy` holds `PageAllocator`.
* `page_request.dfy` holds `PageRequest`, its ordering and feedback decoding.
* `page_entry.dfy` holds the packed table entries, the page table and the
  atlas geometry.
* `page_manager.dfy` holds the `PageManager` operations.
* `page_manager_invariant.dfy` holds the consistency invariant, its
  preservation and the event machine.
* `page_cache.dfy` holds the `ResidencyDecision` type.

Behaviour of the code that the model reproduces as written:

* `FlushUploadQueue` takes `upload_queue.back()` and then `pop_back()`
  (`src/page_manager.h:99-100`), so records are handled last-in, first-out.
  When two records target one cell, the entry of the EARLIEST record is
  the one left in the table (`Streaming.FlushWritesEarliest`).
* A failed load is only logged (`src/page_manager.h:128-130`). Its request
  stays in `processing` for good, so it is never requested again
  (`StreamingEvents.FailedLoadNeverRetried`).
* `page_table.IsResident(request.x, request.y)` takes no lod
  (`src/page_manager.h:87`). A resident cell therefore suppresses requests
  for that cell at every lod (`Streaming.IngestFeedback`).
* The manager takes slots from its own one-shot permutation `alloc_arr`
  (`src/page_manager.h:46`, `117-118`) and has no eviction. `alloc_idx` is
  never bounds-checked, and reading past slot 16 is undefined behaviour,
  so staying within the 16 slots is a precondition here.

Modelling choices:

* Bit operations on `uint32_t` are `bv32`. Fields are converted to and
  from integers through `bv8`, because every field fits in a byte.
* `v & 0xFFu` on a C++ `int` is the byte `v mod 256`. The int converts to
  `unsigned` modulo 2^32, and 256 divides 2^32.
* The RNG behind `std::ranges::shuffle` is a parameter `draws` of a
  Fisher–Yates pass, with draw `i` at most `i`. Every result is proved to
  be a permutation of the slot indices.
* `page_table.h` is not part of this model. The page table is a map from
  cells to 32-bit entries, zero where nothing was written. `IsResident`
  means the entry is nonzero.

## Model

| member | source | states |
|---|---|---|
| Permutations.Iota | src/page_allocator.h:29-31 | the fill loop leaves `alloc_arr[i] == i` for every index, over a vector of the requested size |
| Permutations.Shuffle | src/page_allocator.h:33-35 | for any random draws the shuffle only rearranges: same length, same multiset of values, and no repeats if there were none |
| Permutations.PermutationCovers | src/page_allocator.h:29-35 | a permutation of 0..n-1 contains every value below n (pigeonhole), so no slot is ever skipped |
| Allocation.NewAllocator | src/page_allocator.h:25-36 | the constructor yields `alloc_arr`, a permutation of 0..pages.x·pages.y−1, with index 0 and the given grid size |
| Allocation.SlotOf | src/page_allocator.h:43-46 | `(v % pages.x, v / pages.x)` lies in [0,pages.x)×[0,pages.y) and maps back to slot index v |
| Allocation.Alloc | src/page_allocator.h:38-51 | fails with "Out of memory!" exactly when alloc_idx ≥ pages.x·pages.y and then changes nothing; on success returns an in-grid slot whose index is `alloc_arr[alloc_idx]` and increments alloc_idx by one, leaving `alloc_arr` and `pages` unchanged |
| Allocation.RunOutcomes | src/page_allocator.h:38-51 | call i of a run of k calls returns the slot at permuted position alloc_idx+i while one is left and "Out of memory!" afterwards; the index stops at the capacity |
| Allocation.SucceedsExactlyCapacity | src/page_allocator.h:39-48 | from a fresh allocator call i succeeds if and only if i < pages.x·pages.y |
| Allocation.RunDistinct | src/page_allocator.h:29-48 | no two successful calls return the same slot |
| Allocation.RunCovers | src/page_allocator.h:29-51 | pages.x·pages.y calls from a fresh allocator hand out every cell of the grid |
| Requests.LessIsStrictTotalOrder | src/page_manager.h:31 | the defaulted `operator<=>` compares (lod, x, y) lexicographically; `Less` is irreflexive, asymmetric, transitive and total, so it orders the `std::set` |
| Requests.DecodeWord | src/page_manager.h:75-81 | the sentinel 0xFFFFFFFF and only it yields no request; any other word yields lod < 32 and 0 ≤ x, y < 64 |
| Requests.DecodeEncode | src/page_manager.h:76-81 | decoding the packing of an in-range (lod, x, y) gives back that request, and the packing is never the sentinel |
| Requests.EncodeDecode | src/page_manager.h:76-81 | decoding a non-sentinel word keeps exactly its low 17 bits: re-packing the request gives `w & 0x1FFFF` |
| Requests.Insert | src/page_manager.h:77-81 | `std::set::emplace`: the result is ascending without repeats and holds exactly the old elements plus the new one |
| Requests.DecodeFeedback | src/page_manager.h:73-83 | the decoded list is strictly ascending in (lod, x, y) and holds exactly the requests some non-sentinel word of the buffer decodes to |
| Requests.SortedUnique | src/page_manager.h:31 | under the lexicographic order two ascending repeat-free lists with the same elements are equal |
| Requests.DecodeFeedbackIgnoresOrder | src/page_manager.h:73-83 | the request list depends only on which words occur, not on their order or repetition |
| Requests.SentinelAndRepeatYieldOne | src/page_manager.h:75-83 | `[0xFFFFFFFF, p, p]` yields exactly one request, p's |
| Requests.ExampleFrame | src/page_manager.h:75-83 | `[0xFFFFFFFF, packed(2,3,5), packed(2,3,5)]` yields exactly `[(2,3,5)]` |
| Entries.PackEntry | src/page_manager.h:110 | every packed entry has bit 0 set, so it is nonzero and marks its cell resident |
| Entries.UnpackPackEntry | src/page_manager.h:110 | bits 1-8 of the entry read back `ax mod 256` and bits 9-16 read back `ay mod 256`, for any int coordinates |
| Entries.PackEntryRoundTrip | src/page_manager.h:110 | for 0 ≤ ax, ay < 256 the entry decodes back to exactly (ax, ay) |
| Entries.PackEntryInjective | src/page_manager.h:110 | distinct slots below 256×256 get distinct entries |
| Entries.WritePackedIsResident | src/page_manager.h:110-111 | after writing a packed entry the cell is resident and decodes to the slot written |
| Entries.UploadRegion | src/page_manager.h:102-108 | the upload for slot (ax, ay) covers one 1024×1024 page whose page column is ax and page row is ay, inside the 4096×4096 atlas whenever the slot is in the 4×4 grid |
| Entries.UploadRegionsDisjoint | src/page_manager.h:102-108 | uploads for two different slots cover rectangles with no pixel in common |
| Streaming.SlotIndexSeparates | src/page_manager.h:117-118 | in the 4×4 grid, two slots have the same row-major index exactly when they are the same slot, and slots with different indices get disjoint atlas pages |
| Streaming.NewPageManager | src/page_manager.h:55-62 | the constructor starts with an empty table, nothing in flight, index 0 and `alloc_arr` a permutation of 0..15 |
| Streaming.RequestPage | src/page_manager.h:116-118 | the slot `(alloc_arr[alloc_idx] % 4, alloc_arr[alloc_idx] / 4)` lies in [0,4)×[0,4) and is the cell of slot index `alloc_arr[alloc_idx]` |
| Streaming.FreshMembers | src/page_manager.h:86-89 | a request is dispatchable if and only if it is in the list, its (x, y) cell is not resident and it is not in `processing` |
| Streaming.DispatchAll | src/page_manager.h:85-94 | the dispatch loop adds exactly the dispatchable requests to `processing` and to the loader, and advances alloc_idx by their number |
| Streaming.DispatchAllSlots | src/page_manager.h:85-94 | the i-th dispatch is the i-th dispatchable request in order and gets slot `alloc_arr[alloc_idx + i]` |
| Streaming.IngestFeedback | src/page_manager.h:72-95 | dispatches a load for a request exactly when some word decodes to it, its (x, y) cell is not resident (lod ignored) and it is not in flight; dispatches go in ascending order with in-grid slots taken in permuted order; the table, queue and atlas are unchanged |
| Streaming.IngestGrowsProcessing | src/page_manager.h:85-94 | `processing` and alloc_idx both grow by exactly the number of dispatched loads |
| Streaming.IngestTwiceDispatchesNothing | src/page_manager.h:86-92 | ingesting the same buffer again before a flush dispatches nothing and changes nothing |
| Streaming.IngestSlotsFresh | src/page_manager.h:85-93 | the loads of one ingest get pairwise different slots, none of them a slot handed out before |
| Streaming.Complete | src/page_manager.h:120-131 | a successful load appends exactly (request, alloc_x, alloc_y, image) to the queue; a failed one appends nothing and leaves `processing` unchanged |
| Streaming.FlushUploadQueue | src/page_manager.h:97-114 | the flush empties the queue, removes exactly the queued requests from `processing`, and issues one atlas upload per record |
| Streaming.UploadBackEffect | src/page_manager.h:99-112 | one loop iteration (`UploadBack`) removes exactly the back record: the front of the queue is kept, the record's cell becomes resident with its packed entry while every other cell keeps its entry, its request leaves `processing`, and one atlas upload at the record's slot is appended |
| Streaming.FlushUploadOrder | src/page_manager.h:98-108 | uploads go out from the back of the queue to the front (LIFO), after all earlier uploads |
| Streaming.FlushKeepsUntargeted | src/page_manager.h:98-112 | a cell that no queued record targets keeps its entry |
| Streaming.FlushWritesEarliest | src/page_manager.h:98-112 | a targeted cell ends up holding the packed entry of the earliest record for it, because the latest is handled first |
| StreamingInvariant.InitialInv | src/page_manager.h:55-63 | the freshly constructed manager (empty table, nothing in flight, loading or queued, index 0, permuted `alloc_arr`) satisfies the consistency invariant |
| StreamingInvariant.RequestKeepsInv | src/page_manager.h:86-92 | one dispatch keeps all slots and in-flight requests pairwise distinct and consistent with the table |
| StreamingInvariant.IngestKeepsInv | src/page_manager.h:72-95 | ingesting feedback keeps the invariant: no request in flight twice, no slot claimed twice, the table encodes only handed-out slots |
| StreamingInvariant.CompleteKeepsInv | src/page_manager.h:120-131 | a load completion, successful or failed, keeps the invariant |
| StreamingInvariant.FailedLoadIsStranded | src/page_manager.h:128-130 | after a failed load its request is still in `processing` and no load or queued upload remains for it |
| StreamingInvariant.UploadBackKeepsInv | src/page_manager.h:98-112 | handling the back record keeps the invariant: its entry is new to the table and distinct from every other claim's slot |
| StreamingInvariant.FlushKeepsInv | src/page_manager.h:97-114 | a whole flush keeps the invariant, including that every atlas upload lies inside the atlas |
| StreamingEvents.StepKeepsInv | src/page_manager.h:72-131 | every enabled event (ingest, completion, flush) keeps the invariant |
| StreamingEvents.ReplayKeepsInv | src/page_manager.h:72-131 | the invariant holds after every run of enabled events |
| StreamingEvents.StepKeepsStranded | src/page_manager.h:86-112 | a request in `processing` with no load or upload left stays that way through any event |
| StreamingEvents.FailedLoadNeverRetried | src/page_manager.h:128-130 | a stranded request stays in `processing` through every later run of events, so it is never dispatched again |
| StreamingEvents.StrandedNotDispatched | src/page_manager.h:86-89 | a request already in `processing` is never among the loads an ingest dispatches |

## Left out

- `Streaming.IngestFeedback` and `Streaming.RequestPage`: `alloc_idx` is never bounds-checked in the code. Running past the 16 slots reads past `alloc_arr`, which is undefined behaviour, so the number of loads a call would dispatch must fit the remaining slots.
- `Allocation.NewAllocator`: requires non-negative grid dimensions whose product fits in `int`. A grid with a negative side is meaningless. With exactly one negative side, `pages.x * pages.y` is negative and the `std::vector` size conversion makes the constructor throw. With a zero side and a negative one, the vector is empty and every `Alloc` reports "Out of memory!", so nothing throws. With two negative sides, the vector is built without complaint. `Alloc` then divides by a negative `pages.x` and returns coordinates outside the grid, for example `(1, -2)` for index 5 of a (-2, -3) grid. The model does not cover these grids. An overflowing product is undefined behaviour.
- The page table (`page_table.h`) is not part of this model. It is an unbounded map from cells to entries, zero where unwritten. The code's table is 4×4, but decoded coordinates reach 63. What the real table does with such cells is not modelled.
- The atlas texture (`texture2d.h`) is not part of this model. `atlas.InitTexture` is omitted. `atlas.Update` is recorded only as the rectangle it writes (`AtlasWrite`), without the pixel data.
- The image loader (`image_loader.h`) is not part of this model. `LoadAsync` records a pending callback in `loads`. Its completion is a later `LoadDone` event with an arbitrary success image or failure, in any order.
- Concurrency is not modelled. The callback pushes to `upload_queue` from the loader thread without a lock. The model treats each completion as an atomic step between frame operations and does not model the data race.
- The random engine (`std::random_device`, `std::mt19937`) is abstracted into the `draws` parameter.
- The asset path string (`std::format`) and the `std::println` logging on failure are omitted.
- `PageCache` is declared in `src/page_cache.h`, and `PageManager` does not use it. Its operations `Acquire`, `Commit`, `Cancel` and `Touch`, and its LRU and pinning behaviour, are not modelled. Only `ResidencyDecision` is mirrored, as a datatype.
- `src/main.cpp`, the camera and the orbit controls are not modelled. They cover windowing, shaders, draw calls and floating-point camera math, and none of them uses `PageManager`.
