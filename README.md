# BusTub buffer pool, modelled in Dafny

This project models the buffer pool of the BusTub teaching database. The pool
is a fixed array of in-memory frames that cache disk pages. Its parts are:

- the `LRUReplacer`, which keeps the frames that may be evicted in the order
  they became evictable (unpinning a frame that is already evictable does not
  move it);
- the `BufferPoolManager`, which owns the frames, a FIFO free list of unused
  frames and a page table from page id to frame id. On top of the helpers
  `is_all_pinned`, `init_new_page` and `find_replace` it implements fetch,
  unpin, flush, new, delete and flush-all.

Layout, one module per file:

- `types.dfy` (`Types`): `FrameId`, `PageId`, `INVALID_PAGE_ID` (-1),
  `PAGE_SIZE` (4096), page buffers as `seq<bv8>`, and `Option` for a
  `Page*` that may be null.
- `collections.dfy` (`Collections`): duplicate-freedom, element sets, the
  range of a map, and counting lemmas.
- `lru_order.dfy` (`LruOrder`): what `Unpin`, `Pin` and `Victim` do to the
  replacer's list, as pure functions. It also defines the ghost insertion
  stamps that make "the order frames became evictable" a provable order.
- `lru_replacer.dfy` (`LruReplacer`): the `LRUReplacer` class. `m_lruList`
  is a `seq`; `m_lruMap` is its key set. Every method is proved against the
  functions of `LruOrder`.
- `disk_manager.dfy` (`Disk`): an abstract disk manager. It has a map from
  page id to the data last written, a page-id counter and a log of the calls
  the pool made.
- `pool_state.dfy` (`PoolState`): a frame as a value (`page_id_`,
  `pin_count_`, `is_dirty_`, data). It states the pool invariant over the
  frames, free list, page table and evictable set, and has one lemma per
  kind of step proving the step keeps the invariant.
- `buffer_pool_manager.dfy` (`BufferPool`): the `BufferPoolManager` class.
  Frames are an `array<Frame>` updated in place. The free list and page table
  are fields that are reassigned. The replacer and disk manager are objects
  the pool calls.

The pool invariant (`PoolState.PoolInvariant`, part of
`BufferPoolManager.Valid`) says:

- every frame id is in exactly one of the free list and the page table's
  values;
- the free list has no duplicates;
- the page table is injective, and each resident frame records the page id it
  is mapped under;
- free frames hold `INVALID_PAGE_ID` and are unpinned;
- the replacer holds exactly the resident frames whose pin count is 0.

Every public operation requires and keeps this invariant.

## Model

| member | source | states |
|---|---|---|
| LruReplacer.LRUReplacer.constructor | src/buffer/lru_replacer.cpp:17-19 | A new replacer is empty: no frame in the list or the map. |
| LruReplacer.LRUReplacer.Victim | src/buffer/lru_replacer.cpp:23-34 | On an empty replacer: returns nothing and changes nothing. Otherwise: returns the back of the list and removes it from the list and the map. The size drops by one. The victim has been evictable longer than every frame that stays. |
| LruReplacer.LRUReplacer.Pin | src/buffer/lru_replacer.cpp:36-44 | The list becomes `Pinned(old list, f)`: f is removed at the position the map points at, and the rest keep their order. f leaves the map. An absent frame leaves the list unchanged. |
| LruReplacer.LRUReplacer.Unpin | src/buffer/lru_replacer.cpp:46-55 | The list becomes `Unpinned(old list, f)` and f joins the map. An absent frame is pushed to the front and stamped with the current clock, which then advances; it is newer than every other frame and every other frame keeps its stamp. A present frame keeps its place and its stamp. |
| LruReplacer.LRUReplacer.Size | src/buffer/lru_replacer.cpp:57-59 | Returns the map's size, which always equals the list's length. |
| LruOrder.IndexOf | src/buffer/lru_replacer.cpp:41 | The iterator stored in `m_lruMap`: the first, and because the list has no duplicates the only, position holding the frame. |
| LruOrder.UnpinnedShape | src/buffer/lru_replacer.cpp:51-54 | Unpin keeps the list duplicate-free and adds exactly f to its elements. An absent f goes in front of the old list; a present f changes nothing. |
| LruOrder.UnpinnedIdempotent | src/buffer/lru_replacer.cpp:51-54 | Unpinning twice is the same as unpinning once. |
| LruOrder.PinnedAbsent | src/buffer/lru_replacer.cpp:40-43 | Pinning a frame that is not in the list leaves the list unchanged. |
| LruOrder.PinnedElems | src/buffer/lru_replacer.cpp:40-43 | Pin removes exactly f from the elements and keeps the list duplicate-free. |
| LruOrder.PinnedAt | src/buffer/lru_replacer.cpp:41 | In a duplicate-free list, erasing at f's position is the same as removing f. |
| LruOrder.PinUndoesUnpin | src/buffer/lru_replacer.cpp:40-54 | Pin is the inverse of Unpin for a frame that was absent: the list is back to what it was. |
| LruOrder.PinnedIdempotent | src/buffer/lru_replacer.cpp:40-43 | Pinning twice is the same as pinning once. |
| LruOrder.PinnedStampOrdered | src/buffer/lru_replacer.cpp:40-43 | Pin keeps the front-to-back newest-to-oldest order. |
| LruOrder.UnpinnedStampOrdered | src/buffer/lru_replacer.cpp:51-54 | Unpin with a newer stamp than every listed frame keeps the order, with the new frame in front. |
| LruOrder.VictimizedStampOrdered | src/buffer/lru_replacer.cpp:30-32 | Popping the back keeps the order. The popped frame is older than every frame that stays. |
| LruOrder.StampOrderedNoDuplicates | src/buffer/lru_replacer.cpp:51-53 | A list ordered by strictly falling stamps has no duplicates. |
| BufferPool.BufferPoolManager.constructor | src/buffer/buffer_pool_manager.cpp:21-31 | Every frame is empty. The free list is 0 .. pool_size-1 in order. Nothing is resident and the replacer is empty. The invariant holds. |
| BufferPool.BufferPoolManager.IsAllPinned | src/buffer/buffer_pool_manager.cpp:38-40 | True exactly when the free list and the replacer are empty. That holds exactly when every frame is resident and pinned. |
| PoolState.AllPinnedIff | src/buffer/buffer_pool_manager.cpp:38-40 | Under the invariant: no free frame and nothing evictable, if and only if every frame holds a page with a pin count above 0. |
| BufferPool.BufferPoolManager.InitNewPage | src/buffer/buffer_pool_manager.cpp:42-46 | Only the given frame changes: page id set, pin count 1, clean, data untouched. |
| BufferPool.BufferPoolManager.FindReplace | src/buffer/buffer_pool_manager.cpp:48-61 | All pinned: returns -1 and changes nothing. Free list non-empty: returns its front and pops it, touching nothing else. Otherwise: returns the replacer's victim and erases the victim's page from the page table. A dirty victim is written back (store and log); a clean one causes no disk call. Frames are untouched. |
| BufferPool.BufferPoolManager.TakeVictim | src/buffer/buffer_pool_manager.cpp:53-60 | The replacer branch of find_replace, with the same per-case results. |
| BufferPool.BufferPoolManager.FetchPage | src/buffer/buffer_pool_manager.cpp:63-96 | Returns null exactly when the page is not resident and every frame is pinned; then nothing changes. Hit: the same frame comes back, its pin count is set to 1 only if it was 0, and it leaves the replacer; no disk call. Miss: the frame find_replace picks holds the page with pin count 1, clean, with the data ReadPage gives. The page table, free list, replacer and disk reflect exactly that eviction and read. |
| BufferPool.BufferPoolManager.PinResident | src/buffer/buffer_pool_manager.cpp:74-84 | The hit path: only that frame changes, and the replacer list becomes `Pinned(old, f)`. |
| BufferPool.BufferPoolManager.LoadPage | src/buffer/buffer_pool_manager.cpp:86-93 | The miss path when not all frames are pinned, with the result described for FetchPage. |
| BufferPool.BufferPoolManager.InstallPage | src/buffer/buffer_pool_manager.cpp:89-90 | The table maps the page to the frame. The frame holds the page, pinned once, clean, with the given data. The invariant is restored. |
| BufferPool.BufferPoolManager.UnpinPage | src/buffer/buffer_pool_manager.cpp:98-116 | A non-resident page gives false and changes nothing. Otherwise the result is true and the pin count drops by one, but not below 0. The dirty flag becomes `old \|\| is_dirty`. The frame is unpinned in the replacer exactly when the new count is 0. |
| BufferPool.BufferPoolManager.FlushPage | src/buffer/buffer_pool_manager.cpp:118-132 | A non-resident page gives false and changes nothing. Otherwise the frame's data is written to disk whether or not it is dirty, the frame becomes clean, and nothing else changes. |
| BufferPool.BufferPoolManager.NewPage | src/buffer/buffer_pool_manager.cpp:134-156 | A page id is always allocated first. Returns null exactly when every frame is pinned; then the pool is unchanged and the id is neither used nor released. Otherwise the id is returned and the frame find_replace picks holds it: zeroed, pinned once, clean and mapped. |
| BufferPool.BufferPoolManager.DeletePage | src/buffer/buffer_pool_manager.cpp:158-185 | Deallocate is always logged. A non-resident page gives true; a pinned one gives false and changes nothing. An unpinned resident page leaves the replacer and the page table; its frame is zeroed, marked INVALID_PAGE_ID and appended to the free list, and the result is false. |
| BufferPool.BufferPoolManager.FlushAllPages | src/buffer/buffer_pool_manager.cpp:187-199 | Every resident page is flushed once, in some order: every resident frame ends clean and nothing else in the pool changes. The store receives every resident page's data, and the log gains one write per resident page. |
| BufferPool.BufferPoolManager.FlushEach | src/buffer/buffer_pool_manager.cpp:191-198 | The loop: with keys the whole page table, every key is flushed exactly once. |
| BufferPool.BufferPoolManager.FlushNext | src/buffer/buffer_pool_manager.cpp:192-193 | One loop iteration: flushing one more key moves it from "to do" to "done", cleans its frame and logs its write. |
| BufferPool.FlushedContents | src/buffer/buffer_pool_manager.cpp:191-198 | After flushing a list of pages, exactly those pages gain store entries holding their frames' data; every other stored page is unchanged. |
| PoolState.InitialInvariant | src/buffer/buffer_pool_manager.cpp:28-30 | Empty frames, every frame on the free list in order and an empty table satisfy the invariant. |
| PoolState.Occupancy | src/buffer/buffer_pool_manager.cpp:50-59 | Under the invariant, free frames plus resident pages number exactly pool_size. |
| PoolState.UpdateResident | src/buffer/buffer_pool_manager.cpp:105-113 | Changing a resident frame's pin count, dirty flag or data keeps the invariant. The frame is evictable afterwards exactly when its pin count is 0. |
| PoolState.InstallFromFree | src/buffer/buffer_pool_manager.cpp:50-52 | Taking the front free frame for a new, pinned page keeps the invariant and the evictable set. |
| PoolState.InstallOverVictim | src/buffer/buffer_pool_manager.cpp:53-57 | Reusing an evictable frame for a new, pinned page keeps the invariant: the victim's page leaves the table and the frame stops being evictable. |
| PoolState.Release | src/buffer/buffer_pool_manager.cpp:177-182 | Deleting an unpinned resident page keeps the invariant: its frame goes to the back of the free list and leaves the evictable set. |
| PoolState.EmplaceOnResidentLeaksFrame | src/buffer/buffer_pool_manager.cpp:145-152 | new_page as written, for an id already in the page table and a free frame: `emplace` keeps the old entry, so the popped frame ends on neither the free list nor the page table. |
| PoolState.EmplaceOverVictimLeaksFrame | src/buffer/buffer_pool_manager.cpp:145-152 | The same with a victim frame: after its page is erased, `emplace` under an id resident in another frame keeps the old entry, so the victim frame ends on neither the free list nor the page table. |

## Left out

- Mutexes (`latch_`, `m_lock`): every public call is one atomic step.
- The self-deadlock in `FlushAllPagesImpl`, which calls `FlushPageImpl` while holding the non-recursive `latch_`, is a concurrency defect and is not modelled. Flush-all is a plain loop.
- Disk I/O: `DiskManager` is an abstract component, and its source is not part of this model.
  - `ReadPage` of a page never written yields zeros.
  - `WritePage` records the data.
  - `AllocatePage` is a counter.
  - `DeallocatePage` only logs the call.
- The unused `LogManager` handle and `LOG_INFO` are left out.
- `new[]`/`delete[]` in the constructor and the destructor are left out. A `Page*` result is the index of the frame it points into, or `None` for null.
- `Page` objects are values (`PoolState.Frame`) in array slots. Their data is a 4096-byte `seq<bv8>`. `ResetMemory` yields all zeros. `page.h` and `config.h` are not part of this model.
- `m_lruMap`'s stored list iterators are modelled as the map's key set. The position is found by `LruOrder.IndexOf`. `reserve` is a capacity hint and is not modelled.
- The recency order has no counterpart field in the source. The replacer's ghost `stamp` and `clock` fields exist only to state and prove it.
- `page_id_t` and `frame_id_t` are unbounded integers: the 32-bit width is not modelled.
- `FlushAllPagesImpl` walks `page_table_` in `unordered_map` order, which is unspecified. The model picks keys in an arbitrary order and returns that order as a ghost result.
- BufferPool.BufferPoolManager.FetchPage requires a page id that the disk manager has already allocated (below its counter). The source does not check this. Without it, a fetch of a not-yet-allocated id makes it resident, and a later `NewPage` that allocates the same id loses a frame (see "## Findings"). The model keeps every resident id below the counter instead.
- BufferPool.BufferPoolManager.NewPage returns `INVALID_PAGE_ID` as the page id on failure. The source leaves its out-parameter untouched in that case.
- BufferPool.BufferPoolManager.DeletePage returns false on the path that does delete the page, as the code is written.
- `find_replace` and `FetchPageImpl`/`NewPageImpl` are split into helper methods. `TakeVictim` is find_replace's replacer branch. `PinResident` and `LoadPage` are the two branches of `FetchPageImpl`. `InstallPage` is the common emplace, `init_new_page` and data fill. `FlushEach` and `FlushNext` are flush-all's loop and one iteration. This keeps each proof small.
- In `LoadPage`, the disk read is issued before `InstallPage`, not after `init_new_page`. Calls are atomic, so the resulting state is the same.

## Findings

| source | as written | input that shows it | evidently intended | confidence | as-written member | corrected member |
|---|---|---|---|---|---|---|
| src/buffer/buffer_pool_manager.cpp:63-96, 145-152 | `FetchPageImpl` accepts any page id, and `NewPageImpl` inserts the newly allocated id with `emplace`, which does nothing when the id is already mapped. | `FetchPage(p)` for a `p` not yet allocated makes `p` resident in frame f1. `NewPage` then receives `p` from `AllocatePage`, pops free frame f2 (or evicts f3 ≠ f1) and initialises it as `p`. `emplace(p, f2)` keeps `p -> f1`, so f2 is pinned but on neither the free list nor the page table and is never reused. | A resident page id is always one the disk manager has allocated, so `NewPage`'s id is never already in the page table and every frame stays either free or in the table. | not executed | PoolState.EmplaceOnResidentLeaksFrame, PoolState.EmplaceOverVictimLeaksFrame | BufferPool.BufferPoolManager.FetchPage (its `requires pageId < diskManager.nextPageId`), with PoolState.InstallFromFree and PoolState.InstallOverVictim proving the invariant for an id not in the table |
