# minisql storage, buffer, index and record core in Dafny

This project models the lower layers of minisql, a small relational database
engine written in C++.

**Disk.** The database file is a sequence of 4096-byte pages. Physical page 0
is a meta page that counts the allocated pages, the extents in use and the
pages used in each extent. Each extent is one bitmap page followed by the
data pages it manages. `DiskManager` maps logical page ids to physical ones.
It allocates the first free logical page, frees pages, and reads and writes
pages. `BitmapPage` is the bitmap of one extent.

**Buffer pool.** `BufferPoolManager` caches disk pages in a fixed array of
frames. It keeps a page table, a free list and an `LRUReplacer`, which holds
the unpinned frames that may be evicted, most recent at the front.

**Index.** The B+ tree index stores (key, row id) pairs in leaf pages that
are chained by next links. Internal pages route a key to a child page. The
tree inserts with splits and removes with coalescing, redistribution and
root adjustment. `IndexIterator` walks the leaves.

**Records.** `Column`, `Schema` and `Row` are written to and read from byte
buffers. `CatalogMeta`, the catalog's table of meta pages, is written to and
read from the catalog meta page.

**How each file is modelled:**

- **Byte layouts and pure arithmetic** are Dafny functions on sequences:
  bytes are `seq<byte>`, and a 32-bit word is written least significant byte
  first.
- **Code that changes state in place** is classes with methods: the bitmap
  page, the disk manager, the LRU list, the buffer pool, both kinds of B+
  tree page, the tree and the iterator.
- **Serialisers** are methods that write into an `array<byte>` or read from
  one.
- **Each method is proved against a specification function,** and the
  properties the engine relies on are lemmas about those functions. These
  include round trips, first-fit allocation, the multiset of pairs a tree
  operation keeps, and the pool's bookkeeping invariant.

The files and their modules:

- `common.dfy` (Common): page size, bytes, 32-bit words, bit masks and
  sequence facts.
- `bitmap_page.dfy` (BitmapPages): the extent bitmap.
- `disk_manager.dfy` (DiskManagers): logical-to-physical mapping and page
  allocation on a file modelled as a map from physical page id to page.
- `lru_replacer.dfy` (LruReplacer): the replacer's list.
- `buffer_pool_manager.dfy` (BufferPool): frames, page table, free list, and
  the invariant `PoolValid`.
- `b_plus_tree_leaf_page.dfy` (LeafPages) and
  `b_plus_tree_internal_page.dfy` (InternalPages): page classes over arrays,
  and the value-level functions they are proved against.
- `b_plus_tree.dfy` (BPlusTrees): the tree as an arena of pages by page id.
- `index_iterator.dfy` (IndexIterators): the iterator and the pins it holds.
- `byte_buffer.dfy` (ByteBuffers): writing into and reading from byte arrays,
  and a generic reader of repeated items.
- `column.dfy` (Columns), `schema.dfy` (Schemas), `null_bitmap.dfy`
  (NullBitmaps) and `row.dfy` (Rows): the record serialisers.
- `catalog_meta.dfy` (CatalogMetas): the catalog meta page.

## Model

| member | source | states |
|---|---|---|
| BitmapPages.BitmapPage.AllocatePage | src/page/bitmap_page.cpp:7-23 | Fails exactly when all `8 * MAX_CHARS` slots are taken. Otherwise it takes the least free slot, which was clear and is now the only slot that changed, and counts it. The next-free hint stays the least clear slot. |
| BitmapPages.BitmapPage.ScanFrom | src/page/bitmap_page.cpp:15-21 | The scan returns the first clear slot at or after its start, or the slot count when there is none. |
| BitmapPages.BitmapPage.DeAllocatePage | src/page/bitmap_page.cpp:27-37 | Succeeds exactly when the slot was set. It then clears only that slot and lowers the count. It fails with the bitmap unchanged on a free slot. The hint stays the least clear slot. |
| BitmapPages.BitmapPage.IsPageFree | src/page/bitmap_page.cpp:41-45 | True exactly when the slot's bit is clear. |
| BitmapPages.BitmapPage.IsPageFreeLow | src/page/bitmap_page.cpp:48-52 | True exactly when bit `7 - bit_index` of the byte is zero. |
| BitmapPages.BitmapPage.ToPage | src/page/bitmap_page.cpp:7-37 | The page image holds both counters and the bits, and its counters agree with its bits. |
| BitmapPages.BitmapPage.FromPage | src/page/bitmap_page.cpp:7-37 | A valid page image, reinterpreted as a bitmap page, has the image's bits and allocation count. |
| BitmapPages.BitsAt | src/page/bitmap_page.cpp:48-52 | Slot `i` is bit `7 - i % 8` of byte `i / 8`. |
| BitmapPages.SetSlot | src/page/bitmap_page.cpp:12 | OR-ing the slot's mask into its byte sets exactly that slot. |
| BitmapPages.ClearSlot | src/page/bitmap_page.cpp:32 | AND-ing with the complement clears exactly that slot. |
| BitmapPages.CountUpdate | src/page/bitmap_page.cpp:13 | Changing one slot changes the count of set slots by that slot's change. |
| BitmapPages.CountFull | src/page/bitmap_page.cpp:8-11 | The count equals the slot count exactly when every slot is set, so the fullness test is right. |
| BitmapPages.FirstClearAfterSet | src/page/bitmap_page.cpp:15-21 | After the least clear slot is taken, the least clear slot lies above it, so scanning from `page_offset + 1` is enough. |
| BitmapPages.FirstClearAfterClear | src/page/bitmap_page.cpp:34-35 | After slot `p` is freed, the least clear slot is `p` when the old one was above `p`, and otherwise stays. |
| BitmapPages.TakeFirstClear | src/page/bitmap_page.cpp:12-21 | Taking the least clear slot raises the count by one and keeps the scan-from-next rule. |
| BitmapPages.ReleaseSlot | src/page/bitmap_page.cpp:32-35 | Freeing a set slot lowers the count by one and moves the least clear slot as the code does. |
| BitmapPages.SetStep | src/page/bitmap_page.cpp:12-13 | The byte update of allocation sets exactly the least clear slot and raises the count. |
| BitmapPages.ClearStep | src/page/bitmap_page.cpp:32-33 | The byte update of deallocation clears exactly that slot and lowers the count. |
| BitmapPages.ZeroImageValid | src/storage/disk_manager.cpp:131-152 | An all-zero page, which is what a read past the end of the file gives, is a valid empty bitmap: no slot taken, hint 0. |
| LruReplacer.LRUReplacer.constructor | src/buffer/lru_replacer.cpp:3-5 | A replacer for `num_pages` frames starts with no victims. |
| LruReplacer.LRUReplacer.Victim | src/buffer/lru_replacer.cpp:9-17 | Fails exactly when the list is empty. Otherwise it returns the back of the list, the least recently unpinned frame, and removes it. |
| LruReplacer.LRUReplacer.Pin | src/buffer/lru_replacer.cpp:19-25 | The frame leaves the list. The others keep their order, and an untracked frame changes nothing. |
| LruReplacer.LRUReplacer.Unpin | src/buffer/lru_replacer.cpp:27-33 | An untracked frame goes to the front when the list is not full. A frame already tracked, or a full list, changes nothing. The list stays duplicate-free and within `num_pages`. |
| LruReplacer.LRUReplacer.Size | src/buffer/lru_replacer.cpp:35-37 | The number of tracked frames, never more than `num_pages`. |
| LruReplacer.Without | src/buffer/lru_replacer.cpp:19-25 | Erasing a frame keeps every other frame and no more. It shortens a duplicate-free list by one when the frame was in it and leaves the list as it was otherwise. |
| LruReplacer.DistinctBelowBound | src/buffer/lru_replacer.cpp:28 | A duplicate-free list of frame ids below `num_pages` never holds more than `num_pages`, so the capacity test never rejects an untracked frame. |
| LruReplacer.UnpinTracksUntracked | src/buffer/lru_replacer.cpp:27-33 | Unpinning an untracked frame puts it at the front. |
| LruReplacer.UnpinAllReverses | src/buffer/lru_replacer.cpp:27-33 | Unpinning distinct frames one after another leaves them in reverse order in front of the old list. |
| LruReplacer.FirstUnpinnedIsFirstVictim | src/buffer/lru_replacer.cpp:9-17 | Of frames unpinned in turn, the first one unpinned is the first victim: least recently used first. |
| DiskManagers.DiskManager.constructor | src/storage/disk_manager.cpp:10-28 | A new file has a zero meta page: no page allocated, no extent used, and every page reads as zeros. |
| DiskManagers.DiskManager.ReadPage | src/storage/disk_manager.cpp:39-42 | Reads the physical page that `MapPageId` gives for the logical page. |
| DiskManagers.DiskManager.WritePage | src/storage/disk_manager.cpp:44-47 | Writes that physical page and nothing else. The allocation state is unchanged. |
| DiskManagers.DiskManager.WritePhysicalPage | src/storage/disk_manager.cpp:154-166 | The file afterwards holds the data at that physical page, and every other page is unchanged. |
| DiskManagers.DiskManager.AllocatePage | src/storage/disk_manager.cpp:50-88 | On a full disk it returns the invalid page id and changes nothing. Otherwise it returns the least free logical page id, and that id is the only one newly allocated. The total and its extent's counter go up by one, only that extent's bitmap page is rewritten, and the disk stays consistent. |
| DiskManagers.DiskManager.AllocateIn | src/storage/disk_manager.cpp:62-87 | Allocating in the first extent with room, whether an open one or a new one, is first-fit allocation in the above sense. |
| DiskManagers.DiskManager.NewExtentIsEmpty | src/storage/disk_manager.cpp:77-80 | When every open extent is full and the disk is not, the next extent exists and is empty. |
| DiskManagers.DiskManager.DeAllocatePage | src/storage/disk_manager.cpp:91-108 | The page is no longer allocated. If it was allocated, exactly it was freed: the total and its extent's counter go down by one and only its bitmap page is rewritten. If not, nothing changes. |
| DiskManagers.DiskManager.Release | src/storage/disk_manager.cpp:98-104 | Updating the meta page and the bitmap page after the bitmap freed the slot frees exactly that page. |
| DiskManagers.DiskManager.IsPageFree | src/storage/disk_manager.cpp:111-118 | True exactly when the page's bit in its extent bitmap is clear. |
| DiskManagers.DiskManager.BitmapImageValid | src/storage/disk_manager.cpp:111-118 | Every extent's bitmap page is a valid bitmap image, and one beyond the extents is all zeros. |
| DiskManagers.MapPageId | src/storage/disk_manager.cpp:121-123 | A logical id lands one page past its extent's bitmap page, at its offset in the extent. |
| DiskManagers.OffsetInExtent | src/storage/disk_manager.cpp:93-96 | A page's distance from its extent's bitmap page, minus one, is its offset in the extent. |
| DiskManagers.MapPageIdInjective | src/storage/disk_manager.cpp:121-123 | Distinct logical pages map to distinct physical pages. |
| DiskManagers.DataPagesAvoidBitmaps | src/storage/disk_manager.cpp:121-123 | No logical page maps to the meta page or to a bitmap page. |
| DiskManagers.ConstantsAgree | src/storage/disk_manager.cpp:57-87 | The literal constants agree with their definitions from the page size. |
| DiskManagers.AllocateStep | src/storage/disk_manager.cpp:61-87 | Taking the least free slot of the first extent with room keeps the disk consistent and allocates the least free id first-fit. |
| DiskManagers.FirstFitStep | src/storage/disk_manager.cpp:61-76 | The id taken is the least free logical id: every lower id is allocated. |
| DiskManagers.LowerIdsTaken | src/storage/disk_manager.cpp:61-76 | With every earlier extent full, every logical id below the chosen one is allocated. |
| DiskManagers.DeAllocateStep | src/storage/disk_manager.cpp:91-108 | Clearing an allocated slot and lowering the counters keeps the disk consistent and frees exactly that page. |
| DiskManagers.AllocateInImage | src/storage/disk_manager.cpp:68-73 | Allocating in a bitmap page image fails exactly when it is full. Otherwise it takes the image's least free slot and yields a valid image with one more slot set. |
| DiskManagers.DeAllocateInImage | src/storage/disk_manager.cpp:94-97 | Freeing in an image succeeds exactly when the slot was set. It yields a valid image with that slot cleared. |
| DiskManagers.SetInBitmap | src/storage/disk_manager.cpp:68-74 | Writing back an image with one more slot set allocates exactly that logical id. |
| DiskManagers.ClearInBitmap | src/storage/disk_manager.cpp:97-103 | Writing back an image with one slot cleared frees exactly that logical id. |
| DiskManagers.DiskValidUpdate | src/storage/disk_manager.cpp:61-108 | Replacing an extent's bitmap image and its counter consistently keeps the meta page and the bitmaps in agreement. |
| BufferPool.BufferPoolManager.constructor | src/buffer/buffer_pool_manager.cpp:8-15 | Every frame is empty and on the free list, the page table is empty, and the replacer tracks nothing. |
| BufferPool.BufferPoolManager.FetchPage | src/buffer/buffer_pool_manager.cpp:26-67 | Fails exactly for the invalid id, or for a page that is not cached when no frame is free or evictable; then nothing changes and every frame is pinned. A hit adds a pin and takes the frame out of the replacer. A miss takes a frame as `Loaded` describes: free list first, dirty victim written back. The pool invariant is kept. |
| BufferPool.BufferPoolManager.FetchFromDisk | src/buffer/buffer_pool_manager.cpp:39-60 | The miss path is the transition `Loaded`: the page is read into the chosen frame with one pin and filed under its id. |
| BufferPool.BufferPoolManager.PinResident | src/buffer/buffer_pool_manager.cpp:62-66 | A hit adds one pin to the page's frame and removes the frame from the replacer. |
| BufferPool.BufferPoolManager.TakeFrame | src/buffer/buffer_pool_manager.cpp:42-49 | The frame comes from the free list's front when it has one, else it is the replacer's victim. |
| BufferPool.BufferPoolManager.NewPage | src/buffer/buffer_pool_manager.cpp:69-102 | Fails exactly when no frame is free or evictable; then no disk page is allocated and nothing changes. Otherwise it allocates a disk page and caches it zeroed with one pin, as `Created` describes. The pool invariant is kept. |
| BufferPool.BufferPoolManager.NewInFrame | src/buffer/buffer_pool_manager.cpp:79-100 | Steps 2 to 4 of `NewPage` are the transition `Created`. |
| BufferPool.BufferPoolManager.DeletePage | src/buffer/buffer_pool_manager.cpp:105-128 | True for the invalid id and for a page not cached, with nothing changed; false for a pinned page. Otherwise the page is written back if dirty and freed on disk. Its frame is emptied, unfiled, appended to the free list and taken out of the replacer, and the pool invariant is kept. |
| BufferPool.BufferPoolManager.DeletePageAsWritten | src/buffer/buffer_pool_manager.cpp:105-128 | As written: the deleted page's frame ends up both on the free list and still in the replacer, which breaks the pool invariant. |
| BufferPool.BufferPoolManager.UnpinPage | src/buffer/buffer_pool_manager.cpp:131-148 | False, with nothing changed, for the invalid id, a page not cached or one not pinned. Otherwise it drops one pin and ORs the dirty flag. At zero pins the frame goes to the front of the replacer. |
| BufferPool.BufferPoolManager.FlushPage | src/buffer/buffer_pool_manager.cpp:151-160 | False, with nothing changed, for the invalid id or a page not cached. Otherwise it writes the frame's data to the page on disk and marks the frame clean. |
| BufferPool.BufferPoolManager.IsPageFree | src/buffer/buffer_pool_manager.cpp:171-173 | True exactly when the disk has the page free. |
| BufferPool.BufferPoolManager.CheckAllUnpinned | src/buffer/buffer_pool_manager.cpp:176-185 | True exactly when no frame is pinned. |
| BufferPool.InitialPoolValid | src/buffer/buffer_pool_manager.cpp:8-15 | The initial pool satisfies the invariant. |
| BufferPool.PickFrame | src/buffer/buffer_pool_manager.cpp:42-49 | The free list is used first: its front is taken and the victims stay. With an empty free list a victim is taken and the free list stays. |
| BufferPool.PickedFrame | src/buffer/buffer_pool_manager.cpp:42-54 | The frame picked is in range, unpinned, and either empty or caching a filed page. |
| BufferPool.AllPinned | src/buffer/buffer_pool_manager.cpp:40-41 | With no free frame and no victim, every frame is pinned. |
| BufferPool.HitStep | src/buffer/buffer_pool_manager.cpp:62-66 | Pinning a cached page keeps the invariant. |
| BufferPool.MissStep | src/buffer/buffer_pool_manager.cpp:39-60 | Loading a page into the picked frame keeps the invariant. |
| BufferPool.NewStep | src/buffer/buffer_pool_manager.cpp:79-100 | Creating a page in the picked frame keeps the invariant. |
| BufferPool.NewFromFreeList | src/buffer/buffer_pool_manager.cpp:79-82 | A page created in the free list's front frame keeps the invariant. |
| BufferPool.NewFromVictim | src/buffer/buffer_pool_manager.cpp:83-95 | A page created in a victim's frame keeps the invariant. |
| BufferPool.UnpinStep | src/buffer/buffer_pool_manager.cpp:131-148 | Dropping a pin, and adding the frame to the replacer at zero pins, keeps the invariant. |
| BufferPool.FlushStep | src/buffer/buffer_pool_manager.cpp:151-160 | Marking a frame clean keeps the invariant. |
| BufferPool.DeleteStep | src/buffer/buffer_pool_manager.cpp:105-128 | Deleting an unpinned page keeps the invariant when its frame also leaves the replacer. |
| BufferPool.Emplace | src/buffer/buffer_pool_manager.cpp:100 | `emplace` on the page table adds the key only when it is absent and leaves other keys as they were. |
| BufferPool.BothFreeAndEvictable | src/buffer/buffer_pool_manager.cpp:122-127 | A frame that is both on the free list and in the replacer breaks the invariant. |
| BufferPool.FrameHandedOutTwice | src/buffer/buffer_pool_manager.cpp:42-49 | A frame that is both free and evictable is handed out by two successive misses. |
| LeafPages.LeafPage.constructor | src/page/b_plus_tree_leaf_page.cpp:22-29 | A page over an array of the given capacity, holding no pairs. |
| LeafPages.LeafPage.Init | src/page/b_plus_tree_leaf_page.cpp:22-29 | Sets the page id, parent id and maximum size, and empties the page. |
| LeafPages.LeafPage.KeyIndex | src/page/b_plus_tree_leaf_page.cpp:51-69 | The binary search returns `KeyIndexOf`, which on a sorted page is the key's lower bound (see `KeyIndexIsLowerBound`). |
| LeafPages.LeafPage.InsertAt | src/page/b_plus_tree_leaf_page.cpp:136-146 | Shifting later pairs right and writing the pair puts it at the index and keeps the rest in order. |
| LeafPages.LeafPage.RemoveAt | src/page/b_plus_tree_leaf_page.cpp:220-226 | Shifting later pairs left drops exactly the pair at the index. |
| LeafPages.LeafPage.Insert | src/page/b_plus_tree_leaf_page.cpp:116-147 | Corrected duplicate test: a key already present gives -1 and leaves the page unchanged. Otherwise the pair goes in at its lower bound and the new size is returned. |
| LeafPages.LeafPage.InsertAsWritten | src/page/b_plus_tree_leaf_page.cpp:116-147 | As written: the pair always goes in at the key's lower bound and the size grows, even when the key is present. |
| LeafPages.LeafPage.Lookup | src/page/b_plus_tree_leaf_page.cpp:177-191 | The value at the key's lower bound when that pair has the key, otherwise none. |
| LeafPages.LeafPage.RemoveAndDeleteRecord | src/page/b_plus_tree_leaf_page.cpp:202-233 | On an empty page it returns -1 and changes nothing. Otherwise the pair with the key, if any, is removed and the new size returned. |
| LeafPages.LeafPage.MoveHalfTo | src/page/b_plus_tree_leaf_page.cpp:155-159 | The upper `size / 2` pairs move to the recipient, in order, and the lower part stays. |
| LeafPages.LeafPage.CopyNFrom | src/page/b_plus_tree_leaf_page.cpp:164-167 | The page afterwards holds exactly the given pairs. |
| LeafPages.LeafPage.MoveAllTo | src/page/b_plus_tree_leaf_page.cpp:243-250 | All pairs are appended to the recipient, which takes over this page's next link. This page ends up empty. |
| LeafPages.LeafPage.MoveFirstToEndOf | src/page/b_plus_tree_leaf_page.cpp:259-271 | The first pair moves to the recipient's end. |
| LeafPages.LeafPage.CopyLastFrom | src/page/b_plus_tree_leaf_page.cpp:276-281 | Appends the pair. |
| LeafPages.LeafPage.MoveLastToFrontOf | src/page/b_plus_tree_leaf_page.cpp:286-290 | The last pair moves to the recipient's front, and together the two pages hold the same pairs. |
| LeafPages.LeafPage.CopyFirstFrom | src/page/b_plus_tree_leaf_page.cpp:296-309 | Prepends the pair, shifting the others right. |
| LeafPages.LowerBound | src/page/b_plus_tree_leaf_page.cpp:51-69 | The index of the first key not below the search key: every key before it is smaller. |
| LeafPages.KeyIndexIsLowerBound | src/page/b_plus_tree_leaf_page.cpp:51-69 | On a sorted page the binary search finds the lower bound. |
| LeafPages.SearchFromIsLowerBound | src/page/b_plus_tree_leaf_page.cpp:52-68 | Each halving step of the search keeps the lower bound between its limits. |
| LeafPages.InsertContents | src/page/b_plus_tree_leaf_page.cpp:116-147 | Insertion adds exactly the new pair to the multiset of pairs. |
| LeafPages.InsertKeepsSorted | src/page/b_plus_tree_leaf_page.cpp:116-147 | Inserting at the lower bound keeps the keys sorted. |
| LeafPages.InsertKeepsStrictlySorted | src/page/b_plus_tree_leaf_page.cpp:116-147 | With the corrected duplicate test, keys stay strictly increasing. |
| LeafPages.DuplicateInsertedTwice | src/page/b_plus_tree_leaf_page.cpp:116-147 | Inserting a key the page already holds, as written, stores it twice, next to each other. |
| LeafPages.LookupSound | src/page/b_plus_tree_leaf_page.cpp:177-191 | A value found is stored under the key. |
| LeafPages.LookupComplete | src/page/b_plus_tree_leaf_page.cpp:177-191 | On a sorted page the lookup fails exactly when no pair has the key. |
| LeafPages.LeafRemove | src/page/b_plus_tree_leaf_page.cpp:202-233 | Removal shortens the page by one exactly when the key is present. |
| LeafPages.RemoveContents | src/page/b_plus_tree_leaf_page.cpp:202-233 | Removal takes out exactly the pair found and nothing when the key is absent. |
| LeafPages.RemoveKeepsSorted | src/page/b_plus_tree_leaf_page.cpp:202-233 | Removal keeps the keys sorted. |
| LeafPages.LookupAfterInsert | src/page/b_plus_tree_leaf_page.cpp:116-191 | After inserting a pair into a sorted page, looking up its key finds its value. |
| LeafPages.LookupOtherAfterInsert | src/page/b_plus_tree_leaf_page.cpp:116-191 | Inserting does not change the lookup of any other key. |
| LeafPages.RemoveAfterInsert | src/page/b_plus_tree_leaf_page.cpp:116-233 | Removing the key just inserted restores the page. |
| LeafPages.KeepCount | src/page/b_plus_tree_leaf_page.cpp:155-159 | The split keeps `size - size / 2` pairs and moves `size / 2`. |
| LeafPages.SplitHalves | src/page/b_plus_tree_leaf_page.cpp:155-159 | The halves of a sorted page are sorted, concatenate back to the page, and every key on the left is at most every key on the right. |
| InternalPages.InternalPage.constructor | src/page/b_plus_tree_internal_page.cpp:19-26 | A page over an array of the given capacity, holding no pairs. |
| InternalPages.InternalPage.Init | src/page/b_plus_tree_internal_page.cpp:19-26 | Sets the page id, parent id and maximum size, and empties the page. |
| InternalPages.InternalPage.ValueIndex | src/page/b_plus_tree_internal_page.cpp:47-53 | The first slot whose child is the given page, or -1 when no slot has it. |
| InternalPages.InternalPage.Lookup | src/page/b_plus_tree_internal_page.cpp:71-89 | The binary search picks the child `RouteSlot` names, which on sorted separators is the one child whose range holds the key (see `RouteSlotIsChildSlot`). |
| InternalPages.InternalPage.PopulateNewRoot | src/page/b_plus_tree_internal_page.cpp:100-105 | A new root has exactly two slots: the old child, then the separator with the new child. |
| InternalPages.InternalPage.InsertAt | src/page/b_plus_tree_internal_page.cpp:118-126 | Shifting later slots right puts the slot at the index. |
| InternalPages.InternalPage.InsertNodeAfter | src/page/b_plus_tree_internal_page.cpp:112-128 | The new slot goes right after the old child's slot, and the new size is returned. |
| InternalPages.InternalPage.MoveHalfTo | src/page/b_plus_tree_internal_page.cpp:137-142 | The upper `size / 2` slots move to the recipient, and the moved children are re-parented to it. |
| InternalPages.InternalPage.CopyNFrom | src/page/b_plus_tree_internal_page.cpp:149-159 | The page afterwards holds exactly the given slots, and each of their children records this page as its parent. |
| InternalPages.InternalPage.Remove | src/page/b_plus_tree_internal_page.cpp:169-181 | Drops exactly the slot at the index. |
| InternalPages.InternalPage.RemoveAndReturnOnlyChild | src/page/b_plus_tree_internal_page.cpp:187-190 | Returns the first child and empties the page. |
| InternalPages.InternalPage.MoveAllTo | src/page/b_plus_tree_internal_page.cpp:203-217 | The recipient gains all slots, the first one carrying the middle key. Their children are re-parented, and this page ends up empty. |
| InternalPages.InternalPage.MoveFirstToEndOf | src/page/b_plus_tree_internal_page.cpp:230-235 | The first child moves to the recipient's end under the middle key and is re-parented. |
| InternalPages.InternalPage.CopyLastFrom | src/page/b_plus_tree_internal_page.cpp:241-250 | Appends the slot and re-parents its child. |
| InternalPages.InternalPage.MoveLastToFrontOf | src/page/b_plus_tree_internal_page.cpp:259-265 | The last child moves to the recipient's front, and the recipient's old first slot takes the middle key. |
| InternalPages.InternalPage.CopyFirstFrom | src/page/b_plus_tree_internal_page.cpp:271-289 | Prepends the slot and re-parents its child. |
| InternalPages.Reparent | src/page/b_plus_tree_internal_page.cpp:149-159 | Every child of the slots records the new parent, and every other page keeps its parent. |
| InternalPages.ChildSlot | src/page/b_plus_tree_internal_page.cpp:71-89 | The slot whose separator is at most the key while the next separator is above it. |
| InternalPages.RouteSlotIsChildSlot | src/page/b_plus_tree_internal_page.cpp:71-89 | On sorted separators the binary search routes to that slot. |
| InternalPages.SlotSearchRoutes | src/page/b_plus_tree_internal_page.cpp:72-88 | Each halving step keeps the routed slot between its limits. |
| InternalPages.ChildIndex | src/page/b_plus_tree_internal_page.cpp:47-53 | Either the first slot with the child, or -1 with no slot having it. |
| InternalPages.ChildIndexAfterInsert | src/page/b_plus_tree_internal_page.cpp:112-128 | After inserting after the old child, the new child sits one slot after the old child. |
| InternalPages.RemoveAfterInsertAfter | src/page/b_plus_tree_internal_page.cpp:112-181 | Removing the slot just inserted after a child restores the page. |
| InternalPages.SplitChildren | src/page/b_plus_tree_internal_page.cpp:137-142 | A split divides the children between the two pages. |
| InternalPages.NewRootRoutes | src/page/b_plus_tree_internal_page.cpp:100-105 | A new root routes keys below the separator to the old child and the others to the new child. |
| InternalPages.WithFirstKeyChildren | src/page/b_plus_tree_internal_page.cpp:203-217 | Setting the first key keeps the children. |
| InternalPages.Adopt | src/page/b_plus_tree_internal_page.cpp:149-159 | Re-parenting gives the slots' children the new parent and leaves other pages' parents alone. |
| BPlusTrees.BPlusTree.constructor | src/index/b_plus_tree.cpp:10-30 | An empty tree, which is a search tree. A maximum size of 0 selects the page-size default. |
| BPlusTrees.BPlusTree.IsEmpty | src/index/b_plus_tree.cpp:44-49 | An empty tree has no leaf to reach for any key. |
| BPlusTrees.BPlusTree.FindLeafPage | src/index/b_plus_tree.cpp:627-653 | The descent from the root, always to child 0 or to the child `Lookup` picks, reaches the leaf `FindLeaf` names. |
| BPlusTrees.BPlusTree.GetValue | src/index/b_plus_tree.cpp:59-84 | Found exactly when the leaf reached holds the key. The value is then appended to the result and the pair is one of the tree's pairs. On a search tree, found exactly when some pair of the tree has the key. |
| BPlusTrees.BPlusTree.StartNewTree | src/index/b_plus_tree.cpp:111-124 | A new leaf root holds exactly the pair, and the tree's pairs gain exactly it. An empty search tree becomes a one-leaf search tree. |
| BPlusTrees.BPlusTree.Insert | src/index/b_plus_tree.cpp:96-104 | Corrected (the leaf's duplicate test compares keys): into an empty tree it always succeeds. Otherwise it succeeds exactly when the leaf reached lacks the key. On a search tree, it succeeds exactly when no pair of the tree has the key. On success the pairs gain exactly the new pair; on failure nothing changes. An empty search tree, or a leaf that does not split, leaves a search tree. |
| BPlusTrees.BPlusTree.InsertIntoLeaf | src/index/b_plus_tree.cpp:134-150 | Corrected (the leaf's duplicate test compares keys): the same promise for a non-empty tree, including the split of a full leaf. A search tree whose leaf does not split stays a search tree. |
| BPlusTrees.BPlusTree.InsertIntoLeafAsWritten | src/index/b_plus_tree.cpp:134-150 | As written: the pair joins the tree whenever a leaf is reached. When the key was already stored, the tree is then no search tree. |
| BPlusTrees.BPlusTree.PutLeafItems | src/index/b_plus_tree.cpp:137 | The leaf gains the pair in key order and every descent ends where it did. A key new to the leaf a search reaches keeps a search tree. |
| BPlusTrees.BPlusTree.SplitLeaf | src/index/b_plus_tree.cpp:160-184 | The upper half moves to a fresh leaf linked after the old one. The pairs are kept. |
| BPlusTrees.BPlusTree.SplitInternal | src/index/b_plus_tree.cpp:160-184 | The upper half moves to a fresh internal page. The pairs are kept. |
| BPlusTrees.BPlusTree.NewRoot | src/index/b_plus_tree.cpp:195-205 | A fresh root over the two halves becomes both halves' parent. |
| BPlusTrees.BPlusTree.InsertIntoParent | src/index/b_plus_tree.cpp:195-225 | Wiring a split into its parent, splitting upward as needed, keeps the tree's pairs. |
| BPlusTrees.BPlusTree.Remove | src/index/b_plus_tree.cpp:237-282 | Corrected (it uses the corrected root adjustment): when the leaf reached holds the key, exactly that pair leaves the tree. Otherwise nothing changes. On a search tree, no pair with the key remains. |
| BPlusTrees.BPlusTree.CoalesceOrRedistribute | src/index/b_plus_tree.cpp:291-418 | Rebalancing an underfull page keeps the tree's pairs. A leaf first copies its slot-0 key, the removed key when it is empty, into the parent. |
| BPlusTrees.BPlusTree.Coalesce | src/index/b_plus_tree.cpp:430-466 | Merging with a sibling and removing the parent slot keeps the pairs. |
| BPlusTrees.BPlusTree.MergeLeaves | src/index/b_plus_tree.cpp:430-466 | The merged leaf holds both leaves' pairs in order and takes over the next link. |
| BPlusTrees.BPlusTree.MergeInternal | src/index/b_plus_tree.cpp:430-466 | The merged page holds both pages' slots, with the parent's separator as the middle key. |
| BPlusTrees.BPlusTree.Redistribute | src/index/b_plus_tree.cpp:503-543 | Borrowing one pair from a sibling keeps the pairs. |
| BPlusTrees.BPlusTree.RedistributeLeaf | src/index/b_plus_tree.cpp:503-518 | The pair moves, the pairs are kept, and the parent's separator for the right-hand leaf becomes that leaf's new first key (the moved key when the right sibling is left empty). The result is false exactly when the parent does not list that leaf. |
| BPlusTrees.BPlusTree.BorrowFirstLeaf | src/index/b_plus_tree.cpp:503-543 | The right sibling's first pair moves to the end of the page. |
| BPlusTrees.BPlusTree.BorrowLastLeaf | src/index/b_plus_tree.cpp:503-543 | The left sibling's last pair moves to the front of the page. |
| BPlusTrees.BPlusTree.RedistributeInternal | src/index/b_plus_tree.cpp:503-543 | Borrowing between internal pages keeps the pairs. |
| BPlusTrees.BPlusTree.AdjustRoot | src/index/b_plus_tree.cpp:554-570 | Corrected: a root is replaced exactly when it is empty, or is an internal page with one child. The only child becomes the root, and an empty root empties the tree. The pairs are kept. |
| BPlusTrees.BPlusTree.AdjustRootAsWritten | src/index/b_plus_tree.cpp:554-570 | As written: any root with at most one slot is replaced. A leaf root's one pair is then read as a child page id. |
| BPlusTrees.AdjustedRoot | src/index/b_plus_tree.cpp:554-570 | The corrected decision: a new root exactly for an empty root or an internal root with one child. An empty leaf root gives the invalid id. |
| BPlusTrees.AdjustedRootAsWritten | src/index/b_plus_tree.cpp:554-570 | The decision as written: a new root exactly when the size is at most one. It agrees with the corrected one on internal pages. |
| BPlusTrees.LeafRootLostAsWritten | src/index/b_plus_tree.cpp:554-570 | For every leaf root holding one pair, adjusted as written with any misread id other than its own, the pair cannot be found from the new root, although the corrected decision keeps the root and finds it. |
| BPlusTrees.BPlusTree.Begin | src/index/b_plus_tree.cpp:580-585 | The leftmost leaf, at slot 0. The leftmost descent does not depend on the key. On a search tree, a position exactly when the tree holds pairs. |
| BPlusTrees.BPlusTree.BeginAt | src/index/b_plus_tree.cpp:592-598 | Corrected: the first pair whose key is at least the search key. That is the lower bound on the leaf reached, or the next leaf's first pair when every key there is smaller. |
| BPlusTrees.BPlusTree.BeginAtAsWritten | src/index/b_plus_tree.cpp:592-598 | As written: the leaf reached, at the key's lower bound there, which can be one past its last slot. |
| BPlusTrees.BPlusTree.End | src/index/b_plus_tree.cpp:605-617 | The last slot of the last leaf reached along the next links from the leftmost leaf. On a search tree, a position exactly when the tree holds pairs. |
| BPlusTrees.FindLeaf | src/index/b_plus_tree.cpp:627-653 | A leaf found is a leaf page of the tree. |
| BPlusTrees.FindLeafAfterLeafUpdate | src/index/b_plus_tree.cpp:134-150 | Rewriting a leaf's pairs does not change where any descent ends. |
| BPlusTrees.LeftMostIgnoresKey | src/index/b_plus_tree.cpp:580-585 | The leftmost descent reaches the same leaf for every key. |
| BPlusTrees.LastLeaf | src/index/b_plus_tree.cpp:605-617 | The walk ends on a leaf with no next link. |
| BPlusTrees.ItemsAdd | src/index/b_plus_tree.cpp:160-184 | A fresh page adds exactly its pairs to the tree's pairs. |
| BPlusTrees.ItemsDelete | src/index/b_plus_tree.cpp:430-466 | Deleting a page takes exactly its pairs out of the tree's pairs. |
| BPlusTrees.ItemsMove | src/index/b_plus_tree.cpp:503-543 | Rewriting two pages whose pairs together are unchanged keeps the tree's pairs. |
| BPlusTrees.SearchFindsStored | src/index/b_plus_tree.cpp:59-84 | In a search tree, the search for a key reaches a leaf holding it exactly when some pair of the tree has the key. |
| BPlusTrees.KeysUnique | src/index/b_plus_tree.cpp:131-133 | In a search tree, two pairs with one key are the same pair, held once. |
| BPlusTrees.DuplicateKeyBreaksShape | src/index/b_plus_tree.cpp:131-133 | No arena holding two pairs under one key is a search tree. |
| BPlusTrees.RemovedKeyGone | src/index/b_plus_tree.cpp:237-282 | Taking a pair out of a search tree leaves no pair with its key. |
| BPlusTrees.InsertKeepsShape | src/index/b_plus_tree.cpp:134-150 | Adding a new key to the leaf its search reaches keeps the tree a search tree of the same height. |
| BPlusTrees.NewTreeShape | src/index/b_plus_tree.cpp:111-124 | A fresh one-pair leaf root over an empty arena is a search tree of height 0. |
| BPlusTrees.LeavesHoldItems | src/index/b_plus_tree.cpp:580-617 | The leaves of a search tree, read left to right, hold exactly its pairs in strictly increasing key order, each leaf once and each holding pairs. |
| BPlusTrees.ShapedOrdered | src/index/b_plus_tree.cpp:627-653 | A shaped subtree's leaves, read left to right, hold strictly increasing keys, all within the subtree's key range. |
| BPlusTrees.SearchReaches | src/index/b_plus_tree.cpp:627-653 | In a shaped subtree, the search for a key reaches one of its leaves, the one whose key range holds the key. |
| BPlusTrees.LeftmostFinds | src/index/b_plus_tree.cpp:580-585 | In a shaped subtree, the leftmost descent reaches its first leaf. |
| BPlusTrees.HeightBelowSize | src/index/b_plus_tree.cpp:627-653 | A shaped subtree is lower than the number of pages, so a descent bounded by that number is never cut off. |
| BPlusTrees.ScanBounds | src/index/b_plus_tree.cpp:580-617 | In a search tree, the leftmost descent names a leaf exactly when the tree holds pairs, and the next links from it reach a last leaf. |
| BPlusTrees.LinkedLast | src/index/b_plus_tree.cpp:605-617 | Along linked leaves, the walk of `End` reaches the last one. |
| IndexIterators.IndexIterator.constructor | src/index/index_iterator.cpp:8-11 | The iterator stands at the position and holds one pin on its page. |
| IndexIterators.IndexIterator.Destroy | src/index/index_iterator.cpp:13-16 | Releases the iterator's pin unless it stands on the invalid page. |
| IndexIterators.IndexIterator.Get | src/index/index_iterator.cpp:18-20 | The pair at the position, which is one of the tree's pairs. |
| IndexIterators.IndexIterator.Next | src/index/index_iterator.cpp:22-39 | Moves to `Advance` of the position, moving its pin with it. |
| IndexIterators.IndexIterator.Equal | src/index/index_iterator.cpp:41-43 | True exactly when the positions agree. |
| IndexIterators.IndexIterator.NotEqual | src/index/index_iterator.cpp:45-47 | True exactly when the positions differ. |
| IndexIterators.ItemAtIsStored | src/index/index_iterator.cpp:18-20 | The pair at a valid position is one of the tree's pairs. |
| IndexIterators.AdvanceWalksLeaf | src/index/index_iterator.cpp:22-39 | From slot 0, `k` steps reach slot `k` of the same leaf. |
| IndexIterators.AdvanceFollowsLink | src/index/index_iterator.cpp:22-28 | From a leaf's last slot, a step goes to the next leaf's slot 0. |
| IndexIterators.EndIsFixedPoint | src/index/index_iterator.cpp:29-31 | `End` is a fixed point of `++`. |
| IndexIterators.AdvanceByStays | src/index/index_iterator.cpp:29-31 | A fixed point of one step stays put for any number of steps. |
| IndexIterators.AdvanceByLast | src/index/index_iterator.cpp:22-39 | `k + 1` steps are `k` steps followed by one. |
| IndexIterators.PastLastSlotNeverAdvances | src/index/index_iterator.cpp:22-39 | From one past a leaf's last slot, each step only goes further past it and never reaches a pair. |
| IndexIterators.ScanReadsItems | src/index/index_iterator.cpp:22-39 | A full scan of a search tree from `Begin`: step `j` reads pair `j` of the tree's pairs in strictly increasing key order, every pair once, and the last step lands on `End`. |
| IndexIterators.ScanWalks | src/index/index_iterator.cpp:22-39 | Along linked leaves that hold pairs, step `j` reads pair `j` of the leaves. |
| IndexIterators.ScanEnds | src/index/index_iterator.cpp:22-39 | Along linked leaves that hold pairs, the last step lands on the last slot of the last leaf. |
| IndexIterators.CrossLink | src/index/index_iterator.cpp:22-28 | The steps past the first leaf's pairs go on from the next leaf's first slot. |
| IndexIterators.AdvanceByAdd | src/index/index_iterator.cpp:22-39 | `a + b` steps are `a` steps and then `b` more. |
| IndexIterators.EmptyScan | src/index/b_plus_tree.cpp:580-585 | An empty search tree has no leftmost leaf and no pairs. |
| Columns.NewColumn | src/record/column.cpp:5-18 | A non-CHAR column takes the given fields, with length 4 for INT and FLOAT. |
| Columns.NewCharColumn | src/record/column.cpp:20-28 | A CHAR column takes the given length and fields. |
| Columns.SerializedSize | src/record/column.cpp:63-65 | Four words, the name, the type word and two bools. |
| Columns.Encode | src/record/column.cpp:39-60 | The byte layout is exactly `GetSerializedSize` bytes long. |
| Columns.Decode | src/record/column.cpp:68-104 | A decoded column is well formed, and the bytes consumed are its serialised size. |
| Columns.RoundTrip | src/record/column.cpp:39-104 | Deserialising a serialised column gives the column back and consumes exactly its size. |
| Columns.DecodeEncoded | src/record/column.cpp:98-101 | Any encodable column decodes to the column its type's constructor rebuilds. |
| Columns.LengthFromType | src/record/column.cpp:98-101 | A non-CHAR column comes back with length 4, whatever length was stored. |
| Columns.MagicNotChecked | src/record/column.cpp:75-78 | The leading magic word does not affect the result. A wrong one is only logged. |
| Columns.TypeOfCode | src/record/column.cpp:87-88 | Type words 1 to 3 name the three types, and exactly those words do. |
| Columns.SerializeTo | src/record/column.cpp:39-60 | Writes exactly the column's encoding at the offset, leaves the rest of the buffer alone, and returns its size. |
| Columns.DeserializeFrom | src/record/column.cpp:68-104 | Reads exactly what `Decode` reads from the offset. |
| Schemas.Encode | src/record/schema.cpp:4-19 | The byte layout is exactly `GetSerializedSize` bytes long. |
| Schemas.Decode | src/record/schema.cpp:30-52 | The bytes consumed are the decoded schema's serialised size. |
| Schemas.RoundTrip | src/record/schema.cpp:4-52 | Deserialising a serialised schema gives it back and consumes exactly its size. |
| Schemas.ColumnsRoundTrip | src/record/schema.cpp:42-47 | The column loop reads back the columns written. |
| Schemas.MagicNotChecked | src/record/schema.cpp:36-39 | The leading magic word does not affect the result. |
| Schemas.SerializeTo | src/record/schema.cpp:4-19 | Writes exactly the schema's encoding and returns its size. |
| Schemas.WriteColumns | src/record/schema.cpp:11-15 | The column loop writes the columns one after another. |
| Schemas.DeserializeFrom | src/record/schema.cpp:30-52 | Reads exactly what `Decode` reads. |
| Schemas.ReadColumns | src/record/schema.cpp:42-47 | The column loop reads what the generic reader reads. |
| NullBitmaps.BitmapSize | src/record/row.cpp:14 | `ceil(n / 8)`: the fewest bytes with a bit for each of `n` fields. |
| NullBitmaps.BitmapBit | src/record/row.cpp:17-22 | Bit `7 - i % 8` of byte `i / 8` is set exactly when field `i` is not null. |
| NullBitmaps.FlagsOfBitmap | src/record/row.cpp:14-24 | Reading the bitmap back gives each field's presence. |
| NullBitmaps.Build | src/record/row.cpp:14-22 | The loop builds exactly that bitmap. |
| Rows.Encode | src/record/row.cpp:4-32 | The byte layout is exactly `GetSerializedSize` bytes long. |
| Rows.Decode | src/record/row.cpp:34-83 | A decode never consumes more than it is given. |
| Rows.DecodedRow | src/record/row.cpp:34-83 | A decoded row's fields follow the schema's column types, and it consumes exactly its serialised size. |
| Rows.DecodedFields | src/record/row.cpp:50-80 | The field loop reads one field per column, of the column's type, present exactly as the bitmap says. |
| Rows.EmptyRow | src/record/row.cpp:11-12 | A row with no fields is the count word 0 alone, and it reads back. |
| Rows.FieldRoundTrip | src/record/row.cpp:52-78 | A field written is read back. |
| Rows.FieldsRoundTrip | src/record/row.cpp:25-29 | Fields written one after another are read back, with their sizes. |
| Rows.RoundTrip | src/record/row.cpp:4-83 | Deserialising a serialised row under its schema gives the row back and consumes exactly its size. |
| Rows.SerializeTo | src/record/row.cpp:4-32 | Writes exactly the row's encoding and returns its size. |
| Rows.WriteBody | src/record/row.cpp:13-29 | Writes the bitmap and the fields after the count. |
| Rows.WriteFields | src/record/row.cpp:25-29 | The field loop writes the fields one after another. |
| Rows.DeserializeFrom | src/record/row.cpp:34-83 | Reads exactly what `Decode` reads. |
| Rows.ReadBody | src/record/row.cpp:46-80 | Reads the bitmap and the fields as `DecodeBody` does. |
| Rows.ReadFields | src/record/row.cpp:50-80 | The field loop reads what `DecodeFields` reads. |
| Rows.ReadField | src/record/row.cpp:52-78 | One field is read as `DecodeField` reads it. |
| CatalogMetas.Encode | src/catalog/catalog.cpp:3-23 | The byte layout is exactly `GetSerializedSize` bytes long. |
| CatalogMetas.Decode | src/catalog/catalog.cpp:25-52 | Succeeds only on a buffer that starts with the catalog magic number. |
| CatalogMetas.WrongMagic | src/catalog/catalog.cpp:27-29 | A buffer with a wrong magic number is rejected. |
| CatalogMetas.RoundTrip | src/catalog/catalog.cpp:3-52 | Deserialising serialised catalog metadata gives back both maps, whatever follows them. |
| CatalogMetas.MapsRoundTrip | src/catalog/catalog.cpp:11-22 | The two pair loops read back the two maps. |
| CatalogMetas.MapRoundTrip | src/catalog/catalog.cpp:11-16 | The pair loop reads back a map's pairs in ascending key order. |
| CatalogMetas.Layout | src/catalog/catalog.cpp:5-10 | The magic number, the table count and the index count lead the page, and the two maps follow. |
| CatalogMetas.Entries | src/catalog/catalog.cpp:11-16 | The map's pairs, one per key, with their values. |
| CatalogMetas.EntriesInOrder | src/catalog/catalog.cpp:11-16 | They cover every key, in strictly ascending order, as a `std::map` iterates. |
| CatalogMetas.EntryRoundTrip | src/catalog/catalog.cpp:12-15 | One pair, a `uint32_t` id and an `int32_t` page id, is read back. |
| CatalogMetas.FirstWins | src/catalog/catalog.cpp:42 | `emplace` in turn keeps one entry per id read, with the value of its first occurrence. |
| CatalogMetas.Rebuilt | src/catalog/catalog.cpp:37-43 | Emplacing a map's pairs in turn rebuilds the map. |
| CatalogMetas.SerializeTo | src/catalog/catalog.cpp:3-23 | Writes exactly the encoding at the offset and leaves the rest of the buffer alone. |
| CatalogMetas.WriteMap | src/catalog/catalog.cpp:11-16 | The loop writes a map's pairs, eight bytes each, in key order. |
| CatalogMetas.DeserializeFrom | src/catalog/catalog.cpp:25-52 | Reads exactly what `Decode` reads. |
| CatalogMetas.ReadMaps | src/catalog/catalog.cpp:37-50 | The two loops read what `DecodeMaps` reads. |
| CatalogMetas.ReadMap | src/catalog/catalog.cpp:37-43 | The loop fails exactly when the reader fails. Otherwise its map is the pairs read, emplaced in turn. |

## Left out

- The header files are not part of this model. Their constants are taken as
  follows, and no proved property depends on the exact values:
  - `PAGE_SIZE` is 4096;
  - `BITMAP_SIZE` is `8 * (PAGE_SIZE - 8)`;
  - `MAX_VALID_PAGE_ID` follows from them;
  - `CATALOG_METADATA_MAGIC_NUM` is 89849;
  - `COLUMN_MAGIC_NUM` is 210928 and `SCHEMA_MAGIC_NUM` is 200715;
  - the TypeId codes are INT 1, FLOAT 2 and CHAR 3;
  - `GetMinSize` is half the page's maximum size.
- The `Column` and `Schema` magic numbers are written, but not checked on
  reading. Their deserialisers only log a wrong one, and the model ignores
  it.
- The `Field` class and its serialiser are not part of this model. A field is
  its type plus its payload bytes: four bytes for INT and FLOAT; a length
  word and the bytes for CHAR.
- Reading past the end of a buffer is undefined in the engine. Here a decode
  that runs out of bytes gives None.
- `Row::GetKeyFromRow` is left out: it needs `Schema::GetColumnIndex`, which
  is not part of this model.
- The ASSERTs of `CatalogMeta`:
  - the size check is a precondition of `CatalogMetas.SerializeTo`;
  - a wrong magic number on reading gives None instead of aborting.
- `CatalogManager` and the rest of `catalog.cpp` are left out, as are the
  table heap and the executors.
- File I/O, file creation, logging and latches are left out. The database
  file is a map from physical page id to page contents, and a page never
  written reads as zeros.
- Keys are modelled as integers, since only their order matters. The key
  comparator, `GenericKey` and the key processor are left out.
- Tree pages live in an arena (a map from page id to page), not in the buffer
  pool. The pinning and unpinning calls of `b_plus_tree.cpp` are left out.
  Fresh page ids come from a counter standing for `NewPage`.
- `UpdateRootPageId` and the index-roots page are a ghost record of the root
  id only.
- `BPlusTree::Destroy`, the debugging output (`ToGraph`, `PrintTree`,
  `Check`) and `GetRootPageId` are left out.
- The tree's structural invariant, `SearchTree` (leaves at one height, key
  ranges per subtree, strictly sorted leaves, one chain of next links through
  all leaves holding pairs), is stated and proved for the queries, for an
  empty tree, for a new tree and for an insertion without a split. It does
  not cover the parent page ids, and it is not proved to survive splits or
  the rebalancing of a removal. Where the engine would dereference a page of
  the wrong kind, the model stops with the pages unchanged.
- BPlusTrees.BPlusTree.GetValue: the link between "found" and the tree's
  pairs holds only on a search tree.
- BPlusTrees.BPlusTree.Insert: is not proved to keep a search tree when the
  leaf splits (`InsertIntoParent`, `SplitLeaf`, `SplitInternal`, `NewRoot`).
- BPlusTrees.BPlusTree.InsertIntoLeaf: the same gap as `Insert` for a leaf
  that splits.
- BPlusTrees.BPlusTree.Remove: proves that no pair with the key remains, but
  not that a search tree survives the removal and its rebalancing.
- BPlusTrees.BPlusTree.Begin: the scan from `Begin` is proved on the leaf
  arena (`IndexIterators.ScanReadsItems`), not through the iterator object.
- BPlusTrees.BPlusTree.End: the same; `End` is the position the scan's last
  step reaches.
- BPlusTrees.FindLeaf: carries a fuel bound equal to the number of pages. A
  longer descent is cut off as None; on a cycle-free tree that never happens.
- BPlusTrees.LastLeaf: carries the same fuel bound on the next-link walk of
  `End`.
- BPlusTrees.BPlusTree.InsertIntoParent: promises only that the tree keeps
  its pairs, not the shape the engine intends.
- BPlusTrees.BPlusTree.CoalesceOrRedistribute: promises only that the tree
  keeps its pairs, not balance.
- BPlusTrees.BPlusTree.Coalesce: promises only that the tree keeps its pairs.
- BPlusTrees.BPlusTree.Redistribute: promises only that the tree keeps its
  pairs.
- BPlusTrees.BPlusTree.RedistributeInternal: promises only that the tree
  keeps its pairs.
- DiskManagers.DiskManager.ReadPage: the engine computes the byte offset
  `physical_page_id * PAGE_SIZE` and the file size in a 32-bit `int`
  (`src/storage/disk_manager.cpp:125-134`). Both overflow once the file
  passes 2 GiB, from physical page 524288 on. The model uses unbounded
  integers and reads the right page there.
- Column name lengths, CHAR lengths, counts and ids are 32-bit words in the
  engine. The model requires them to fit, and does not model truncation.

## Findings

| source | as written | input that shows it | evidently intended | confidence | as-written member | corrected member |
|---|---|---|---|---|---|---|
| src/buffer/buffer_pool_manager.cpp:105-128 | `DeletePage` puts the frame on the free list but never takes it out of the LRU replacer. | Fetch page p, unpin it (its frame f enters the replacer), then delete p. Frame f is now both free and evictable, and two misses both get f. | The frame leaves the replacer when it is freed (`replacer_->Pin(frame)`). | high, not executed | BufferPool.BufferPoolManager.DeletePageAsWritten | BufferPool.BufferPoolManager.DeletePage |
| src/index/b_plus_tree.cpp:554-570 | `AdjustRoot` treats any root of size 1 as an internal page and makes its slot-0 value the new root. | A root leaf holding keys 3 and 7. `Remove(3)` leaves one pair, `(7, r)`, and calls `AdjustRoot` (lines 258-260 of `Remove`). The root is replaced by the page id read from slot 0, and key 7 can no longer be found. | Only an internal root with one child is replaced; a leaf root with one pair stays. | high, not executed | BPlusTrees.LeafRootLostAsWritten | BPlusTrees.BPlusTree.AdjustRoot |
| src/page/b_plus_tree_leaf_page.cpp:116-147 | The duplicate test `KeyAt(i) == key` compares the addresses of two `GenericKey` objects, which never coincide, so a key already on the page is inserted again. | A leaf holding key 5; `Insert(5, r)` stores a second pair with key 5 next to the first. | Compare the keys with the comparator and return -1 on a match. | medium, not executed | LeafPages.DuplicateInsertedTwice | LeafPages.LeafPage.Insert |
| src/index/b_plus_tree.cpp:134-150 | `InsertIntoLeaf` reports a duplicate only when the leaf's `Insert` returns -1, which, as written, it never does. | A tree holding the pair (5, r); `Insert(5, r2)` returns true and the tree holds two pairs with key 5. | Reject the key when the leaf already holds it. | medium, not executed | BPlusTrees.BPlusTree.InsertIntoLeafAsWritten | BPlusTrees.BPlusTree.InsertIntoLeaf |
| src/index/b_plus_tree.cpp:592-598 | `Begin(key)` stands at the key's lower bound in the leaf reached, which is one past the last slot when every key there is smaller. `++` at that slot only increments the index, so the scan never reaches the next leaf. | A leaf holding keys 1 and 2 with a next leaf holding 5; `Begin(3)` stands at slot 2, and every `++` moves further past the leaf. | Begin at the next leaf's first pair when the lower bound is past the end. | high, not executed | IndexIterators.PastLastSlotNeverAdvances | BPlusTrees.BPlusTree.BeginAt |
