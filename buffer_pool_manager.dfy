/**
 * The buffer pool manager (src/buffer/buffer_pool_manager.cpp).
 *
 * A fixed array of frames caches disk pages. The page table maps the id of
 * each cached page to its frame, the free list holds the frames that cache
 * nothing, and the LRU replacer holds the frames that may be evicted. The
 * disk is the `DiskManager` of this model. A `Page *` the engine hands out is
 * modelled as the index of its frame, and `nullptr` as `None`.
 */
module BufferPool {
  import opened Common
  import opened LruReplacer
  import opened DiskManagers

  /** The metadata and contents of one frame (`Page` in the engine). */
  datatype Frame = Frame(pageId: PageId, data: Page, pinCount: nat, isDirty: bool)

  /** A frame that caches no page: what construction and `DeletePage` leave behind. */
  function EmptyFrame(): (fr: Frame)
    ensures fr.pageId == INVALID_PAGE_ID && fr.pinCount == 0 && !fr.isDirty && |fr.data| == PAGE_SIZE
  {
    Frame(INVALID_PAGE_ID, ZeroPage(), 0, false)
  }

  /**
   * The frame a miss takes, with the free list and the replacer's list
   * after taking it: the front of the free list when there is one, and
   * otherwise the replacer's victim, the back of its list.
   */
  function PickFrame(freeList: seq<nat>, victims: seq<nat>): (r: (nat, seq<nat>, seq<nat>))
    requires freeList != [] || victims != []
    ensures freeList != [] ==> r.0 in freeList && r.2 == victims
    ensures freeList == [] ==> r.0 in victims && r.1 == freeList
  {
    if freeList != [] then (freeList[0], freeList[1..], victims)
    else (victims[|victims| - 1], freeList, victims[..|victims| - 1])
  }

  /** `std::map::emplace`: an entry is added only when the key is not there yet. */
  function Emplace(m: map<PageId, nat>, k: PageId, v: nat): (r: map<PageId, nat>)
    ensures k in r && r[k] == (if k in m then m[k] else v)
    ensures forall p :: p != k ==> (p in r <==> p in m) && (p in m ==> r[p] == m[p])
  {
    if k in m then m else m[k := v]
  }

  /** The file after a frame is written back when it is dirty. */
  function WriteBack(file: map<nat, Page>, fr: Frame): map<nat, Page>
    requires fr.isDirty ==> fr.pageId >= 0
  {
    if fr.isDirty then file[MapPageId(fr.pageId) := fr.data] else file
  }

  /** Frame `f` caches the page that the table files under its page id. */
  ghost predicate MappedIn(frames: seq<Frame>, table: map<PageId, nat>, f: nat)
    requires f < |frames|
  {
    frames[f].pageId in table && table[frames[f].pageId] == f
  }

  /**
   * The bookkeeping of the pool:
   * - every frame holds a whole page;
   * - free frames are distinct and empty, and no table entry names one;
   * - every table entry names a frame that holds that page id, and the
   *   invalid id is filed (by `NewPage` on a full disk) only for a pinned frame;
   * - the replacer tracks exactly the unpinned frames that cache a page of the table;
   * - no frame goes missing: each is free, cached under its id, or pinned.
   */
  ghost predicate PoolValid(frames: seq<Frame>, table: map<PageId, nat>, free: seq<nat>, victims: seq<nat>)
  {
    (forall f :: 0 <= f < |frames| ==> |frames[f].data| == PAGE_SIZE) &&
    Distinct(free) && Below(free, |frames|) &&
    (forall i :: 0 <= i < |free| ==> frames[free[i]] == EmptyFrame()) &&
    (forall p :: p in table ==>
       table[p] < |frames| && table[p] !in free && frames[table[p]].pageId == p &&
       (p >= 0 || (p == INVALID_PAGE_ID && frames[table[p]].pinCount > 0))) &&
    (forall f :: 0 <= f < |frames| ==> (f in victims <==> MappedIn(frames, table, f) && frames[f].pinCount == 0)) &&
    (forall f :: 0 <= f < |frames| ==> f in free || MappedIn(frames, table, f) || frames[f].pinCount > 0)
  }

  /** A fresh pool: all frames empty and free, nothing cached, nothing evictable. */
  lemma InitialPoolValid(n: nat)
    ensures PoolValid(seq(n, _ => EmptyFrame()), map[], seq(n, f => f), [])
  {
    var frames := seq(n, _ => EmptyFrame());
    var free := seq(n, f => f);
    assert forall f :: 0 <= f < n ==> free[f] == f && frames[f] == EmptyFrame();
    forall f | 0 <= f < n
      ensures f in free
    {
      assert free[f] == f;
    }
    assert Distinct(free) && Below(free, n);
    assert forall i :: 0 <= i < |free| ==> frames[free[i]] == EmptyFrame();
  }

  /** The frame a miss takes is clean unless it holds a real page, and a victim is unpinned. */
  lemma PickedFrame(frames: seq<Frame>, table: map<PageId, nat>, free: seq<nat>, victims: seq<nat>)
    requires PoolValid(frames, table, free, victims) && Below(victims, |frames|)
    requires free != [] || victims != []
    ensures var f := PickFrame(free, victims).0;
      f < |frames| && (frames[f].isDirty ==> frames[f].pageId >= 0) &&
      (free != [] ==> frames[f] == EmptyFrame()) &&
      (free == [] ==> frames[f].pinCount == 0)
  {
    var f := PickFrame(free, victims).0;
    if free == [] {
      assert victims[|victims| - 1] == f;
      assert MappedIn(frames, table, f);
    } else {
      assert free[0] == f;
    }
  }

  /** With no free frame and nothing evictable, every frame is pinned. */
  lemma AllPinned(frames: seq<Frame>, table: map<PageId, nat>)
    requires PoolValid(frames, table, [], [])
    ensures forall f :: 0 <= f < |frames| ==> frames[f].pinCount > 0
  {
  }

  /** A hit pins a cached frame: it leaves the replacer and gains a pin. */
  lemma HitStep(frames: seq<Frame>, table: map<PageId, nat>, free: seq<nat>, victims: seq<nat>, p: PageId)
    requires PoolValid(frames, table, free, victims) && Distinct(victims)
    requires p in table
    ensures table[p] < |frames|
    ensures PoolValid(frames[table[p] := frames[table[p]].(pinCount := frames[table[p]].pinCount + 1)],
                      table, free, Pinned(victims, table[p]))
  {
    var f := table[p];
    var after := frames[f := frames[f].(pinCount := frames[f].pinCount + 1)];
    forall g | 0 <= g < |frames| && g != f
      ensures MappedIn(after, table, g) == MappedIn(frames, table, g)
    {
    }
  }

  /**
   * A miss re-files the frame `PickFrame` chooses under page `p`, with one
   * pin and the contents read from disk.
   */
  lemma MissStep(frames: seq<Frame>, table: map<PageId, nat>, free: seq<nat>, victims: seq<nat>, p: PageId, data: Page)
    requires PoolValid(frames, table, free, victims) && Distinct(victims) && Below(victims, |frames|)
    requires free != [] || victims != []
    requires p >= 0 && p !in table && |data| == PAGE_SIZE
    ensures var r := PickFrame(free, victims);
      r.0 < |frames| &&
      PoolValid(frames[r.0 := Frame(p, data, 1, false)], (table - {frames[r.0].pageId})[p := r.0], r.1, r.2)
  {
    var r := PickFrame(free, victims);
    var f := r.0;
    PickedFrame(frames, table, free, victims);
    var after := frames[f := Frame(p, data, 1, false)];
    var tableAfter := (table - {frames[f].pageId})[p := f];
    if free != [] {
      assert f == free[0] && f !in victims;
      assert forall i :: 0 <= i < |r.1| ==> r.1[i] == free[i + 1];
    } else {
      assert f == victims[|victims| - 1] && MappedIn(frames, table, f);
      assert forall g :: g in r.2 <==> g in victims && g != f;
    }
    forall g | 0 <= g < |frames| && g != f
      ensures MappedIn(after, tableAfter, g) ==> MappedIn(frames, table, g)
      ensures MappedIn(frames, table, g) && !MappedIn(after, tableAfter, g) ==> frames[g].pinCount > 0
    {
    }
  }

  /**
   * `NewPage` files the frame `PickFrame` chooses under the id `p` the disk
   * allocated, zeroed and with one pin; only a victim's old entry is erased,
   * and the new entry is added only if `p` is not filed yet.
   */
  lemma NewStep(frames: seq<Frame>, table: map<PageId, nat>, free: seq<nat>, victims: seq<nat>, p: PageId)
    requires PoolValid(frames, table, free, victims) && Distinct(victims) && Below(victims, |frames|)
    requires free != [] || victims != []
    requires p >= 0 || p == INVALID_PAGE_ID
    ensures var r := PickFrame(free, victims);
      r.0 < |frames| &&
      PoolValid(frames[r.0 := Frame(p, ZeroPage(), 1, false)],
                Emplace(if free != [] then table else table - {frames[r.0].pageId}, p, r.0), r.1, r.2)
  {
    PickedFrame(frames, table, free, victims);
    if free != [] {
      NewFromFreeList(frames, table, free, victims, p);
    } else {
      NewFromVictim(frames, table, victims, p);
    }
  }

  lemma NewFromFreeList(frames: seq<Frame>, table: map<PageId, nat>, free: seq<nat>, victims: seq<nat>, p: PageId)
    requires PoolValid(frames, table, free, victims) && free != []
    requires p >= 0 || p == INVALID_PAGE_ID
    ensures free[0] < |frames| &&
      PoolValid(frames[free[0] := Frame(p, ZeroPage(), 1, false)], Emplace(table, p, free[0]), free[1..], victims)
  {
    var f := free[0];
    var after := frames[f := Frame(p, ZeroPage(), 1, false)];
    var tableAfter := Emplace(table, p, f);
    assert frames[f] == EmptyFrame() && f !in victims;
    assert forall i :: 0 <= i < |free[1..]| ==> free[1..][i] == free[i + 1];
    forall g | 0 <= g < |frames| && g != f
      ensures MappedIn(after, tableAfter, g) == MappedIn(frames, table, g)
    {
    }
  }

  lemma NewFromVictim(frames: seq<Frame>, table: map<PageId, nat>, victims: seq<nat>, p: PageId)
    requires PoolValid(frames, table, [], victims) && Distinct(victims) && Below(victims, |frames|) && victims != []
    requires p >= 0 || p == INVALID_PAGE_ID
    ensures var f := victims[|victims| - 1];
      f < |frames| &&
      PoolValid(frames[f := Frame(p, ZeroPage(), 1, false)], Emplace(table - {frames[f].pageId}, p, f),
                [], victims[..|victims| - 1])
  {
    var f := victims[|victims| - 1];
    assert MappedIn(frames, table, f);
    var after := frames[f := Frame(p, ZeroPage(), 1, false)];
    var tableAfter := Emplace(table - {frames[f].pageId}, p, f);
    assert forall g :: g in victims[..|victims| - 1] <==> g in victims && g != f;
    forall g | 0 <= g < |frames| && g != f
      ensures MappedIn(after, tableAfter, g) == MappedIn(frames, table, g)
    {
    }
  }

  /** Unpinning drops one pin, ORs in the dirty flag, and hands the frame to the replacer at zero. */
  lemma UnpinStep(frames: seq<Frame>, table: map<PageId, nat>, free: seq<nat>, victims: seq<nat>, p: PageId, isDirty: bool)
    requires PoolValid(frames, table, free, victims)
    requires p >= 0 && p in table && frames[table[p]].pinCount > 0
    ensures var f := table[p]; var fr := frames[f];
      PoolValid(frames[f := fr.(pinCount := fr.pinCount - 1, isDirty := fr.isDirty || isDirty)],
                table, free, if fr.pinCount == 1 then [f] + victims else victims)
  {
    var f := table[p];
    var fr := frames[f];
    var after := frames[f := fr.(pinCount := fr.pinCount - 1, isDirty := fr.isDirty || isDirty)];
    forall g | 0 <= g < |frames| && g != f
      ensures MappedIn(after, table, g) == MappedIn(frames, table, g)
    {
    }
  }

  /** Writing a cached page back only clears its dirty flag. */
  lemma FlushStep(frames: seq<Frame>, table: map<PageId, nat>, free: seq<nat>, victims: seq<nat>, p: PageId)
    requires PoolValid(frames, table, free, victims) && p in table
    ensures table[p] < |frames|
    ensures PoolValid(frames[table[p] := frames[table[p]].(isDirty := false)], table, free, victims)
  {
    var f := table[p];
    var after := frames[f := frames[f].(isDirty := false)];
    forall g | 0 <= g < |frames| && g != f
      ensures MappedIn(after, table, g) == MappedIn(frames, table, g)
    {
    }
  }

  /**
   * Deleting an unpinned cached page empties its frame, drops its entry,
   * returns the frame to the back of the free list and takes it out of the
   * replacer.
   */
  lemma DeleteStep(frames: seq<Frame>, table: map<PageId, nat>, free: seq<nat>, victims: seq<nat>, p: PageId)
    requires PoolValid(frames, table, free, victims) && Distinct(victims)
    requires p in table && frames[table[p]].pinCount == 0 && !frames[table[p]].isDirty
    ensures var f := table[p];
      f in victims &&
      PoolValid(frames[f := EmptyFrame()], table - {p}, free + [f], Pinned(victims, f))
  {
    var f := table[p];
    var after := frames[f := EmptyFrame()];
    var tableAfter := table - {p};
    assert MappedIn(frames, table, f);
    assert forall i :: 0 <= i < |free| ==> (free + [f])[i] == free[i];
    forall g | 0 <= g < |frames| && g != f
      ensures MappedIn(after, tableAfter, g) == MappedIn(frames, table, g)
    {
    }
  }

  /**
   * A miss for page `p` took frame `f` as `PickFrame` chooses (a victim is
   * unpinned), wrote its old page back when dirty, re-filed it under `p`
   * alone, and filled it with `p` as the disk then holds it, pinned once and
   * clean.
   */
  ghost predicate Loaded(frames: seq<Frame>, table: map<PageId, nat>, free: seq<nat>, victims: seq<nat>,
                         file: map<nat, Page>, p: PageId, f: nat,
                         frames': seq<Frame>, table': map<PageId, nat>, free': seq<nat>, victims': seq<nat>,
                         file': map<nat, Page>)
  {
    p >= 0 && (free != [] || victims != []) && f < |frames| &&
    (f, free', victims') == PickFrame(free, victims) &&
    (free == [] ==> frames[f].pinCount == 0) &&
    (frames[f].isDirty ==> frames[f].pageId >= 0) &&
    table' == (table - {frames[f].pageId})[p := f] &&
    file' == WriteBack(file, frames[f]) &&
    frames' == frames[f := Frame(p, PhysicalPage(file', MapPageId(p)), 1, false)]
  }

  /** `DeletePage` removes a cached page: its id is valid and filed, and its frame is unpinned. */
  ghost predicate Deletes(table: map<PageId, nat>, frames: seq<Frame>, p: PageId)
  {
    p != INVALID_PAGE_ID && p in table && table[p] < |frames| && frames[table[p]].pinCount == 0
  }

  /** No pool state holds a frame that is both free and evictable. */
  lemma BothFreeAndEvictable(frames: seq<Frame>, table: map<PageId, nat>, free: seq<nat>, victims: seq<nat>, f: nat)
    requires f < |frames| && f in free && f in victims
    ensures !PoolValid(frames, table, free, victims)
  {
  }

  /**
   * `NewPage` took frame `f` as `PickFrame` chooses, wrote a victim's old page
   * back when dirty and erased its entry, asked the disk for the first free
   * page `p` (the invalid id on a full disk), and filed `f` under `p` unless
   * `p` was filed already, zeroed, pinned once and clean.
   */
  ghost predicate Created(frames: seq<Frame>, table: map<PageId, nat>, free: seq<nat>, victims: seq<nat>,
                          file: map<nat, Page>, used: seq<nat>, numAllocated: nat, f: nat, p: PageId,
                          frames': seq<Frame>, table': map<PageId, nat>, free': seq<nat>, victims': seq<nat>,
                          file': map<nat, Page>, used': seq<nat>, numAllocated': nat)
  {
    (free != [] || victims != []) && f < |frames| &&
    (f, free', victims') == PickFrame(free, victims) &&
    (free != [] ==> frames[f] == EmptyFrame()) &&
    (free == [] ==> frames[f].pinCount == 0) &&
    (frames[f].isDirty ==> frames[f].pageId >= 0) &&
    table' == Emplace(if free != [] then table else table - {frames[f].pageId}, p, f) &&
    frames' == frames[f := Frame(p, ZeroPage(), 1, false)] &&
    (numAllocated >= MAX_VALID_PAGE_ID ==>
       p == INVALID_PAGE_ID && file' == WriteBack(file, frames[f]) && used' == used && numAllocated' == numAllocated) &&
    (numAllocated < MAX_VALID_PAGE_ID ==>
       AllocatedFirstFit(WriteBack(file, frames[f]), used, numAllocated, file', used', numAllocated', p))
  }

  /**
   * Frees frame `f` for another page. Both checks a miss makes before
   * taking a frame pass here, yet `PickFrame` hands out `f` again while it
   * is pinned: a frame that is both on the free list and in the replacer is
   * taken once from the free list and, with the free list then empty, once
   * more as the victim.
   */
  lemma FrameHandedOutTwice(f: nat)
    ensures var first := PickFrame([f], [f]);
      first.0 == f && first.1 == [] && first.2 == [f] &&
      PickFrame(first.1, first.2).0 == f
  {
  }

  class BufferPoolManager {
    const poolSize: nat
    /** `pages_`: the frames. */
    const pages: array<Frame>
    const replacer: LRUReplacer
    const disk: DiskManager
    /** `page_table_`: page id to frame. */
    var pageTable: map<PageId, nat>
    /** `free_list_`: frames that cache no page, front first. */
    var freeList: seq<nat>

    ghost predicate Valid()
      reads this, pages, replacer, replacer.cache, disk
    {
      pages.Length == poolSize && replacer.numPages == poolSize &&
      replacer.Valid() && disk.Valid() &&
      PoolValid(pages[..], pageTable, freeList, replacer.victims)
    }

    /** Every frame starts empty and on the free list, in order. */
    constructor (poolSize: nat, disk: DiskManager)
      requires disk.Valid()
      ensures Valid() && fresh(pages) && fresh(replacer) && fresh(replacer.cache)
      ensures this.poolSize == poolSize && this.disk == disk
      ensures freeList == seq(poolSize, f => f) && pageTable == map[] && replacer.victims == []
      ensures pages[..] == seq(poolSize, _ => EmptyFrame())
    {
      this.poolSize := poolSize;
      this.disk := disk;
      pages := new Frame[poolSize](_ => EmptyFrame());
      replacer := new LRUReplacer(poolSize);
      pageTable := map[];
      var frames := [];
      var i := 0;
      while i < poolSize
        invariant i <= poolSize && frames == seq(i, f => f)
      {
        frames := frames + [i];
        i := i + 1;
      }
      freeList := frames;
      new;
      assert pages[..] == seq(poolSize, _ => EmptyFrame());
      InitialPoolValid(poolSize);
    }

    /** Step 1.2 of a miss: the front of the free list, else the replacer's victim. */
    method TakeFrame() returns (f: nat)
      requires Valid() && (freeList != [] || replacer.victims != [])
      modifies this, replacer, replacer.cache
      ensures (f, freeList, replacer.victims) == PickFrame(old(freeList), old(replacer.victims))
      ensures pageTable == old(pageTable) && replacer.Valid()
    {
      if |freeList| != 0 {
        f := freeList[0];
        freeList := freeList[1..];
      } else {
        var ok;
        ok, f := replacer.Victim();
      }
    }

    /**
     * Brings page `pageId` into the pool and pins it. A resident page gains a
     * pin; otherwise a frame is taken (free list first), written back when
     * dirty, re-filed under `pageId` and filled from disk.
     */
    method FetchPage(pageId: PageId) returns (frame: Option<nat>)
      requires Valid() && (pageId == INVALID_PAGE_ID || pageId >= 0)
      modifies this, pages, replacer, replacer.cache, disk
      ensures Valid()
      ensures frame == None <==>
        (pageId == INVALID_PAGE_ID || (pageId !in old(pageTable) && old(freeList) == [] && old(replacer.victims) == []))
      ensures frame == None ==> unchanged(this, pages, replacer, replacer.cache, disk)
      ensures frame == None && pageId != INVALID_PAGE_ID ==> forall f :: 0 <= f < poolSize ==> pages[f].pinCount > 0
      ensures frame.Some? && pageId in old(pageTable) ==>
        var f := old(pageTable)[pageId];
        frame.value == f && f < poolSize &&
        pages[..] == old(pages[..])[f := old(pages[f]).(pinCount := old(pages[f]).pinCount + 1)] &&
        pageTable == old(pageTable) && freeList == old(freeList) &&
        replacer.victims == Pinned(old(replacer.victims), f) && unchanged(disk)
      ensures frame.Some? && pageId !in old(pageTable) ==>
        pageId >= 0 &&
        Loaded(old(pages[..]), old(pageTable), old(freeList), old(replacer.victims), old(disk.file), pageId, frame.value,
               pages[..], pageTable, freeList, replacer.victims, disk.file) &&
        disk.numAllocatedPages == old(disk.numAllocatedPages) && disk.extentUsedPage == old(disk.extentUsedPage)
    {
      if pageId == INVALID_PAGE_ID {
        return None;
      }
      if pageId !in pageTable {
        var n := replacer.Size();
        if |freeList| == 0 && n == 0 {
          AllPinned(pages[..], pageTable);
          return None;
        }
        var f := FetchFromDisk(pageId);
        return Some(f);
      }
      var f := PinResident(pageId);
      frame := Some(f);
    }

    /**
     * Allocates a disk page and caches it, zeroed and pinned once, in a frame
     * taken as `FetchPage` takes one. With every frame pinned nothing changes
     * and no page is allocated.
     */
    method NewPage() returns (frame: Option<nat>, pageId: PageId)
      requires Valid()
      modifies this, pages, replacer, replacer.cache, disk
      ensures Valid()
      ensures frame == None <==> old(freeList) == [] && old(replacer.victims) == []
      ensures frame == None ==>
        pageId == INVALID_PAGE_ID && unchanged(this, pages, replacer, replacer.cache, disk) &&
        forall f :: 0 <= f < poolSize ==> pages[f].pinCount > 0
      ensures frame.Some? ==>
        Created(old(pages[..]), old(pageTable), old(freeList), old(replacer.victims),
                old(disk.file), old(disk.extentUsedPage), old(disk.numAllocatedPages), frame.value, pageId,
                pages[..], pageTable, freeList, replacer.victims,
                disk.file, disk.extentUsedPage, disk.numAllocatedPages)
    {
      var n := replacer.Size();
      if |freeList| == 0 && n == 0 {
        AllPinned(pages[..], pageTable);
        return None, INVALID_PAGE_ID;
      }
      var f;
      f, pageId := NewInFrame();
      frame := Some(f);
    }

    /** Steps 2 to 4 of `NewPage`, when some frame is free or evictable. */
    method NewInFrame() returns (f: nat, pageId: PageId)
      requires Valid() && (freeList != [] || replacer.victims != [])
      modifies this, pages, replacer, replacer.cache, disk
      ensures Valid()
      ensures Created(old(pages[..]), old(pageTable), old(freeList), old(replacer.victims),
                      old(disk.file), old(disk.extentUsedPage), old(disk.numAllocatedPages), f, pageId,
                      pages[..], pageTable, freeList, replacer.victims,
                      disk.file, disk.extentUsedPage, disk.numAllocatedPages)
    {
      ghost var frames, table, free, victims := pages[..], pageTable, freeList, replacer.victims;
      PickedFrame(frames, table, free, victims);
      f := DetachForNew();
      ghost var erased, cleared := pageTable, pages[..];
      pages[f] := pages[f].(pinCount := 1, data := ZeroPage());
      pageId := disk.AllocatePage();
      pages[f] := pages[f].(pageId := pageId);
      assert pages[..] == cleared[f := Frame(pageId, ZeroPage(), 1, false)];
      pageTable := Emplace(pageTable, pageId, f);
      NewStep(frames, table, free, victims, pageId);
      assert pages[..] == frames[f := Frame(pageId, ZeroPage(), 1, false)];
      assert pageTable == Emplace(erased, pageId, f);
      assert PoolValid(pages[..], pageTable, freeList, replacer.victims);
    }

    /**
     * Deletes page `pageId` from the pool and frees it on disk. A page that
     * is not cached needs nothing (true); a pinned one stays (false).
     * Otherwise a dirty frame is written back first, and the frame is
     * emptied, unfiled, appended to the free list and taken out of the
     * replacer, so that no miss can take it twice (see `DeletePageAsWritten`).
     */
    method DeletePage(pageId: PageId) returns (ok: bool)
      requires Valid()
      modifies this, pages, replacer, replacer.cache, disk
      ensures Valid()
      ensures ok == (pageId == INVALID_PAGE_ID || pageId !in old(pageTable) || old(pages[pageTable[pageId]]).pinCount == 0)
      ensures !Deletes(old(pageTable), old(pages[..]), pageId) ==> unchanged(this, pages, replacer, replacer.cache, disk)
      ensures Deletes(old(pageTable), old(pages[..]), pageId) ==>
        var f := old(pageTable)[pageId];
        var fr := old(pages[f]);
        pageTable == old(pageTable) - {pageId} && freeList == old(freeList) + [f] &&
        pages[..] == old(pages[..])[f := EmptyFrame()] &&
        f in old(replacer.victims) && replacer.victims == Pinned(old(replacer.victims), f) &&
        disk.AllocatedIds() == old(disk.AllocatedIds()) - {pageId} &&
        disk.ReadPhysicalPage(MapPageId(pageId)) ==
          (if fr.isDirty then fr.data else old(disk.ReadPhysicalPage(MapPageId(pageId))))
    {
      if pageId == INVALID_PAGE_ID || pageId !in pageTable {
        return true;
      }
      var f := pageTable[pageId];
      if pages[f].pinCount != 0 {
        return false;
      }
      Unfile(pageId);
      replacer.Pin(f);
      ok := true;
    }

    /**
     * Steps 3 of `DeletePage` as the engine writes them, for a cached page
     * that is not pinned; the frame stays in the replacer.
     */
    method Unfile(pageId: PageId)
      requires Valid() && Deletes(pageTable, pages[..], pageId)
      modifies this, pages, disk
      ensures PoolValid(pages[..], pageTable, freeList, Pinned(replacer.victims, old(pageTable)[pageId]))
      ensures replacer.numPages == poolSize && replacer.Valid() && disk.Valid() && pages.Length == poolSize
      ensures var f := old(pageTable)[pageId];
        var fr := old(pages[f]);
        f < poolSize && f in replacer.victims &&
        pageTable == old(pageTable) - {pageId} && freeList == old(freeList) + [f] &&
        pages[..] == old(pages[..])[f := EmptyFrame()] &&
        disk.AllocatedIds() == old(disk.AllocatedIds()) - {pageId} &&
        disk.ReadPhysicalPage(MapPageId(pageId)) ==
          (if fr.isDirty then fr.data else old(disk.ReadPhysicalPage(MapPageId(pageId))))
    {
      var f := pageTable[pageId];
      if pages[f].isDirty {
        var _ := FlushPage(pages[f].pageId);
      }
      Forget(pageId);
    }

    /** `Unfile` once the frame of `pageId` is clean: the disk page is freed and the frame emptied. */
    method Forget(pageId: PageId)
      requires Valid() && Deletes(pageTable, pages[..], pageId) && !pages[pageTable[pageId]].isDirty
      modifies this, pages, disk
      ensures PoolValid(pages[..], pageTable, freeList, Pinned(replacer.victims, old(pageTable)[pageId]))
      ensures replacer.numPages == poolSize && replacer.Valid() && disk.Valid() && pages.Length == poolSize
      ensures var f := old(pageTable)[pageId];
        f < poolSize && f in replacer.victims &&
        pageTable == old(pageTable) - {pageId} && freeList == old(freeList) + [f] &&
        pages[..] == old(pages[..])[f := EmptyFrame()] &&
        disk.AllocatedIds() == old(disk.AllocatedIds()) - {pageId} &&
        disk.ReadPhysicalPage(MapPageId(pageId)) == old(disk.ReadPhysicalPage(MapPageId(pageId)))
    {
      var f := pageTable[pageId];
      ghost var written := disk.file;
      disk.DeAllocatePage(pageId);
      DataPagesAvoidBitmaps(pageId, pageId / 32704);
      assert PhysicalPage(disk.file, MapPageId(pageId)) == PhysicalPage(written, MapPageId(pageId));
      ghost var frames := pages[..];
      DeleteStep(frames, pageTable, freeList, replacer.victims, pageId);
      pages[f] := pages[f].(pageId := INVALID_PAGE_ID, data := ZeroPage());
      assert pages[..] == frames[f := EmptyFrame()];
      pageTable := pageTable - {pageId};
      freeList := freeList + [f];
    }

    /**
     * `DeletePage` as the engine writes it, without taking the frame out of
     * the replacer: the deleted page's frame ends up both free and
     * evictable, which the pool invariant forbids.
     */
    method DeletePageAsWritten(pageId: PageId) returns (ok: bool)
      requires Valid()
      modifies this, pages, replacer, replacer.cache, disk
      ensures ok == (pageId == INVALID_PAGE_ID || pageId !in old(pageTable) || old(pages[pageTable[pageId]]).pinCount == 0)
      ensures Deletes(old(pageTable), old(pages[..]), pageId) ==>
        var f := old(pageTable)[pageId];
        f in freeList && f in replacer.victims && replacer.victims == old(replacer.victims) &&
        !PoolValid(pages[..], pageTable, freeList, replacer.victims)
    {
      if pageId == INVALID_PAGE_ID || pageId !in pageTable {
        return true;
      }
      var f := pageTable[pageId];
      if pages[f].pinCount != 0 {
        return false;
      }
      Unfile(pageId);
      assert freeList[|freeList| - 1] == f;
      BothFreeAndEvictable(pages[..], pageTable, freeList, replacer.victims, f);
      ok := true;
    }

    /**
     * Drops one pin of a cached page and ORs `isDirty` into its dirty flag;
     * at zero pins the frame becomes the replacer's most recent entry. False,
     * with nothing changed, for the invalid id, a page that is not cached,
     * or one that is not pinned.
     */
    method UnpinPage(pageId: PageId, isDirty: bool) returns (ok: bool)
      requires Valid()
      modifies pages, replacer, replacer.cache
      ensures Valid()
      ensures ok == (pageId != INVALID_PAGE_ID && pageId in pageTable && old(pages[pageTable[pageId]]).pinCount > 0)
      ensures !ok ==> unchanged(pages, replacer, replacer.cache)
      ensures ok ==>
        var f := pageTable[pageId];
        var fr := old(pages[f]);
        pages[..] == old(pages[..])[f := fr.(pinCount := fr.pinCount - 1, isDirty := fr.isDirty || isDirty)] &&
        replacer.victims == (if fr.pinCount == 1 then [f] + old(replacer.victims) else old(replacer.victims))
    {
      if pageId == INVALID_PAGE_ID || pageId !in pageTable {
        return false;
      }
      var f := pageTable[pageId];
      if pages[f].pinCount == 0 {
        return false;
      }
      DropPin(pageId, f, isDirty);
      ok := true;
    }

    /** The update `UnpinPage` makes once it found page `pageId` pinned in frame `f`. */
    method DropPin(pageId: PageId, f: nat, isDirty: bool)
      requires Valid() && pageId >= 0 && pageId in pageTable && f == pageTable[pageId] && pages[f].pinCount > 0
      modifies pages, replacer, replacer.cache
      ensures Valid()
      ensures var fr := old(pages[f]);
        pages[..] == old(pages[..])[f := fr.(pinCount := fr.pinCount - 1, isDirty := fr.isDirty || isDirty)] &&
        replacer.victims == (if fr.pinCount == 1 then [f] + old(replacer.victims) else old(replacer.victims))
    {
      ghost var frames, victims, fr := pages[..], replacer.victims, pages[f];
      UnpinStep(frames, pageTable, freeList, victims, pageId, isDirty);
      pages[f] := pages[f].(pinCount := pages[f].pinCount - 1);
      if pages[f].pinCount == 0 {
        UnpinTracksUntracked(replacer.victims, poolSize, f);
        replacer.Unpin(f);
      }
      if isDirty {
        pages[f] := pages[f].(isDirty := isDirty);
      }
      assert pages[..] == frames[f := fr.(pinCount := fr.pinCount - 1, isDirty := fr.isDirty || isDirty)];
    }

    /**
     * Writes a cached page to disk and marks it clean; false, with nothing
     * changed, for the invalid id or a page that is not cached.
     */
    method FlushPage(pageId: PageId) returns (ok: bool)
      requires Valid()
      modifies pages, disk
      ensures Valid()
      ensures ok == (pageId != INVALID_PAGE_ID && pageId in pageTable)
      ensures !ok ==> unchanged(pages, disk)
      ensures ok ==>
        var f := pageTable[pageId];
        pageId >= 0 &&
        disk.file == old(disk.file)[MapPageId(pageId) := old(pages[f]).data] &&
        disk.numAllocatedPages == old(disk.numAllocatedPages) && disk.extentUsedPage == old(disk.extentUsedPage) &&
        disk.AllocatedIds() == old(disk.AllocatedIds()) &&
        pages[..] == old(pages[..])[f := old(pages[f]).(isDirty := false)]
    {
      if pageId == INVALID_PAGE_ID || pageId !in pageTable {
        return false;
      }
      var f := pageTable[pageId];
      FlushStep(pages[..], pageTable, freeList, replacer.victims, pageId);
      disk.WritePage(pageId, pages[f].data);
      pages[f] := pages[f].(isDirty := false);
      ok := true;
    }

    /** Whether logical page `pageId` is free on disk. */
    method IsPageFree(pageId: PageId) returns (free: bool)
      requires Valid() && pageId >= 0
      ensures free == !disk.IsAllocated(pageId)
    {
      free := disk.IsPageFree(pageId);
    }

    /** Whether no frame is pinned. */
    method CheckAllUnpinned() returns (res: bool)
      requires Valid()
      ensures res == forall f :: 0 <= f < poolSize ==> pages[f].pinCount == 0
    {
      res := true;
      var i := 0;
      while i < poolSize
        invariant i <= poolSize
        invariant res == forall f :: 0 <= f < i ==> pages[f].pinCount == 0
      {
        if pages[i].pinCount != 0 {
          res := false;
        }
        i := i + 1;
      }
    }

    /** Step 1.1 of `FetchPage`: a resident page leaves the replacer and gains a pin. */
    method PinResident(pageId: PageId) returns (f: nat)
      requires Valid() && pageId in pageTable
      modifies pages, replacer, replacer.cache
      ensures Valid()
      ensures f == pageTable[pageId] && f < poolSize
      ensures pages[..] == old(pages[..])[f := old(pages[f]).(pinCount := old(pages[f]).pinCount + 1)]
      ensures replacer.victims == Pinned(old(replacer.victims), f)
    {
      f := pageTable[pageId];
      HitStep(pages[..], pageTable, freeList, replacer.victims, pageId);
      replacer.Pin(f);
      pages[f] := pages[f].(pinCount := pages[f].pinCount + 1);
    }

    /**
     * Step 2 of `NewPage`: the frame `PickFrame` chooses; a victim is
     * written back when dirty and its entry erased.
     */
    method DetachForNew() returns (f: nat)
      requires Valid() && (freeList != [] || replacer.victims != [])
      modifies this, pages, replacer, replacer.cache, disk
      ensures (f, freeList, replacer.victims) == PickFrame(old(freeList), old(replacer.victims))
      ensures f < pages.Length && replacer.numPages == poolSize && replacer.Valid() && disk.Valid()
      ensures pageTable == if old(freeList) != [] then old(pageTable) else old(pageTable) - {old(pages[f]).pageId}
      ensures pages[..] == old(pages[..])[f := old(pages[f]).(isDirty := false)]
      ensures disk.file == WriteBack(old(disk.file), old(pages[f]))
      ensures disk.numAllocatedPages == old(disk.numAllocatedPages) && disk.extentUsedPage == old(disk.extentUsedPage)
    {
      PickedFrame(pages[..], pageTable, freeList, replacer.victims);
      var fromFreeList := |freeList| != 0;
      f := TakeFrame();
      if !fromFreeList {
        Evict(f);
      }
    }

    /** Steps 2 and 3 of a miss: frame `f` is written back when dirty and its entry erased. */
    method Evict(f: nat)
      requires disk.Valid() && f < pages.Length && |pages[f].data| == PAGE_SIZE
      requires pages[f].isDirty ==> pages[f].pageId >= 0
      modifies this, pages, disk
      ensures disk.Valid() && freeList == old(freeList)
      ensures pageTable == old(pageTable) - {old(pages[f]).pageId}
      ensures pages[..] == old(pages[..])[f := old(pages[f]).(isDirty := false)]
      ensures disk.file == WriteBack(old(disk.file), old(pages[f]))
      ensures disk.numAllocatedPages == old(disk.numAllocatedPages) && disk.extentUsedPage == old(disk.extentUsedPage)
    {
      if pages[f].isDirty {
        disk.WritePage(pages[f].pageId, pages[f].data);
        pages[f] := pages[f].(isDirty := false);
      }
      pageTable := pageTable - {pages[f].pageId};
    }

    /** Steps 1.2 to 4 of `FetchPage`, for a page that is not resident. */
    method FetchFromDisk(pageId: PageId) returns (f: nat)
      requires Valid() && pageId >= 0 && pageId !in pageTable && (freeList != [] || replacer.victims != [])
      modifies this, pages, replacer, replacer.cache, disk
      ensures Valid()
      ensures Loaded(old(pages[..]), old(pageTable), old(freeList), old(replacer.victims), old(disk.file), pageId, f,
                     pages[..], pageTable, freeList, replacer.victims, disk.file)
      ensures disk.numAllocatedPages == old(disk.numAllocatedPages) && disk.extentUsedPage == old(disk.extentUsedPage)
    {
      ghost var frames, table, free, victims := pages[..], pageTable, freeList, replacer.victims;
      PickedFrame(frames, table, free, victims);
      f := TakeFrame();
      Evict(f);
      pageTable := pageTable[pageId := f];
      var data := disk.ReadPage(pageId);
      pages[f] := Frame(pageId, data, 1, false);
      MissStep(frames, table, free, victims, pageId, data);
      assert pages[..] == frames[f := Frame(pageId, data, 1, false)];
      assert PoolValid(pages[..], pageTable, freeList, replacer.victims);
    }
  }
}
