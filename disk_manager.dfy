/**
 * Page allocation of the disk manager (src/storage/disk_manager.cpp).
 *
 * The database file is a sequence of physical pages: page 0 holds the meta
 * data, and then every `BITMAP_SIZE + 1` pages form an extent, a bitmap page
 * followed by the `BITMAP_SIZE` data pages it tracks. Logical page ids number
 * the data pages only. The file is the map `file` from physical page id to
 * page contents; a page that was never written reads as zeros, as a read past
 * the end of the file does. The meta page is kept decoded, as its three
 * counters.
 */
module DiskManagers {
  import opened Common
  import opened BitmapPages

  /*
   * The constants below are written out as numbers (`ConstantsAgree` states
   * how they derive from `PAGE_SIZE`), and where a page id is multiplied,
   * divided or reduced by `BITMAP_SIZE` the number 32704 is written in its
   * place, with 32705 for `BITMAP_SIZE + 1`: arithmetic by a literal stays
   * linear for the solver.
   */

  /** Bytes of bits in a bitmap page (`MAX_CHARS` of `BitmapPage<PAGE_SIZE>`). */
  const MAX_CHARS: nat := 4088
  /** Data pages per extent: `BitmapPage<PAGE_SIZE>::GetMaxSupportedSize()`. */
  const BITMAP_SIZE: nat := 32704
  /** Extent counters that fit in the meta page after its two counters. */
  const MAX_EXTENTS: nat := 1022
  /** Logical pages the meta page can account for. */
  const MAX_VALID_PAGE_ID: nat := 33423488

  lemma ConstantsAgree()
    ensures MAX_CHARS == PAGE_SIZE - 8 && BITMAP_SIZE == 8 * MAX_CHARS
    ensures MAX_EXTENTS == (PAGE_SIZE - 8) / 4 && MAX_VALID_PAGE_ID == MAX_EXTENTS * 32704
  {
  }

  /** The physical page that holds logical page `id`. */
  function MapPageId(id: nat): (p: nat)
    ensures p == BitmapPhysicalId(id / 32704) + 1 + id % 32704
  {
    id / 32704 + 2 + id
  }

  /** The physical page of the bitmap of extent `e`. */
  function BitmapPhysicalId(e: nat): nat
  {
    e * 32705 + 1
  }

  /** The in-extent offset the source computes from the two physical ids is the remainder. */
  lemma OffsetInExtent(id: nat)
    ensures MapPageId(id) - BitmapPhysicalId(id / 32704) - 1 == id % 32704
  {
  }

  /** Data pages never land on the meta page or on any bitmap page. */
  lemma {:induction false} DataPagesAvoidBitmaps(id: nat, e: nat)
    ensures MapPageId(id) != BitmapPhysicalId(e)
    ensures MapPageId(id) != 0
  {
    var q := id / 32704;
    var r := id % 32704;
    assert MapPageId(id) == q * 32705 + 2 + r;
    if e <= q {
      assert e * 32705 <= q * 32705;
    } else {
      assert e * 32705 >= (q + 1) * 32705;
    }
  }

  /** Logical pages of different extents, or at different offsets, map to different physical pages. */
  lemma MapPageIdInjective(a: nat, b: nat)
    requires a != b
    ensures MapPageId(a) != MapPageId(b)
  {
  }

  function Sum(s: seq<nat>): nat
  {
    if s == [] then 0 else s[0] + Sum(s[1..])
  }

  /** A non-zero counter makes both totals non-zero. */
  lemma {:induction false} TotalsCover(s: seq<nat>, i: nat)
    requires i < |s| && s[i] > 0
    ensures Sum(s) >= s[i] && NonEmpty(s) >= 1
  {
    if i > 0 {
      TotalsCover(s[1..], i - 1);
    }
  }

  /** The number of extents with at least one used page. */
  function NonEmpty(s: seq<nat>): (n: nat)
    ensures n <= |s|
  {
    if s == [] then 0 else (if s[0] > 0 then 1 else 0) + NonEmpty(s[1..])
  }

  lemma {:induction false} SumUpdate(s: seq<nat>, i: nat, v: nat)
    requires i < |s|
    ensures Sum(s[i := v]) == Sum(s) - s[i] + v
  {
    if i == 0 {
      assert s[i := v][1..] == s[1..];
    } else {
      assert s[i := v][1..] == s[1..][i - 1 := v];
      SumUpdate(s[1..], i - 1, v);
    }
  }

  lemma {:induction false} NonEmptyUpdate(s: seq<nat>, i: nat, v: nat)
    requires i < |s|
    ensures NonEmpty(s[i := v]) == NonEmpty(s) - (if s[i] > 0 then 1 else 0) + (if v > 0 then 1 else 0)
  {
    if i == 0 {
      assert s[i := v][1..] == s[1..];
    } else {
      assert s[i := v][1..] == s[1..][i - 1 := v];
      NonEmptyUpdate(s[1..], i - 1, v);
    }
  }

  /** If the first `n` extents are in use and exactly `n` are, every later extent is empty. */
  lemma {:induction false} NonEmptyPrefix(s: seq<nat>, n: nat)
    requires n <= |s| && NonEmpty(s) == n
    requires forall e :: 0 <= e < n ==> s[e] > 0
    ensures forall e :: n <= e < |s| ==> s[e] == 0
  {
    if s != [] {
      if n > 0 {
        NonEmptyPrefix(s[1..], n - 1);
        assert forall e :: n <= e < |s| ==> s[e] == s[1..][e - 1];
      } else {
        NonEmptyPrefix(s[1..], 0);
        assert forall e :: 1 <= e < |s| ==> s[e] == s[1..][e - 1];
      }
    }
  }

  /** Extents that are all full hold `bound` pages each. */
  lemma {:induction false} SumOfFull(s: seq<nat>, bound: nat)
    requires forall e :: 0 <= e < |s| ==> s[e] >= bound
    ensures Sum(s) >= |s| * bound
  {
    if s != [] {
      SumOfFull(s[1..], bound);
    }
  }

  lemma ExtentOrder(j: nat, e: nat, o: nat)
    requires o < BITMAP_SIZE && j < e * 32704 + o
    ensures j / 32704 < e || (j / 32704 == e && j % 32704 < o)
  {
    var q := j / 32704;
  }

  lemma ExtentBound(i: nat, o: nat)
    requires i < MAX_EXTENTS && o < BITMAP_SIZE
    ensures i * 32704 + o < MAX_VALID_PAGE_ID
  {
    assert (i + 1) * 32704 <= MAX_EXTENTS * 32704;
  }

  lemma ExtentOfId(e: nat, o: nat, id: int)
    requires o < BITMAP_SIZE && id == e * 32704 + o
    ensures id / 32704 == e && id % 32704 == o
  {
  }

  /** Physical page contents of a file; a page never written is all zeros. */
  function PhysicalPage(file: map<nat, Page>, p: nat): Page
  {
    if p in file then file[p] else ZeroPage()
  }

  /** Whether logical page `id` is marked allocated in its extent's bitmap in `file`. */
  ghost predicate AllocatedIn(file: map<nat, Page>, id: nat)
  {
    var page := PhysicalPage(file, BitmapPhysicalId(id / 32704));
    |page| == PAGE_SIZE && !ImageFree(page, id % 32704)
  }

  ghost function AllocatedSet(file: map<nat, Page>): set<nat>
  {
    set id | 0 <= id < MAX_VALID_PAGE_ID && AllocatedIn(file, id)
  }

  lemma BitmapPhysicalIdInjective(a: nat, b: nat)
    requires BitmapPhysicalId(a) == BitmapPhysicalId(b)
    ensures a == b
  {

  }

  /**
   * Rewriting the bitmap of extent `i` with slot `o` newly set adds exactly
   * logical page `i * BITMAP_SIZE + o` to the allocated pages.
   */
  lemma SetInBitmap(file: map<nat, Page>, i: nat, o: nat, image: Page, after: map<nat, Page>, id: int)
    requires i < MAX_EXTENTS && o < BITMAP_SIZE && |image| == PAGE_SIZE
    requires |PhysicalPage(file, BitmapPhysicalId(i))| == PAGE_SIZE
    requires ImageFree(PhysicalPage(file, BitmapPhysicalId(i)), o)
    requires Bits(image[8..]) == Bits(PhysicalPage(file, BitmapPhysicalId(i))[8..])[o := true]
    requires after == file[BitmapPhysicalId(i) := image] && id == i * 32704 + o
    ensures AllocatedSet(after) == AllocatedSet(file) + {id}
    ensures id !in AllocatedSet(file)
  {
    ExtentOfId(i, o, id);
    forall j | 0 <= j < MAX_VALID_PAGE_ID
      ensures AllocatedIn(after, j) <==> AllocatedIn(file, j) || j == i * 32704 + o
    {
      var e := j / 32704;
      if e == i {
        assert j == i * 32704 + j % 32704;
      } else {
        if BitmapPhysicalId(e) == BitmapPhysicalId(i) {
          BitmapPhysicalIdInjective(e, i);
        }
      }
    }
    ExtentBound(i, o);
  }

  /** Rewriting the bitmap of `id`'s extent with its slot cleared removes exactly `id`. */
  lemma ClearInBitmap(file: map<nat, Page>, id: nat, image: Page, after: map<nat, Page>)
    requires id / 32704 < MAX_EXTENTS && |image| == PAGE_SIZE
    requires |PhysicalPage(file, BitmapPhysicalId(id / 32704))| == PAGE_SIZE
    requires Bits(image[8..]) == Bits(PhysicalPage(file, BitmapPhysicalId(id / 32704))[8..])[id % 32704 := false]
    requires after == file[BitmapPhysicalId(id / 32704) := image]
    ensures AllocatedSet(after) == AllocatedSet(file) - {id}
  {
    var i := id / 32704;
    forall j | 0 <= j < MAX_VALID_PAGE_ID
      ensures AllocatedIn(after, j) <==> AllocatedIn(file, j) && j != id
    {
      var e := j / 32704;
      if e == i {
        assert j == i * 32704 + j % 32704;
        assert id == i * 32704 + id % 32704;
      } else {
        if BitmapPhysicalId(e) == BitmapPhysicalId(i) {
          BitmapPhysicalIdInjective(e, i);
        }
      }
    }
  }

  /** The bitmap of extent `e` is a valid image whose allocated counter is the meta page's counter for `e`. */
  ghost predicate ExtentValid(file: map<nat, Page>, used: seq<nat>, e: nat)
    requires e < |used|
  {
    ValidImage(PhysicalPage(file, BitmapPhysicalId(e)), MAX_CHARS) &&
    ImageAllocated(PhysicalPage(file, BitmapPhysicalId(e))) == used[e]
  }

  /** Every extent the meta page counts has a valid bitmap agreeing with its counter. */
  ghost predicate ExtentsValid(file: map<nat, Page>, used: seq<nat>)
    requires |used| == MAX_EXTENTS
  {
    forall e {:trigger ExtentValid(file, used, e)} :: 0 <= e < MAX_EXTENTS ==> ExtentValid(file, used, e)
  }

  lemma ExtentsValidAt(file: map<nat, Page>, used: seq<nat>, e: nat)
    requires |used| == MAX_EXTENTS && ExtentsValid(file, used) && e < MAX_EXTENTS
    ensures ValidImage(PhysicalPage(file, BitmapPhysicalId(e)), MAX_CHARS)
    ensures ImageAllocated(PhysicalPage(file, BitmapPhysicalId(e))) == used[e]
  {
    assert ExtentValid(file, used, e);
  }

  /** Replacing the bitmap of extent `i` by another valid one, with its counter, keeps the extents valid. */
  lemma ExtentsValidUpdate(file: map<nat, Page>, used: seq<nat>, i: nat, page: Page, v: nat)
    requires |used| == MAX_EXTENTS && ExtentsValid(file, used) && i < MAX_EXTENTS
    requires ValidImage(page, MAX_CHARS) && ImageAllocated(page) == v
    ensures ExtentsValid(file[BitmapPhysicalId(i) := page], used[i := v])
  {
    var after, usedAfter := file[BitmapPhysicalId(i) := page], used[i := v];
    forall e | 0 <= e < MAX_EXTENTS
      ensures ExtentValid(after, usedAfter, e)
    {
      assert ExtentValid(file, used, e);
      if BitmapPhysicalId(e) == BitmapPhysicalId(i) {
        BitmapPhysicalIdInjective(e, i);
      }
    }
  }

  /** Writing a page that is no bitmap page keeps the extents valid. */
  lemma ExtentsValidFrame(file: map<nat, Page>, used: seq<nat>, p: nat, page: Page)
    requires |used| == MAX_EXTENTS && ExtentsValid(file, used)
    requires forall e :: BitmapPhysicalId(e) != p
    ensures ExtentsValid(file[p := page], used)
  {
    var after := file[p := page];
    forall e | 0 <= e < MAX_EXTENTS
      ensures ExtentValid(after, used, e)
    {
      assert ExtentValid(file, used, e);
    }
  }

  lemma ExtentsValidEmpty(used: seq<nat>)
    requires |used| == MAX_EXTENTS && forall e :: 0 <= e < |used| ==> used[e] == 0
    ensures ExtentsValid(map[], used)
  {
    ZeroImageValid(ZeroPage());
    forall e | 0 <= e < MAX_EXTENTS
      ensures ExtentValid(map[], used, e)
    {
    }
  }

  lemma AllocatedSetFrame(file: map<nat, Page>, p: nat, data: Page)
    requires forall e :: BitmapPhysicalId(e) != p
    ensures AllocatedSet(file[p := data]) == AllocatedSet(file)
  {
    assert forall j :: AllocatedIn(file[p := data], j) == AllocatedIn(file, j);
  }

  /**
   * First fit: when the extents before `i` are full and `o` is the least free
   * slot of extent `i`, every logical page below `i * BITMAP_SIZE + o` is taken.
   */
  lemma LowerIdsTaken(file: map<nat, Page>, used: seq<nat>, i: nat, o: nat, id: int)
    requires |used| == MAX_EXTENTS && ExtentsValid(file, used)
    requires i < MAX_EXTENTS && o < BITMAP_SIZE
    requires forall e :: 0 <= e < i ==> used[e] >= BITMAP_SIZE
    requires |PhysicalPage(file, BitmapPhysicalId(i))| == PAGE_SIZE
    requires o == FirstClear(Bits(PhysicalPage(file, BitmapPhysicalId(i))[8..]), 0)
    requires id == i * 32704 + o
    ensures forall j: nat :: j < id ==> j in AllocatedSet(file)
  {
    forall j: nat | j < id
      ensures j in AllocatedSet(file)
    {
      LowerIdTaken(file, used, i, o, j);
    }
  }

  lemma LowerIdTaken(file: map<nat, Page>, used: seq<nat>, i: nat, o: nat, j: nat)
    requires |used| == MAX_EXTENTS && ExtentsValid(file, used)
    requires i < MAX_EXTENTS && o < BITMAP_SIZE
    requires forall e :: 0 <= e < i ==> used[e] >= BITMAP_SIZE
    requires |PhysicalPage(file, BitmapPhysicalId(i))| == PAGE_SIZE
    requires o == FirstClear(Bits(PhysicalPage(file, BitmapPhysicalId(i))[8..]), 0)
    requires j < i * 32704 + o
    ensures j in AllocatedSet(file)
  {
    ExtentOrder(j, i, o);
    var e := j / 32704;
    var page := PhysicalPage(file, BitmapPhysicalId(e));
    ExtentsValidAt(file, used, e);
    if e < i {
      CountFull(Bits(page[8..]));
    }
    assert AllocatedIn(file, j);
    ExtentBound(i, o);
  }

  /**
   * The meta page and the file agree: every page is `PAGE_SIZE` bytes, the
   * bitmap of each extent the meta page can count is a valid image whose
   * counter is that extent's counter, no bitmap lies past those extents, and
   * the two totals are the sum and the number of non-zero extent counters.
   */
  ghost predicate DiskValid(file: map<nat, Page>, used: seq<nat>, numAllocated: int, numExtents: int)
  {
    |used| == MAX_EXTENTS &&
    (forall p :: p in file ==> |file[p]| == PAGE_SIZE) &&
    ExtentsValid(file, used) &&
    (forall e: nat :: e >= MAX_EXTENTS ==> BitmapPhysicalId(e) !in file) &&
    numAllocated == Sum(used) &&
    numExtents == NonEmpty(used)
  }

  /** Replacing the bitmap of extent `i` by a valid image counting `v` pages, and its counter by `v`, keeps the state valid. */
  lemma DiskValidUpdate(file: map<nat, Page>, used: seq<nat>, numAllocated: int, numExtents: int, i: nat, image: Page, v: nat)
    requires DiskValid(file, used, numAllocated, numExtents) && i < MAX_EXTENTS
    requires ValidImage(image, MAX_CHARS) && ImageAllocated(image) == v
    ensures DiskValid(file[BitmapPhysicalId(i) := image], used[i := v],
                      numAllocated - used[i] + v,
                      numExtents - (if used[i] > 0 then 1 else 0) + (if v > 0 then 1 else 0))
  {
    var after := file[BitmapPhysicalId(i) := image];
    SumUpdate(used, i, v);
    NonEmptyUpdate(used, i, v);
    ExtentsValidUpdate(file, used, i, image, v);
    forall e: nat | e >= MAX_EXTENTS
      ensures BitmapPhysicalId(e) !in after
    {
      if BitmapPhysicalId(e) == BitmapPhysicalId(i) {
        BitmapPhysicalIdInjective(e, i);
      }
    }
  }

  /**
   * The allocation `AllocatePage` promises, from the state (`file`, `used`,
   * `numAllocated`) to the state after it: `id` was the least free logical
   * page, it is the one page newly allocated, the total and the counter of
   * its extent went up by one, and of the file only the bitmap page of its
   * extent was rewritten.
   */
  ghost predicate AllocatedFirstFit(file: map<nat, Page>, used: seq<nat>, numAllocated: int,
                                    fileAfter: map<nat, Page>, usedAfter: seq<nat>, numAllocatedAfter: int, id: int)
  {
    0 <= id < MAX_VALID_PAGE_ID && |used| == MAX_EXTENTS &&
    id !in AllocatedSet(file) && (forall j: nat :: j < id ==> j in AllocatedSet(file)) &&
    AllocatedSet(fileAfter) == AllocatedSet(file) + {id} &&
    numAllocatedAfter == numAllocated + 1 &&
    usedAfter == used[id / 32704 := used[id / 32704] + 1] &&
    fileAfter == file[BitmapPhysicalId(id / 32704) := PhysicalPage(fileAfter, BitmapPhysicalId(id / 32704))]
  }

  /**
   * The release `DeAllocatePage` performs on an allocated page `id`: exactly
   * `id` leaves the allocated pages, the total and the counter of its extent
   * go down by one, and of the file only the bitmap page of its extent was
   * rewritten.
   */
  ghost predicate FreedPage(file: map<nat, Page>, used: seq<nat>, numAllocated: int,
                            fileAfter: map<nat, Page>, usedAfter: seq<nat>, numAllocatedAfter: int, id: nat)
  {
    id / 32704 < MAX_EXTENTS && |used| == MAX_EXTENTS && used[id / 32704] >= 1 &&
    AllocatedSet(fileAfter) == AllocatedSet(file) - {id} &&
    numAllocatedAfter == numAllocated - 1 &&
    usedAfter == used[id / 32704 := used[id / 32704] - 1] &&
    fileAfter == file[BitmapPhysicalId(id / 32704) := PhysicalPage(fileAfter, BitmapPhysicalId(id / 32704))]
  }

  /**
   * Taking the least free slot `o` of extent `i`, the first extent with room,
   * and writing back its bitmap as `image`: the state stays valid, and
   * logical page `i * BITMAP_SIZE + o` is the least page that was free and
   * the only one newly allocated.
   */
  lemma AllocateStep(file: map<nat, Page>, used: seq<nat>, numAllocated: nat, numExtents: nat, i: nat, o: nat, image: Page,
                     fileAfter: map<nat, Page>, usedAfter: seq<nat>, numAllocatedAfter: nat, numExtentsAfter: nat, id: int)
    requires DiskValid(file, used, numAllocated, numExtents)
    requires i < MAX_EXTENTS && forall e :: 0 <= e < i ==> used[e] >= BITMAP_SIZE
    requires |PhysicalPage(file, BitmapPhysicalId(i))| == PAGE_SIZE
    requires o == FirstClear(Bits(PhysicalPage(file, BitmapPhysicalId(i))[8..]), 0) && o < BITMAP_SIZE
    requires ValidImage(image, MAX_CHARS) && ImageAllocated(image) == used[i] + 1
    requires Bits(image[8..]) == Bits(PhysicalPage(file, BitmapPhysicalId(i))[8..])[o := true]
    requires fileAfter == file[BitmapPhysicalId(i) := image] && usedAfter == used[i := used[i] + 1]
    requires numAllocatedAfter == numAllocated + 1
    requires numExtentsAfter == if used[i] == 0 then numExtents + 1 else numExtents
    requires id == i * 32704 + o
    ensures DiskValid(fileAfter, usedAfter, numAllocatedAfter, numExtentsAfter)
    ensures AllocatedFirstFit(file, used, numAllocated, fileAfter, usedAfter, numAllocatedAfter, id)
  {
    DiskValidUpdate(file, used, numAllocated, numExtents, i, image, used[i] + 1);
    FirstFitStep(file, used, numAllocated, i, o, image, fileAfter, usedAfter, numAllocatedAfter, id);
  }

  lemma FirstFitStep(file: map<nat, Page>, used: seq<nat>, numAllocated: nat, i: nat, o: nat, image: Page,
                     fileAfter: map<nat, Page>, usedAfter: seq<nat>, numAllocatedAfter: nat, id: int)
    requires |used| == MAX_EXTENTS && ExtentsValid(file, used)
    requires i < MAX_EXTENTS && forall e :: 0 <= e < i ==> used[e] >= BITMAP_SIZE
    requires |PhysicalPage(file, BitmapPhysicalId(i))| == PAGE_SIZE && |image| == PAGE_SIZE
    requires o == FirstClear(Bits(PhysicalPage(file, BitmapPhysicalId(i))[8..]), 0) && o < BITMAP_SIZE
    requires Bits(image[8..]) == Bits(PhysicalPage(file, BitmapPhysicalId(i))[8..])[o := true]
    requires fileAfter == file[BitmapPhysicalId(i) := image] && usedAfter == used[i := used[i] + 1]
    requires numAllocatedAfter == numAllocated + 1
    requires id == i * 32704 + o
    ensures AllocatedFirstFit(file, used, numAllocated, fileAfter, usedAfter, numAllocatedAfter, id)
  {
    ExtentOfId(i, o, id);
    ExtentBound(i, o);
    LowerIdsTaken(file, used, i, o, id);
    SetInBitmap(file, i, o, image, fileAfter, id);
  }


  /**
   * Clearing the slot of allocated page `id` and writing back its bitmap as
   * `image`: the state stays valid and exactly `id` leaves the allocated pages.
   */
  lemma DeAllocateStep(file: map<nat, Page>, used: seq<nat>, numAllocated: nat, numExtents: nat,
                       id: nat, e: nat, pageOffset: nat, buf: Page, image: Page,
                       fileAfter: map<nat, Page>, usedAfter: seq<nat>, numAllocatedAfter: int, numExtentsAfter: int)
    requires DiskValid(file, used, numAllocated, numExtents)
    requires e == id / 32704 && pageOffset == id % 32704 && e < MAX_EXTENTS
    requires buf == PhysicalPage(file, BitmapPhysicalId(e)) && |buf| == PAGE_SIZE && Bits(buf[8..])[pageOffset]
    requires ValidImage(image, MAX_CHARS) && ImageAllocated(image) + 1 == used[e]
    requires Bits(image[8..]) == Bits(buf[8..])[pageOffset := false]
    requires fileAfter == file[BitmapPhysicalId(e) := image]
    requires usedAfter == used[e := used[e] - 1]
    requires numAllocatedAfter == numAllocated - 1
    requires numExtentsAfter == if usedAfter[e] == 0 then numExtents - 1 else numExtents
    ensures DiskValid(fileAfter, usedAfter, numAllocatedAfter, numExtentsAfter)
    ensures FreedPage(file, used, numAllocated, fileAfter, usedAfter, numAllocatedAfter, id)
  {
    ClearInBitmap(file, id, image, fileAfter);
    DiskValidUpdate(file, used, numAllocated, numExtents, e, image, used[e] - 1);
  }

  /** A page whose bitmap slot is set lies in a counted extent whose counters can go down by one. */
  lemma ReleaseFacts(file: map<nat, Page>, used: seq<nat>, numAllocated: nat, numExtents: nat,
                     e: nat, pageOffset: nat, buf: Page, image: Page)
    requires DiskValid(file, used, numAllocated, numExtents)
    requires buf == PhysicalPage(file, BitmapPhysicalId(e)) && |buf| == PAGE_SIZE
    requires pageOffset < BITMAP_SIZE && Bits(buf[8..])[pageOffset]
    requires |image| >= 8 && ImageAllocated(image) + 1 == ImageAllocated(buf)
    ensures e < MAX_EXTENTS && used[e] == ImageAllocated(buf) >= 1
    ensures numAllocated >= 1 && numExtents >= 1
  {
    if e >= MAX_EXTENTS {
      assert false;
    }
    ExtentsValidAt(file, used, e);
    TotalsCover(used, e);
  }

  /**
   * `BitmapPage::AllocatePage` run on a bitmap page buffer read from disk:
   * the buffer is reinterpreted as a bitmap, its least free slot taken, and
   * the buffer as it then stands returned for writing back.
   */
  method AllocateInImage(buf: Page) returns (ok: bool, pageOffset: nat, image: Page)
    requires ValidImage(buf, MAX_CHARS)
    ensures ok == (ImageAllocated(buf) != BITMAP_SIZE)
    ensures ok ==> pageOffset == FirstClear(Bits(buf[8..]), 0) && pageOffset < BITMAP_SIZE
    ensures ok ==> ValidImage(image, MAX_CHARS) && ImageAllocated(image) == ImageAllocated(buf) + 1
    ensures ok ==> Bits(image[8..]) == Bits(buf[8..])[pageOffset := true]
  {
    var bitmap := new BitmapPage.FromPage(buf, MAX_CHARS);
    ok, pageOffset := bitmap.AllocatePage();
    image := bitmap.ToPage();
  }

  /** `BitmapPage::DeAllocatePage` run on a bitmap page buffer read from disk. */
  method DeAllocateInImage(buf: Page, pageOffset: nat) returns (ok: bool, image: Page)
    requires ValidImage(buf, MAX_CHARS) && pageOffset < BITMAP_SIZE
    ensures ok == Bits(buf[8..])[pageOffset]
    ensures ok ==> ValidImage(image, MAX_CHARS) && ImageAllocated(image) + 1 == ImageAllocated(buf)
    ensures ok ==> Bits(image[8..]) == Bits(buf[8..])[pageOffset := false]
  {
    var bitmap := new BitmapPage.FromPage(buf, MAX_CHARS);
    ok := bitmap.DeAllocatePage(pageOffset);
    image := bitmap.ToPage();
  }

  class DiskManager {
    /** The database file: physical page id to its `PAGE_SIZE` bytes. */
    var file: map<nat, Page>
    /** Meta page: `num_allocated_pages_`. */
    var numAllocatedPages: nat
    /** Meta page: `num_extents_`. */
    var numExtents: nat
    /** Meta page: `extent_used_page_`, one counter per extent. */
    var extentUsedPage: seq<nat>

    /** Physical page contents; a page never written is all zeros. */
    function ReadPhysicalPage(physicalPageId: nat): Page
      reads this
    {
      PhysicalPage(file, physicalPageId)
    }

    /** The bitmap page image of extent `e`. */
    function Bitmap(e: nat): Page
      reads this
    {
      ReadPhysicalPage(BitmapPhysicalId(e))
    }

    /** Whether logical page `id` is marked allocated in its extent's bitmap. */
    ghost predicate IsAllocated(id: nat)
      reads this
    {
      AllocatedIn(file, id)
    }

    ghost function AllocatedIds(): set<nat>
      reads this
    {
      AllocatedSet(file)
    }

    ghost predicate Valid()
      reads this
    {
      DiskValid(file, extentUsedPage, numAllocatedPages, numExtents)
    }

    /** Opening a database file that does not exist yet: every page reads as zeros. */
    constructor ()
      ensures Valid() && extentUsedPage == seq(MAX_EXTENTS, _ => 0)
      ensures file == map[] && numAllocatedPages == 0 && numExtents == 0
    {
      file := map[];
      numAllocatedPages := 0;
      numExtents := 0;
      extentUsedPage := seq(MAX_EXTENTS, _ => 0);
      new;
      ZerosSumAndCount(extentUsedPage);
      ExtentsValidEmpty(extentUsedPage);
    }

    /** Reads logical page `logicalPageId`. */
    method ReadPage(logicalPageId: int) returns (data: Page)
      requires Valid() && logicalPageId >= 0
      ensures data == ReadPhysicalPage(MapPageId(logicalPageId)) && |data| == PAGE_SIZE
    {
      data := ReadPhysicalPage(MapPageId(logicalPageId));
    }

    /** Writes logical page `logicalPageId`; no bitmap page and no counter changes. */
    method WritePage(logicalPageId: int, data: Page)
      requires Valid() && logicalPageId >= 0 && |data| == PAGE_SIZE
      modifies this
      ensures Valid()
      ensures file == old(file)[MapPageId(logicalPageId) := data]
      ensures numAllocatedPages == old(numAllocatedPages) && numExtents == old(numExtents)
      ensures extentUsedPage == old(extentUsedPage)
      ensures AllocatedIds() == old(AllocatedIds())
    {
      forall e
        ensures BitmapPhysicalId(e) != MapPageId(logicalPageId)
      {
        DataPagesAvoidBitmaps(logicalPageId, e);
      }
      ExtentsValidFrame(file, extentUsedPage, MapPageId(logicalPageId), data);
      AllocatedSetFrame(file, MapPageId(logicalPageId), data);
      WritePhysicalPage(MapPageId(logicalPageId), data);
    }

    method WritePhysicalPage(physicalPageId: nat, data: Page)
      modifies this
      ensures file == old(file)[physicalPageId := data]
      ensures numAllocatedPages == old(numAllocatedPages) && numExtents == old(numExtents)
      ensures extentUsedPage == old(extentUsedPage)
    {
      file := file[physicalPageId := data];
    }

    /**
     * Allocates the first free logical page: the least free offset of the
     * first extent that is not full, opening a new extent when all are full.
     */
    method AllocatePage() returns (id: PageId)
      requires Valid()
      modifies this
      ensures Valid()
      ensures old(numAllocatedPages) >= MAX_VALID_PAGE_ID ==>
        id == INVALID_PAGE_ID && file == old(file) && extentUsedPage == old(extentUsedPage) &&
        numAllocatedPages == old(numAllocatedPages) && numExtents == old(numExtents)
      ensures old(numAllocatedPages) < MAX_VALID_PAGE_ID ==>
        AllocatedFirstFit(old(file), old(extentUsedPage), old(numAllocatedPages),
                          file, extentUsedPage, numAllocatedPages, id)
    {
      if numAllocatedPages >= MAX_VALID_PAGE_ID {
        return INVALID_PAGE_ID;
      }
      var i := 0;
      while i < numExtents
        invariant i <= numExtents <= MAX_EXTENTS
        invariant forall e :: 0 <= e < i ==> extentUsedPage[e] >= BITMAP_SIZE
      {
        if extentUsedPage[i] < BITMAP_SIZE {
          id := AllocateIn(i);
          return;
        }
        i := i + 1;
      }
      NewExtentIsEmpty();
      id := AllocateIn(numExtents);
    }

    /** With every opened extent full and room left on disk, the next extent exists and is empty. */
    lemma NewExtentIsEmpty()
      requires Valid() && numAllocatedPages < MAX_VALID_PAGE_ID
      requires forall e :: 0 <= e < numExtents ==> extentUsedPage[e] >= BITMAP_SIZE
      ensures numExtents < MAX_EXTENTS && extentUsedPage[numExtents] == 0
    {
      var s := extentUsedPage;
      if numExtents == MAX_EXTENTS {
        SumOfFull(s, BITMAP_SIZE);
      }
      assert forall e :: 0 <= e < numExtents ==> s[e] > 0;
      NonEmptyPrefix(s, numExtents);
    }

    /** The body both branches of `AllocatePage` run, for extent `i`, the first one with room. */
    method AllocateIn(i: nat) returns (id: PageId)
      requires Valid() && i < MAX_EXTENTS && extentUsedPage[i] < BITMAP_SIZE
      requires forall e :: 0 <= e < i ==> extentUsedPage[e] >= BITMAP_SIZE
      modifies this
      ensures Valid()
      ensures AllocatedFirstFit(old(file), old(extentUsedPage), old(numAllocatedPages),
                                file, extentUsedPage, numAllocatedPages, id)
    {
      var physicalPageId := BitmapPhysicalId(i);
      var buf := PhysicalPage(file, physicalPageId);
      ExtentsValidAt(file, extentUsedPage, i);
      var ok, pageOffset, image := AllocateInImage(buf);
      numAllocatedPages := numAllocatedPages + 1;
      extentUsedPage := extentUsedPage[i := extentUsedPage[i] + 1];
      if extentUsedPage[i] == 1 {
        numExtents := numExtents + 1;
      }
      WritePhysicalPage(physicalPageId, image);
      id := i * 32704 + pageOffset;
      AllocateStep(old(file), old(extentUsedPage), old(numAllocatedPages), old(numExtents), i, pageOffset, image,
                   file, extentUsedPage, numAllocatedPages, numExtents, id);
    }

    /** Frees logical page `logicalPageId`; nothing changes when it is not allocated. */
    method DeAllocatePage(logicalPageId: PageId)
      requires Valid() && logicalPageId >= 0
      modifies this
      ensures Valid()
      ensures AllocatedIds() == old(AllocatedIds()) - {logicalPageId}
      ensures old(IsAllocated(logicalPageId)) ==>
        FreedPage(old(file), old(extentUsedPage), old(numAllocatedPages),
                  file, extentUsedPage, numAllocatedPages, logicalPageId)
      ensures !old(IsAllocated(logicalPageId)) ==>
        file == old(file) && numAllocatedPages == old(numAllocatedPages) &&
        numExtents == old(numExtents) && extentUsedPage == old(extentUsedPage)
    {
      var e := logicalPageId / 32704;
      var physicalPageId := BitmapPhysicalId(e);
      var buf := ReadPhysicalPage(physicalPageId);
      BitmapImageValid(e);
      OffsetInExtent(logicalPageId);
      var pageOffset := MapPageId(logicalPageId) - physicalPageId - 1;
      var ok, image := DeAllocateInImage(buf, pageOffset);
      if ok {
        Release(logicalPageId, e, pageOffset, buf, image);
      }
    }

    /** The meta page and file update of `DeAllocatePage` once the bitmap has freed the slot. */
    method Release(logicalPageId: nat, e: nat, pageOffset: nat, buf: Page, image: Page)
      requires Valid()
      requires e == logicalPageId / 32704 && pageOffset == logicalPageId % 32704
      requires buf == Bitmap(e) && |buf| == PAGE_SIZE && Bits(buf[8..])[pageOffset]
      requires ValidImage(image, MAX_CHARS) && ImageAllocated(image) + 1 == ImageAllocated(buf)
      requires Bits(image[8..]) == Bits(buf[8..])[pageOffset := false]
      modifies this
      ensures Valid()
      ensures FreedPage(old(file), old(extentUsedPage), old(numAllocatedPages),
                        file, extentUsedPage, numAllocatedPages, logicalPageId)
    {
      ReleaseFacts(file, extentUsedPage, numAllocatedPages, numExtents, e, pageOffset, buf, image);
      numAllocatedPages := numAllocatedPages - 1;
      extentUsedPage := extentUsedPage[e := extentUsedPage[e] - 1];
      if extentUsedPage[e] == 0 {
        numExtents := numExtents - 1;
      }
      WritePhysicalPage(BitmapPhysicalId(e), image);
      DeAllocateStep(old(file), old(extentUsedPage), old(numAllocatedPages), old(numExtents),
                     logicalPageId, e, pageOffset, buf, image, file, extentUsedPage, numAllocatedPages, numExtents);
    }

    method IsPageFree(logicalPageId: PageId) returns (free: bool)
      requires Valid() && logicalPageId >= 0
      ensures free == !IsAllocated(logicalPageId)
    {
      var e := logicalPageId / 32704;
      var physicalPageId := e * 32705 + 1;
      var buf := ReadPhysicalPage(physicalPageId);
      BitmapImageValid(e);
      var bitmap := new BitmapPage.FromPage(buf, MAX_CHARS);
      OffsetInExtent(logicalPageId);
      free := bitmap.IsPageFree(MapPageId(logicalPageId) - physicalPageId - 1);
    }

    /** Every extent's bitmap page is valid; past the last extent the meta page can count, it is all zeros. */
    lemma BitmapImageValid(e: nat)
      requires Valid()
      ensures ValidImage(Bitmap(e), MAX_CHARS)
      ensures e >= MAX_EXTENTS ==> Bitmap(e) == ZeroPage()
    {
      if e >= MAX_EXTENTS {
        ZeroImageValid(ZeroPage());
      } else {
        ExtentsValidAt(file, extentUsedPage, e);
      }
    }
  }

  lemma {:induction false} ZerosSumAndCount(s: seq<nat>)
    requires forall e :: 0 <= e < |s| ==> s[e] == 0
    ensures Sum(s) == 0 && NonEmpty(s) == 0
  {
    if s != [] {
      ZerosSumAndCount(s[1..]);
    }
  }
}
