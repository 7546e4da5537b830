/**
 * Internal pages of the B+ tree index: a header (page id, parent id, max
 * size, size) followed by an array of (key, child page id) pairs.  The key of
 * pair 0 is not a separator; pair i (i >= 1) routes every key at least
 * `key[i]` (and below `key[i+1]`) to child i.
 *
 * Moving a pair to another page changes the parent of the child it points to;
 * the engine writes that parent id into the child page through the buffer
 * pool.  Here the parent ids of all index pages form one map, which the page
 * operations take and return.
 */
module InternalPages {
  import opened Common
  import opened LeafPages

  datatype InternalEntry = InternalEntry(key: Key, child: PageId)

  /** Separator keys (pairs 1 onwards) are in order. */
  predicate SeparatorsSorted(s: seq<InternalEntry>)
  {
    forall i, j :: 1 <= i < j < |s| ==> s[i].key <= s[j].key
  }

  /** The first slot pointing at `child`, or -1 when no slot does. */
  function ChildIndex(s: seq<InternalEntry>, child: PageId): (i: int)
    ensures -1 <= i < |s|
    ensures i >= 0 ==> s[i].child == child
    ensures forall j :: 0 <= j < |s| && (i == -1 || j < i) ==> s[j].child != child
  {
    if s == [] then -1
    else if s[0].child == child then 0
    else
      var r := ChildIndex(s[1..], child);
      if r == -1 then -1 else r + 1
  }

  /**
   * The slot a search for `key` follows: the last separator not above `key`,
   * or slot 0 when every separator is above it.
   */
  function ChildSlot(s: seq<InternalEntry>, key: Key): (i: nat)
    requires |s| >= 1
    ensures i < |s|
    ensures forall j :: 1 <= j <= i ==> s[j].key <= key
    ensures i + 1 < |s| ==> key < s[i + 1].key
  {
    if |s| == 1 || key < s[1].key then 0 else 1 + ChildSlot(s[1..], key)
  }

  /** Any slot with the routing property is the routing slot. */
  lemma ChildSlotUnique(s: seq<InternalEntry>, key: Key, i: nat)
    requires i < |s|
    requires forall j :: 1 <= j <= i ==> s[j].key <= key
    requires i + 1 < |s| ==> key < s[i + 1].key
    ensures ChildSlot(s, key) == i
  {
  }

  /**
   * `Lookup`'s binary search over the separators `left..right`: a key not above
   * `key` sends it right, a larger one left; the answer is `left`.
   */
  function SlotSearch(s: seq<InternalEntry>, key: Key, left: int, right: int): (i: int)
    requires 1 <= left <= right + 1 <= |s|
    ensures left <= i <= right + 1
    decreases right - left + 1
  {
    if left > right then left
    else
      var mid := (left + right) / 2;
      if key < s[mid].key then SlotSearch(s, key, left, mid - 1) else SlotSearch(s, key, mid + 1, right)
  }

  /** The slot whose child `Lookup` returns. */
  function RouteSlot(s: seq<InternalEntry>, key: Key): (i: nat)
    requires |s| >= 1
    ensures i < |s|
  {
    SlotSearch(s, key, 1, |s| - 1) - 1
  }

  lemma {:induction false} SlotSearchRoutes(s: seq<InternalEntry>, key: Key, left: int, right: int)
    requires SeparatorsSorted(s) && 1 <= left <= right + 1 <= |s|
    requires forall j :: 1 <= j < left ==> s[j].key <= key
    requires forall j :: right < j < |s| ==> key < s[j].key
    ensures var i := SlotSearch(s, key, left, right);
      (forall j :: 1 <= j < i ==> s[j].key <= key) && (i < |s| ==> key < s[i].key)
    decreases right - left + 1, 1
  {
    if left <= right {
      if key < s[(left + right) / 2].key {
        SlotSearchRoutesLeft(s, key, left, right);
      } else {
        SlotSearchRoutesRight(s, key, left, right);
      }
    }
  }

  /** `SlotSearchRoutes` when the key is below the middle separator. */
  lemma {:induction false} SlotSearchRoutesLeft(s: seq<InternalEntry>, key: Key, left: int, right: int)
    requires SeparatorsSorted(s) && 1 <= left <= right < |s| && key < s[(left + right) / 2].key
    requires forall j :: 1 <= j < left ==> s[j].key <= key
    requires forall j :: right < j < |s| ==> key < s[j].key
    ensures var i := SlotSearch(s, key, left, right);
      (forall j :: 1 <= j < i ==> s[j].key <= key) && (i < |s| ==> key < s[i].key)
    decreases right - left + 1, 0
  {
    var mid := (left + right) / 2;
    AboveFromMid(s, key, mid, right);
    assert SlotSearch(s, key, left, right) == SlotSearch(s, key, left, mid - 1);
    SlotSearchRoutes(s, key, left, mid - 1);
  }

  /** `SlotSearchRoutes` when the key is at least the middle separator. */
  lemma {:induction false} SlotSearchRoutesRight(s: seq<InternalEntry>, key: Key, left: int, right: int)
    requires SeparatorsSorted(s) && 1 <= left <= right < |s| && s[(left + right) / 2].key <= key
    requires forall j :: 1 <= j < left ==> s[j].key <= key
    requires forall j :: right < j < |s| ==> key < s[j].key
    ensures var i := SlotSearch(s, key, left, right);
      (forall j :: 1 <= j < i ==> s[j].key <= key) && (i < |s| ==> key < s[i].key)
    decreases right - left + 1, 0
  {
    var mid := (left + right) / 2;
    BelowToMid(s, key, left, mid);
    assert SlotSearch(s, key, left, right) == SlotSearch(s, key, mid + 1, right);
    SlotSearchRoutes(s, key, mid + 1, right);
  }

  /** Sorted separators above a key from slot `mid` to `right` and beyond `right` are above it from `mid` on. */
  lemma AboveFromMid(s: seq<InternalEntry>, key: Key, mid: int, right: int)
    requires SeparatorsSorted(s) && 1 <= mid <= right < |s| && key < s[mid].key
    requires forall j :: right < j < |s| ==> key < s[j].key
    ensures forall j :: mid - 1 < j < |s| ==> key < s[j].key
  {
    forall j | mid - 1 < j < |s|
      ensures key < s[j].key
    {
      if j <= right {
        assert s[mid].key <= s[j].key;
      }
    }
  }

  /** Sorted separators at most a key before `left` and at slot `mid` are at most it up to `mid`. */
  lemma BelowToMid(s: seq<InternalEntry>, key: Key, left: int, mid: int)
    requires SeparatorsSorted(s) && 1 <= left <= mid < |s| && s[mid].key <= key
    requires forall j :: 1 <= j < left ==> s[j].key <= key
    ensures forall j :: 1 <= j < mid + 1 ==> s[j].key <= key
  {
    forall j | 1 <= j < mid + 1
      ensures s[j].key <= key
    {
      if left <= j {
        assert s[j].key <= s[mid].key;
      }
    }
  }

  /** With the separators in order the binary search follows the routing slot. */
  lemma RouteSlotIsChildSlot(s: seq<InternalEntry>, key: Key)
    requires |s| >= 1 && SeparatorsSorted(s)
    ensures RouteSlot(s, key) == ChildSlot(s, key)
  {
    SlotSearchRoutes(s, key, 1, |s| - 1);
    ChildSlotUnique(s, key, RouteSlot(s, key));
  }

  /** The page after `InsertNodeAfter`: the pair goes right after the slot of `oldChild`. */
  function InsertAfter(s: seq<InternalEntry>, oldChild: PageId, e: InternalEntry): (r: seq<InternalEntry>)
    ensures |r| == |s| + 1
  {
    var i := ChildIndex(s, oldChild) + 1;
    s[..i] + [e] + s[i..]
  }

  /** The page after `Remove(index)`. */
  function RemoveSlot(s: seq<InternalEntry>, index: nat): (r: seq<InternalEntry>)
    requires index < |s|
    ensures |r| == |s| - 1
  {
    s[..index] + s[index + 1..]
  }

  /** The pairs of a page whose key 0 has been overwritten with `key`. */
  function WithFirstKey(s: seq<InternalEntry>, key: Key): (r: seq<InternalEntry>)
    ensures |r| == |s|
    ensures |s| > 0 ==> r[0] == InternalEntry(key, s[0].child) && r[1..] == s[1..]
  {
    if s == [] then [] else [InternalEntry(key, s[0].child)] + s[1..]
  }

  /** The child pages a page points to. */
  function Children(s: seq<InternalEntry>): (c: set<PageId>)
    ensures forall j :: 0 <= j < |s| ==> s[j].child in c
    ensures forall p :: p in c ==> exists j :: 0 <= j < |s| && s[j].child == p
  {
    set j | 0 <= j < |s| :: s[j].child
  }

  /** Overwriting key 0 leaves the children alone. */
  lemma WithFirstKeyChildren(s: seq<InternalEntry>, key: Key)
    ensures Children(WithFirstKey(s, key)) == Children(s)
  {
    var r := WithFirstKey(s, key);
    assert forall j :: 0 <= j < |s| ==> r[j].child == s[j].child;
  }

  /** The parent map after every child in `s` has been re-parented to `parent`. */
  function Adopt(parents: map<PageId, PageId>, s: seq<InternalEntry>, parent: PageId): (r: map<PageId, PageId>)
    ensures r.Keys == parents.Keys + Children(s)
    ensures forall c :: c in Children(s) ==> r[c] == parent
    ensures forall c :: c in parents && c !in Children(s) ==> r[c] == parents[c]
  {
    var cs := Children(s);
    map c | c in parents.Keys + cs :: if c in cs then parent else parents[c]
  }

  lemma AdoptStep(parents: map<PageId, PageId>, s: seq<InternalEntry>, i: nat, parent: PageId)
    requires i < |s|
    ensures Adopt(parents, s[..i + 1], parent) == Adopt(parents, s[..i], parent)[s[i].child := parent]
  {
    assert Children(s[..i + 1]) == Children(s[..i]) + {s[i].child} by {
      forall c | c in Children(s[..i + 1])
        ensures c in Children(s[..i]) + {s[i].child}
      {
        var j :| 0 <= j < i + 1 && s[..i + 1][j].child == c;
        if j < i {
          assert s[..i][j].child == c;
        }
      }
    }
  }

  /**
   * `Lookup` routing on the root `PopulateNewRoot` builds: keys below the
   * separator go to the old page, the others to the new one.
   */
  lemma NewRootRoutes(key0: Key, oldChild: PageId, separator: Key, newChild: PageId, key: Key)
    ensures var s := [InternalEntry(key0, oldChild), InternalEntry(separator, newChild)];
      s[RouteSlot(s, key)].child == if key < separator then oldChild else newChild
  {
  }

  /** After `InsertNodeAfter`, the new child sits right after the old one. */
  lemma {:induction false} ChildIndexAfterInsert(s: seq<InternalEntry>, oldChild: PageId, e: InternalEntry)
    requires oldChild in Children(s) && e.child !in Children(s)
    ensures ChildIndex(InsertAfter(s, oldChild, e), e.child) == ChildIndex(s, oldChild) + 1
  {
    var i := ChildIndex(s, oldChild) + 1;
    var r := InsertAfter(s, oldChild, e);
    assert r[i] == e;
    assert forall j :: 0 <= j < i ==> r[j] == s[j];
  }

  /** Removing the slot `InsertNodeAfter` filled gives back the original page. */
  lemma RemoveAfterInsertAfter(s: seq<InternalEntry>, oldChild: PageId, e: InternalEntry)
    ensures RemoveSlot(InsertAfter(s, oldChild, e), ChildIndex(s, oldChild) + 1) == s
  {
    var i := ChildIndex(s, oldChild) + 1;
    DropInserted(s[..i], e, s[i..]);
    assert s[..i] + s[i..] == s;
  }

  /** Children of a page are the children of its two split halves. */
  lemma SplitChildren(s: seq<InternalEntry>)
    ensures Children(s) == Children(s[..KeepCount(|s|)]) + Children(s[KeepCount(|s|)..])
  {
    var k := KeepCount(|s|);
    forall c | c in Children(s)
      ensures c in Children(s[..k]) + Children(s[k..])
    {
      var j :| 0 <= j < |s| && s[j].child == c;
      if j < k {
        assert s[..k][j].child == c;
      } else {
        assert s[k..][j - k].child == c;
      }
    }
  }

  /** An internal page in a buffer frame; only the first `size` pairs are meaningful. */
  class InternalPage {
    var pageId: PageId
    var parentPageId: PageId
    var maxSize: int
    var size: nat
    const entries: array<InternalEntry>

    ghost predicate Valid()
      reads this
    {
      size <= entries.Length
    }

    /** The pairs the page holds, in slot order. */
    ghost function Entries(): seq<InternalEntry>
      reads this, entries
      requires Valid()
    {
      entries[..size]
    }

    constructor (capacity: nat)
      ensures Valid() && entries.Length == capacity && fresh(entries)
    {
      pageId := INVALID_PAGE_ID;
      parentPageId := INVALID_PAGE_ID;
      maxSize := 0;
      size := 0;
      entries := new InternalEntry[capacity](_ => InternalEntry(0, INVALID_PAGE_ID));
    }

    /** Formats the page as an empty internal page. */
    method Init(pageId: PageId, parentId: PageId, maxSize: int)
      requires Valid()
      modifies this
      ensures Valid() && Entries() == []
      ensures this.pageId == pageId && parentPageId == parentId && this.maxSize == maxSize
    {
      this.pageId := pageId;
      parentPageId := parentId;
      this.maxSize := maxSize;
      size := 0;
    }

    /** Linear scan for the slot pointing at `child`; -1 when there is none. */
    method ValueIndex(child: PageId) returns (index: int)
      requires Valid()
      ensures index == ChildIndex(Entries(), child)
    {
      var i := 0;
      while i < size
        invariant 0 <= i <= size
        invariant forall j :: 0 <= j < i ==> entries[j].child != child
      {
        if entries[i].child == child {
          ChildIndexIs(Entries(), child, i);
          return i;
        }
        i := i + 1;
      }
      ChildIndexIs(Entries(), child, -1);
      return -1;
    }

    /** Binary search over the separators; returns the child a search for `key` descends to. */
    method Lookup(key: Key) returns (child: PageId)
      requires Valid() && size >= 1
      ensures child == Entries()[RouteSlot(Entries(), key)].child
    {
      var left := 1;
      var right: int := size - 1;
      while left <= right
        invariant 1 <= left <= right + 1 <= size
        invariant SlotSearch(Entries(), key, left, right) == SlotSearch(Entries(), key, 1, size - 1)
      {
        var mid := (left + right) / 2;
        if key == entries[mid].key {
          left := mid + 1;
        } else if key < entries[mid].key {
          right := mid - 1;
        } else {
          left := mid + 1;
        }
      }
      child := entries[left - 1].child;
    }

    /** Fills a new root: the old page in slot 0, then the separator and the new page. */
    method PopulateNewRoot(oldChild: PageId, key: Key, newChild: PageId)
      requires Valid() && entries.Length >= 2
      modifies this, entries
      ensures Valid()
      ensures Entries() == [InternalEntry(old(entries[0].key), oldChild), InternalEntry(key, newChild)]
      ensures pageId == old(pageId) && parentPageId == old(parentPageId) && maxSize == old(maxSize)
    {
      size := 2;
      entries[0] := InternalEntry(entries[0].key, oldChild);
      entries[1] := InternalEntry(key, newChild);
    }

    /** Opens slot `index` by moving the pairs from there on one slot right, and stores `e` in it. */
    method InsertAt(index: nat, e: InternalEntry)
      requires Valid() && index <= size < entries.Length
      modifies this, entries
      ensures Valid() && Entries() == old(Entries())[..index] + [e] + old(Entries())[index..]
      ensures pageId == old(pageId) && parentPageId == old(parentPageId) && maxSize == old(maxSize)
    {
      ghost var s := Entries();
      var i: int := size - 1;
      while i >= index
        invariant index - 1 <= i < size
        invariant forall j :: 0 <= j <= i ==> entries[j] == s[j]
        invariant forall j :: i + 1 < j <= size ==> entries[j] == s[j - 1]
        modifies entries
      {
        entries[i + 1] := entries[i];
        i := i - 1;
      }
      entries[index] := e;
      size := size + 1;
      ShiftedIn(Entries(), s, index, e);
    }

    /** Puts `(key, newChild)` right after the slot of `oldChild`; returns the new size. */
    method InsertNodeAfter(oldChild: PageId, key: Key, newChild: PageId) returns (newSize: int)
      requires Valid() && size < entries.Length
      modifies this, entries
      ensures Valid() && Entries() == InsertAfter(old(Entries()), oldChild, InternalEntry(key, newChild))
      ensures newSize == size == old(size) + 1
      ensures pageId == old(pageId) && parentPageId == old(parentPageId) && maxSize == old(maxSize)
    {
      ghost var s := Entries();
      var index := ValueIndex(oldChild);
      ghost var r := InsertAfter(s, oldChild, InternalEntry(key, newChild));
      assert r == s[..index + 1] + [InternalEntry(key, newChild)] + s[index + 1..];
      InsertAt(index + 1, InternalEntry(key, newChild));
      newSize := size;
    }

    /** Deletes pair `index`, moving the later pairs one slot left. */
    method Remove(index: nat)
      requires Valid() && index < size
      modifies this, entries
      ensures Valid() && Entries() == RemoveSlot(old(Entries()), index)
      ensures pageId == old(pageId) && parentPageId == old(parentPageId) && maxSize == old(maxSize)
    {
      ghost var s := Entries();
      var i := index;
      while i < size - 1
        invariant index <= i <= size - 1
        invariant forall j :: 0 <= j < index ==> entries[j] == s[j]
        invariant forall j :: index <= j < i ==> entries[j] == s[j + 1]
        invariant forall j :: i <= j < size ==> entries[j] == s[j]
        modifies entries
      {
        entries[i] := entries[i + 1];
        i := i + 1;
      }
      size := size - 1;
      ShiftedOut(Entries(), s, index);
    }

    /** Empties the page and returns the child that slot 0 still names. */
    method RemoveAndReturnOnlyChild() returns (child: PageId)
      requires Valid() && entries.Length >= 1
      modifies this
      ensures Valid() && Entries() == []
      ensures old(size) >= 1 ==> child == old(Entries())[0].child
      ensures pageId == old(pageId) && parentPageId == old(parentPageId) && maxSize == old(maxSize)
    {
      size := 0;
      child := entries[0].child;
    }

    /** Overwrites this page's pairs with `items` and re-parents every child they name to this page. */
    method CopyNFrom(items: seq<InternalEntry>, parents: map<PageId, PageId>) returns (parents': map<PageId, PageId>)
      requires Valid() && |items| <= entries.Length
      modifies this, entries
      ensures Valid() && Entries() == items
      ensures parents' == Adopt(parents, items, pageId)
      ensures pageId == old(pageId) && parentPageId == old(parentPageId) && maxSize == old(maxSize)
    {
      size := |items|;
      forall j | 0 <= j < |items| {
        entries[j] := items[j];
      }
      assert Entries() == items;
      parents' := Reparent(parents, items, pageId);
    }

    /** Splits the page: the last `size/2` pairs go, in order, to `recipient`, which adopts their children. */
    method MoveHalfTo(recipient: InternalPage, parents: map<PageId, PageId>) returns (parents': map<PageId, PageId>)
      requires Valid() && recipient.Valid() && recipient != this && recipient.entries != entries
      requires size / 2 <= recipient.entries.Length
      modifies this, recipient, recipient.entries
      ensures Valid() && recipient.Valid()
      ensures Entries() == old(Entries())[..KeepCount(old(size))]
      ensures recipient.Entries() == old(Entries())[KeepCount(old(size))..]
      ensures parents' == Adopt(parents, recipient.Entries(), recipient.pageId)
      ensures pageId == old(pageId) && parentPageId == old(parentPageId) && maxSize == old(maxSize)
      ensures recipient.pageId == old(recipient.pageId) && recipient.parentPageId == old(recipient.parentPageId)
      ensures recipient.maxSize == old(recipient.maxSize)
    {
      var n := size;
      parents' := recipient.CopyNFrom(entries[(n + 1) / 2..n], parents);
      size := n - n / 2;
    }

    /**
     * Merge: key 0 takes the separator `middleKey` from the parent, then all
     * pairs go to the end of `recipient`, which adopts their children.
     */
    method MoveAllTo(recipient: InternalPage, middleKey: Key, parents: map<PageId, PageId>)
      returns (parents': map<PageId, PageId>)
      requires Valid() && recipient.Valid() && recipient != this && recipient.entries != entries
      requires entries.Length >= 1 && recipient.size + size <= recipient.entries.Length
      modifies this, entries, recipient, recipient.entries
      ensures Valid() && recipient.Valid()
      ensures Entries() == []
      ensures recipient.Entries() == old(recipient.Entries()) + WithFirstKey(old(Entries()), middleKey)
      ensures parents' == Adopt(parents, old(Entries()), recipient.pageId)
      ensures pageId == old(pageId) && parentPageId == old(parentPageId) && maxSize == old(maxSize)
      ensures recipient.pageId == old(recipient.pageId) && recipient.parentPageId == old(recipient.parentPageId)
      ensures recipient.maxSize == old(recipient.maxSize)
    {
      ghost var s := Entries();
      entries[0] := InternalEntry(middleKey, entries[0].child);
      var items := entries[..size];
      assert items == WithFirstKey(s, middleKey);
      recipient.AppendPairs(items);
      WithFirstKeyChildren(s, middleKey);
      parents' := Reparent(parents, items, recipient.pageId);
      size := 0;
    }

    /** Copies `items` after the pairs already held (a `memcpy` to the end of the pair area). */
    method AppendPairs(items: seq<InternalEntry>)
      requires Valid() && size + |items| <= entries.Length
      modifies this, entries
      ensures Valid() && Entries() == old(Entries()) + items
      ensures pageId == old(pageId) && parentPageId == old(parentPageId) && maxSize == old(maxSize)
    {
      var base := size;
      forall j | 0 <= j < |items| {
        entries[base + j] := items[j];
      }
      size := base + |items|;
      assert Entries() == old(Entries()) + items;
    }

    /** Appends one pair and adopts its child. */
    method CopyLastFrom(key: Key, child: PageId, parents: map<PageId, PageId>) returns (parents': map<PageId, PageId>)
      requires Valid() && size < entries.Length
      modifies this, entries
      ensures Valid() && Entries() == old(Entries()) + [InternalEntry(key, child)]
      ensures parents' == parents[child := pageId]
      ensures pageId == old(pageId) && parentPageId == old(parentPageId) && maxSize == old(maxSize)
    {
      entries[size] := InternalEntry(key, child);
      size := size + 1;
      assert Entries() == old(Entries()) + [InternalEntry(key, child)];
      parents' := parents[child := pageId];
    }

    /**
     * Redistribution towards the left sibling `recipient`: it receives
     * `(middleKey, child 0)`, and this page drops its first pair.
     */
    method MoveFirstToEndOf(recipient: InternalPage, middleKey: Key, parents: map<PageId, PageId>)
      returns (parents': map<PageId, PageId>)
      requires Valid() && recipient.Valid() && recipient != this && recipient.entries != entries
      requires size > 0 && recipient.size < recipient.entries.Length
      modifies this, entries, recipient, recipient.entries
      ensures Valid() && recipient.Valid()
      ensures recipient.Entries() == old(recipient.Entries()) + [InternalEntry(middleKey, old(Entries())[0].child)]
      ensures Entries() == old(Entries())[1..]
      ensures parents' == parents[old(Entries())[0].child := recipient.pageId]
      ensures pageId == old(pageId) && parentPageId == old(parentPageId) && maxSize == old(maxSize)
      ensures recipient.pageId == old(recipient.pageId) && recipient.parentPageId == old(recipient.parentPageId)
      ensures recipient.maxSize == old(recipient.maxSize)
    {
      entries[0] := InternalEntry(middleKey, entries[0].child);
      parents' := recipient.CopyLastFrom(entries[0].key, entries[0].child, parents);
      Remove(0);
    }

    /** Prepends one pair, shifting the others right, and adopts its child. */
    method CopyFirstFrom(key: Key, child: PageId, parents: map<PageId, PageId>) returns (parents': map<PageId, PageId>)
      requires Valid() && size < entries.Length
      modifies this, entries
      ensures Valid() && Entries() == [InternalEntry(key, child)] + old(Entries())
      ensures parents' == parents[child := pageId]
      ensures pageId == old(pageId) && parentPageId == old(parentPageId) && maxSize == old(maxSize)
    {
      InsertAt(0, InternalEntry(key, child));
      parents' := parents[child := pageId];
    }

    /**
     * Redistribution towards the right sibling `recipient`: its key 0 takes
     * `middleKey`, then this page's last pair is put in front of it.
     */
    method MoveLastToFrontOf(recipient: InternalPage, middleKey: Key, parents: map<PageId, PageId>)
      returns (parents': map<PageId, PageId>)
      requires Valid() && recipient.Valid() && recipient != this && recipient.entries != entries
      requires size > 0 && 1 <= recipient.entries.Length && recipient.size < recipient.entries.Length
      modifies this, recipient, recipient.entries
      ensures Valid() && recipient.Valid()
      ensures recipient.Entries() ==
        [old(Entries())[old(size) - 1]] + WithFirstKey(old(recipient.Entries()), middleKey)
      ensures Entries() == old(Entries())[..old(size) - 1]
      ensures parents' == parents[old(Entries())[old(size) - 1].child := recipient.pageId]
      ensures pageId == old(pageId) && parentPageId == old(parentPageId) && maxSize == old(maxSize)
      ensures recipient.pageId == old(recipient.pageId) && recipient.parentPageId == old(recipient.parentPageId)
      ensures recipient.maxSize == old(recipient.maxSize)
    {
      var last := entries[size - 1];
      recipient.entries[0] := InternalEntry(middleKey, recipient.entries[0].child);
      assert recipient.Entries() == WithFirstKey(old(recipient.Entries()), middleKey);
      parents' := recipient.CopyFirstFrom(last.key, last.child, parents);
      size := size - 1;
    }
  }

  /** The re-parenting loop: each child named in `items`, in turn, gets `parent` as its parent. */
  method Reparent(parents: map<PageId, PageId>, items: seq<InternalEntry>, parent: PageId)
    returns (parents': map<PageId, PageId>)
    ensures parents' == Adopt(parents, items, parent)
  {
    parents' := parents;
    var i := 0;
    while i < |items|
      invariant 0 <= i <= |items|
      invariant parents' == Adopt(parents, items[..i], parent)
    {
      AdoptStep(parents, items, i, parent);
      parents' := parents'[items[i].child := parent];
      i := i + 1;
    }
    assert items[..i] == items;
  }

  /** `ValueIndex`'s loop result, stated as `ChildIndex`. */
  lemma ChildIndexIs(s: seq<InternalEntry>, child: PageId, i: int)
    requires -1 <= i < |s|
    requires i >= 0 ==> s[i].child == child
    requires forall j :: 0 <= j < |s| && (i == -1 || j < i) ==> s[j].child != child
    ensures ChildIndex(s, child) == i
  {
  }
}
