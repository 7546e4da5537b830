/**
 * Leaf pages of the B+ tree index: a header (page id, parent id, max size,
 * size, next leaf) followed by an array of (key, row id) pairs kept in key
 * order.  Keys are compared through the index's key manager, which is not
 * part of this model: a key is an `int` and only its order is used.
 *
 * The first half of the module states what each page operation does on the
 * sequence of pairs; the class `LeafPage` is the page itself, an array that
 * the operations rewrite in place, proved against those functions.
 */
module LeafPages {
  import opened Common

  type Key = int

  /** Where a record lives: its table-heap page and its slot in that page. */
  datatype RowId = RowId(pageId: PageId, slotNum: nat)

  datatype LeafEntry = LeafEntry(key: Key, value: RowId)

  predicate Sorted(s: seq<LeafEntry>)
  {
    forall i, j :: 0 <= i < j < |s| ==> s[i].key <= s[j].key
  }

  /** The first position whose key is not below `key` (|s| when there is none). */
  function LowerBound(s: seq<LeafEntry>, key: Key): (i: nat)
    ensures i <= |s|
    ensures forall j :: 0 <= j < i ==> s[j].key < key
    ensures i < |s| ==> key <= s[i].key
  {
    if s == [] || key <= s[0].key then 0 else 1 + LowerBound(s[1..], key)
  }

  /** Any position with the lower-bound property is the lower bound. */
  lemma LowerBoundUnique(s: seq<LeafEntry>, key: Key, i: nat)
    requires i <= |s|
    requires forall j :: 0 <= j < i ==> s[j].key < key
    requires i < |s| ==> key <= s[i].key
    ensures LowerBound(s, key) == i
  {
  }

  /** On a sorted page every key from the lower bound on is at least `key`. */
  lemma LowerBoundSorted(s: seq<LeafEntry>, key: Key)
    requires Sorted(s)
    ensures forall j :: LowerBound(s, key) <= j < |s| ==> key <= s[j].key
  {
  }

  /**
   * `KeyIndex`'s binary search over slots `left..right`: an equal or larger
   * key sends it left, a smaller key right; the answer is `right + 1`.
   */
  function SearchFrom(s: seq<LeafEntry>, key: Key, left: int, right: int): (i: int)
    requires 0 <= left <= right + 1 <= |s|
    ensures left <= i <= right + 1
    decreases right - left + 1
  {
    if left > right then right + 1
    else
      var mid := (left + right) / 2;
      if key <= s[mid].key then SearchFrom(s, key, left, mid - 1) else SearchFrom(s, key, mid + 1, right)
  }

  /** The slot `KeyIndex` returns. */
  function KeyIndexOf(s: seq<LeafEntry>, key: Key): (i: nat)
    ensures i <= |s|
  {
    SearchFrom(s, key, 0, |s| - 1)
  }

  lemma {:induction false} SearchFromIsLowerBound(s: seq<LeafEntry>, key: Key, left: int, right: int)
    requires Sorted(s) && 0 <= left <= right + 1 <= |s|
    requires forall j :: 0 <= j < left ==> s[j].key < key
    requires forall j :: right < j < |s| ==> key <= s[j].key
    ensures SearchFrom(s, key, left, right) == LowerBound(s, key)
    decreases right - left + 1
  {
    if left > right {
      LowerBoundUnique(s, key, right + 1);
    } else {
      var mid := (left + right) / 2;
      if key <= s[mid].key {
        SearchFromIsLowerBound(s, key, left, mid - 1);
      } else {
        SearchFromIsLowerBound(s, key, mid + 1, right);
      }
    }
  }

  /** On a sorted page the binary search finds the first slot whose key is not below `key`. */
  lemma KeyIndexIsLowerBound(s: seq<LeafEntry>, key: Key)
    requires Sorted(s)
    ensures KeyIndexOf(s, key) == LowerBound(s, key)
  {
    SearchFromIsLowerBound(s, key, 0, |s| - 1);
  }

  /** The page after `Insert`: the pair goes in at the lower bound of its key. */
  function LeafInsert(s: seq<LeafEntry>, key: Key, value: RowId): (r: seq<LeafEntry>)
    ensures |r| == |s| + 1
  {
    var i := KeyIndexOf(s, key);
    s[..i] + [LeafEntry(key, value)] + s[i..]
  }

  /** Insertion adds exactly the one pair. */
  lemma InsertContents(s: seq<LeafEntry>, key: Key, value: RowId)
    ensures multiset(LeafInsert(s, key, value)) == multiset(s) + multiset{LeafEntry(key, value)}
  {
    var i := KeyIndexOf(s, key);
    assert s == s[..i] + s[i..];
  }

  /** Slot by slot: pairs below the lower bound stay, the new pair follows, the rest move up one. */
  lemma InsertShape(s: seq<LeafEntry>, key: Key, value: RowId)
    ensures var i, r := KeyIndexOf(s, key), LeafInsert(s, key, value);
      (forall m {:trigger r[m]} :: 0 <= m < i ==> r[m] == s[m]) && r[i] == LeafEntry(key, value) &&
      (forall m {:trigger r[m]} :: i < m < |r| ==> r[m] == s[m - 1])
  {
  }

  /** Insertion keeps a page sorted. */
  lemma {:induction false} InsertKeepsSorted(s: seq<LeafEntry>, key: Key, value: RowId)
    requires Sorted(s)
    ensures Sorted(LeafInsert(s, key, value))
  {
    var i, r := LowerBound(s, key), LeafInsert(s, key, value);
    KeyIndexIsLowerBound(s, key);
    InsertShape(s, key, value);
    LowerBoundSorted(s, key);
    forall a, b | 0 <= a < b < |r|
      ensures r[a].key <= r[b].key
    {
      if b < i {
      } else if a < i && b == i {
      } else if a < i {
        assert r[b] == s[b - 1];
      } else if a == i {
        assert r[b] == s[b - 1];
      } else {
        assert r[a] == s[a - 1] && r[b] == s[b - 1];
      }
    }
  }

  /** The value `Lookup` finds: the pair at the lower bound, when its key is equal. */
  function LeafLookup(s: seq<LeafEntry>, key: Key): Option<RowId>
  {
    var i := KeyIndexOf(s, key);
    if i < |s| && s[i].key == key then Some(s[i].value) else None
  }

  /** A value found under `key` is stored under `key`. */
  lemma LookupSound(s: seq<LeafEntry>, key: Key)
    ensures LeafLookup(s, key).Some? ==> LeafEntry(key, LeafLookup(s, key).value) in s
  {
  }

  /** On a sorted page the lookup misses exactly when no pair has the key. */
  lemma LookupComplete(s: seq<LeafEntry>, key: Key)
    requires Sorted(s)
    ensures LeafLookup(s, key).None? <==> forall j :: 0 <= j < |s| ==> s[j].key != key
  {
    KeyIndexIsLowerBound(s, key);
    LowerBoundSorted(s, key);
  }

  /** The page after `RemoveAndDeleteRecord`: the pair at the lower bound goes when its key is equal. */
  function LeafRemove(s: seq<LeafEntry>, key: Key): (r: seq<LeafEntry>)
    ensures |r| == if LeafLookup(s, key).Some? then |s| - 1 else |s|
  {
    var i := KeyIndexOf(s, key);
    if i < |s| && s[i].key == key then s[..i] + s[i + 1..] else s
  }

  /** Removal takes out exactly the pair a lookup finds, and nothing when the lookup misses. */
  lemma RemoveContents(s: seq<LeafEntry>, key: Key)
    ensures LeafLookup(s, key).None? ==> LeafRemove(s, key) == s
    ensures LeafLookup(s, key).Some? ==>
      multiset(LeafRemove(s, key)) + multiset{LeafEntry(key, LeafLookup(s, key).value)} == multiset(s)
  {
    var i := KeyIndexOf(s, key);
    if i < |s| && s[i].key == key {
      assert s == s[..i] + [s[i]] + s[i + 1..];
    }
  }

  /** Removal keeps a page sorted. */
  lemma RemoveKeepsSorted(s: seq<LeafEntry>, key: Key)
    requires Sorted(s)
    ensures Sorted(LeafRemove(s, key))
  {
  }

  /** How many pairs `MoveHalfTo` leaves behind: `size - size/2`, which is `(size+1)/2`. */
  function KeepCount(n: nat): (k: nat)
    ensures k <= n && n - k == n / 2
  {
    n - n / 2
  }

  /**
   * Inserting a pair makes a later lookup of that key find the new value, even
   * when the key was already present: the new pair is placed before its equals.
   */
  lemma {:induction false} LookupAfterInsert(s: seq<LeafEntry>, key: Key, value: RowId)
    requires Sorted(s)
    ensures LeafLookup(LeafInsert(s, key, value), key) == Some(value)
  {
    var i := LowerBound(s, key);
    var r := LeafInsert(s, key, value);
    KeyIndexIsLowerBound(s, key);
    InsertKeepsSorted(s, key, value);
    KeyIndexIsLowerBound(r, key);
    InsertShape(s, key, value);
    LowerBoundUnique(r, key, i);
  }

  /** Inserting a pair does not change what a lookup of any other key finds. */
  lemma {:induction false} LookupOtherAfterInsert(s: seq<LeafEntry>, key: Key, value: RowId, other: Key)
    requires Sorted(s) && other != key
    ensures LeafLookup(LeafInsert(s, key, value), other) == LeafLookup(s, other)
  {
    var r := LeafInsert(s, key, value);
    KeyIndexIsLowerBound(s, other);
    InsertKeepsSorted(s, key, value);
    KeyIndexIsLowerBound(r, other);
    if other < key {
      InsertAbove(s, key, value, other);
    } else {
      InsertBelow(s, key, value, other);
    }
  }

  /** A key below the inserted one keeps its lower bound, and the pair there when it is equal. */
  lemma {:induction false} InsertAbove(s: seq<LeafEntry>, key: Key, value: RowId, other: Key)
    requires Sorted(s) && other < key
    ensures var r, j := LeafInsert(s, key, value), LowerBound(s, other);
      LowerBound(r, other) == j &&
      (j < |s| && s[j].key == other ==> r[j] == s[j]) &&
      (j < |r| && r[j].key == other ==> j < |s| && r[j] == s[j])
  {
    var i := LowerBound(s, key);
    var j := LowerBound(s, other);
    var r := LeafInsert(s, key, value);
    KeyIndexIsLowerBound(s, key);
    InsertShape(s, key, value);
    LowerBoundSorted(s, key);
    LowerBoundSorted(s, other);
    assert j <= i;
    LowerBoundUnique(r, other, j);
  }

  /** A key above the inserted one has its lower bound moved up one slot, with the same pair. */
  lemma {:induction false} InsertBelow(s: seq<LeafEntry>, key: Key, value: RowId, other: Key)
    requires Sorted(s) && key < other
    ensures var r, j := LeafInsert(s, key, value), LowerBound(s, other);
      LowerBound(r, other) == j + 1 && (j < |s| ==> r[j + 1] == s[j])
  {
    var i := LowerBound(s, key);
    var j := LowerBound(s, other);
    var r := LeafInsert(s, key, value);
    KeyIndexIsLowerBound(s, key);
    InsertShape(s, key, value);
    LowerBoundSorted(s, key);
    LowerBoundSorted(s, other);
    assert i <= j;
    assert forall m :: 0 <= m < j + 1 ==> r[m].key < other by {
      forall m | 0 <= m < j + 1
        ensures r[m].key < other
      {
        if m > i {
          assert r[m] == s[m - 1];
        }
      }
    }
    LowerBoundUnique(r, other, j + 1);
  }

  /** Removing a key right after inserting it gives back the original page. */
  lemma {:induction false} RemoveAfterInsert(s: seq<LeafEntry>, key: Key, value: RowId)
    requires Sorted(s)
    ensures LeafRemove(LeafInsert(s, key, value), key) == s
  {
    var i := KeyIndexOf(s, key);
    InsertedAt(s, key, value);
    DropInserted(s[..i], LeafEntry(key, value), s[i..]);
    assert s[..i] + s[i..] == s;
  }

  /** On a sorted page the binary search finds an inserted key where it was put. */
  lemma InsertedAt(s: seq<LeafEntry>, key: Key, value: RowId)
    requires Sorted(s)
    ensures KeyIndexOf(LeafInsert(s, key, value), key) == KeyIndexOf(s, key)
  {
    var i := KeyIndexOf(s, key);
    var r := LeafInsert(s, key, value);
    KeyIndexIsLowerBound(s, key);
    InsertKeepsSorted(s, key, value);
    KeyIndexIsLowerBound(r, key);
    InsertShape(s, key, value);
    LowerBoundUnique(r, key, i);
  }

  /** Keys in strictly increasing order: no key twice. */
  predicate StrictlySorted(s: seq<LeafEntry>)
  {
    forall i, j :: 0 <= i < j < |s| ==> s[i].key < s[j].key
  }

  /**
   * Inserting a key the page already holds puts the new pair right before the
   * old one: the page then holds the key twice.
   */
  lemma DuplicateInsertedTwice(s: seq<LeafEntry>, key: Key, value: RowId)
    requires LeafLookup(s, key).Some?
    ensures var i, r := KeyIndexOf(s, key), LeafInsert(s, key, value);
      i + 1 < |r| && r[i].key == key && r[i + 1].key == key && !StrictlySorted(r)
  {
    InsertShape(s, key, value);
    var i, r := KeyIndexOf(s, key), LeafInsert(s, key, value);
    assert r[i + 1] == s[i];
  }

  /** Inserting a key the page does not hold keeps the keys strictly increasing. */
  lemma {:induction false} InsertKeepsStrictlySorted(s: seq<LeafEntry>, key: Key, value: RowId)
    requires StrictlySorted(s) && LeafLookup(s, key).None?
    ensures StrictlySorted(LeafInsert(s, key, value))
  {
    var i, r := LowerBound(s, key), LeafInsert(s, key, value);
    KeyIndexIsLowerBound(s, key);
    InsertShape(s, key, value);
    LowerBoundSorted(s, key);
    forall a, b | 0 <= a < b < |r|
      ensures r[a].key < r[b].key
    {
      if b < i {
      } else if a < i && b == i {
      } else if a < i {
        assert r[b] == s[b - 1];
      } else if a == i {
        assert r[b] == s[b - 1];
        assert s[i].key != key;
      } else {
        assert r[a] == s[a - 1] && r[b] == s[b - 1];
      }
    }
  }

  /** The two halves of a split, put back together, are the page before the split. */
  lemma SplitHalves(s: seq<LeafEntry>)
    requires Sorted(s)
    ensures s[..KeepCount(|s|)] + s[KeepCount(|s|)..] == s
    ensures Sorted(s[..KeepCount(|s|)]) && Sorted(s[KeepCount(|s|)..])
    ensures forall i, j :: 0 <= i < KeepCount(|s|) <= j < |s| ==> s[i].key <= s[j].key
  {
  }

  /**
   * A leaf page in a buffer frame.  `entries` is the pair area of the page
   * (its length is how many pairs fit); only the first `size` pairs are
   * meaningful.
   */
  class LeafPage {
    var pageId: PageId
    var parentPageId: PageId
    var maxSize: int
    var size: nat
    var nextPageId: PageId
    const entries: array<LeafEntry>

    ghost predicate Valid()
      reads this
    {
      size <= entries.Length
    }

    /** The pairs the page holds, in slot order. */
    ghost function Entries(): seq<LeafEntry>
      reads this, entries
      requires Valid()
    {
      entries[..size]
    }

    constructor (capacity: nat)
      ensures Valid() && entries.Length == capacity && fresh(entries)
    {
      pageId := INVALID_PAGE_ID;
      parentPageId := INVALID_PAGE_ID;
      maxSize := 0;
      size := 0;
      nextPageId := INVALID_PAGE_ID;
      entries := new LeafEntry[capacity](_ => LeafEntry(0, RowId(INVALID_PAGE_ID, 0)));
    }

    /** Formats the page as an empty leaf; the next-page link is left as it was. */
    method Init(pageId: PageId, parentId: PageId, maxSize: int)
      requires Valid()
      modifies this
      ensures Valid() && Entries() == []
      ensures this.pageId == pageId && parentPageId == parentId && this.maxSize == maxSize
      ensures nextPageId == old(nextPageId)
    {
      this.pageId := pageId;
      parentPageId := parentId;
      this.maxSize := maxSize;
      size := 0;
    }

    /** Binary search for the first slot whose key is not below `key`. */
    method KeyIndex(key: Key) returns (index: nat)
      requires Valid()
      ensures index == KeyIndexOf(Entries(), key)
    {
      var left: int := 0;
      var right: int := size - 1;
      while left <= right
        invariant 0 <= left <= right + 1 <= size
        invariant SearchFrom(Entries(), key, left, right) == KeyIndexOf(Entries(), key)
      {
        var mid := (left + right) / 2;
        if key == entries[mid].key {
          right := mid - 1;
        } else if key < entries[mid].key {
          right := mid - 1;
        } else {
          left := mid + 1;
        }
      }
      index := right + 1;
    }

    /** Opens slot `index` by moving the pairs from there on one slot right, and stores `entry` in it. */
    method InsertAt(index: nat, entry: LeafEntry)
      requires Valid() && index <= size < entries.Length
      modifies this, entries
      ensures Valid() && Entries() == old(Entries())[..index] + [entry] + old(Entries())[index..]
      ensures pageId == old(pageId) && parentPageId == old(parentPageId)
      ensures maxSize == old(maxSize) && nextPageId == old(nextPageId)
    {
      ghost var s := Entries();
      var i: int := size - 1;
      while i >= index
        invariant index - 1 <= i < size
        invariant forall j :: 0 <= j <= i ==> entries[j] == s[j]
        invariant forall j :: i + 1 < j <= size ==> entries[j] == s[j - 1]
        modifies entries
      {
        entries[i + 1] := entries[i];
        i := i - 1;
      }
      entries[index] := entry;
      size := size + 1;
      ShiftedIn(Entries(), s, index, entry);
    }

    /** Closes slot `index` by moving the later pairs one slot left. */
    method RemoveAt(index: nat)
      requires Valid() && index < size
      modifies this, entries
      ensures Valid() && Entries() == old(Entries())[..index] + old(Entries())[index + 1..]
      ensures pageId == old(pageId) && parentPageId == old(parentPageId)
      ensures maxSize == old(maxSize) && nextPageId == old(nextPageId)
    {
      ghost var s := Entries();
      var i := index;
      while i < size - 1
        invariant index <= i <= size - 1
        invariant forall j :: 0 <= j < index ==> entries[j] == s[j]
        invariant forall j :: index <= j < i ==> entries[j] == s[j + 1]
        invariant forall j :: i <= j < size ==> entries[j] == s[j]
        modifies entries
      {
        entries[i] := entries[i + 1];
        i := i + 1;
      }
      size := size - 1;
      ShiftedOut(Entries(), s, index);
    }

    /**
     * `Insert` as written: the duplicate test compares the address of the
     * stored key with the address of the argument, which never match, so a
     * key already on the page is inserted a second time (see
     * `DuplicateInsertedTwice`).
     */
    method InsertAsWritten(key: Key, value: RowId) returns (newSize: int)
      requires Valid() && size < entries.Length
      modifies this, entries
      ensures Valid() && Entries() == LeafInsert(old(Entries()), key, value)
      ensures newSize == size == old(size) + 1
      ensures pageId == old(pageId) && parentPageId == old(parentPageId)
      ensures maxSize == old(maxSize) && nextPageId == old(nextPageId)
    {
      var index := KeyIndex(key);
      InsertAt(index, LeafEntry(key, value));
      newSize := size;
    }

    /**
     * Puts the pair at the lower bound of its key, shifting later pairs right,
     * and returns the new size; -1, with the page unchanged, when the pair at
     * the lower bound already has the key.
     */
    method Insert(key: Key, value: RowId) returns (newSize: int)
      requires Valid() && size < entries.Length
      modifies this, entries
      ensures Valid()
      ensures LeafLookup(old(Entries()), key).Some? ==> newSize == -1 && Entries() == old(Entries())
      ensures LeafLookup(old(Entries()), key).None? ==>
        Entries() == LeafInsert(old(Entries()), key, value) && newSize == size == old(size) + 1
      ensures pageId == old(pageId) && parentPageId == old(parentPageId)
      ensures maxSize == old(maxSize) && nextPageId == old(nextPageId)
    {
      var index := KeyIndex(key);
      if index < size && entries[index].key == key {
        return -1;
      }
      InsertAt(index, LeafEntry(key, value));
      newSize := size;
    }

    /** The value stored under `key`, if the pair at its lower bound has that key. */
    method Lookup(key: Key) returns (value: Option<RowId>)
      requires Valid()
      ensures value == LeafLookup(Entries(), key)
    {
      var index := KeyIndex(key);
      if index >= size {
        return None;
      }
      if key == entries[index].key {
        return Some(entries[index].value);
      }
      return None;
    }

    /** Deletes the pair for `key`, shifting later pairs left; -1 on an empty page, else the new size. */
    method RemoveAndDeleteRecord(key: Key) returns (newSize: int)
      requires Valid()
      modifies this, entries
      ensures Valid()
      ensures old(size) == 0 ==> newSize == -1 && Entries() == old(Entries())
      ensures old(size) > 0 ==> newSize == size && Entries() == LeafRemove(old(Entries()), key)
      ensures pageId == old(pageId) && parentPageId == old(parentPageId)
      ensures maxSize == old(maxSize) && nextPageId == old(nextPageId)
    {
      if size == 0 {
        return -1;
      }
      var index := KeyIndex(key);
      if index >= size || key != entries[index].key {
        return size;
      }
      RemoveAt(index);
      newSize := size;
    }

    /** Overwrites this page's pairs with `items` (a `memcpy` of whole pairs). */
    method CopyNFrom(items: seq<LeafEntry>)
      requires Valid() && |items| <= entries.Length
      modifies this, entries
      ensures Valid() && Entries() == items
      ensures pageId == old(pageId) && parentPageId == old(parentPageId)
      ensures maxSize == old(maxSize) && nextPageId == old(nextPageId)
    {
      forall j | 0 <= j < |items| {
        entries[j] := items[j];
      }
      size := |items|;
    }

    /** Splits the page: the last `size/2` pairs go, in order, to the empty `recipient`. */
    method MoveHalfTo(recipient: LeafPage)
      requires Valid() && recipient.Valid() && recipient != this && recipient.entries != entries
      requires size / 2 <= recipient.entries.Length
      modifies this, recipient, recipient.entries
      ensures Valid() && recipient.Valid()
      ensures Entries() == old(Entries())[..KeepCount(old(size))]
      ensures recipient.Entries() == old(Entries())[KeepCount(old(size))..]
      ensures pageId == old(pageId) && parentPageId == old(parentPageId)
      ensures maxSize == old(maxSize) && nextPageId == old(nextPageId)
      ensures recipient.pageId == old(recipient.pageId) && recipient.parentPageId == old(recipient.parentPageId)
      ensures recipient.maxSize == old(recipient.maxSize) && recipient.nextPageId == old(recipient.nextPageId)
    {
      var n := size;
      recipient.CopyNFrom(entries[(n + 1) / 2..n]);
      size := n - n / 2;
    }

    /** Merge: all pairs go to the end of `recipient`, which takes over the next-leaf link. */
    method MoveAllTo(recipient: LeafPage)
      requires Valid() && recipient.Valid() && recipient != this && recipient.entries != entries
      requires recipient.size + size <= recipient.entries.Length
      modifies this, recipient, recipient.entries
      ensures Valid() && recipient.Valid()
      ensures Entries() == []
      ensures recipient.Entries() == old(recipient.Entries()) + old(Entries())
      ensures recipient.nextPageId == old(nextPageId)
      ensures pageId == old(pageId) && parentPageId == old(parentPageId)
      ensures maxSize == old(maxSize) && nextPageId == old(nextPageId)
      ensures recipient.pageId == old(recipient.pageId) && recipient.parentPageId == old(recipient.parentPageId)
      ensures recipient.maxSize == old(recipient.maxSize)
    {
      var base := recipient.size;
      forall j | 0 <= j < size {
        recipient.entries[base + j] := entries[j];
      }
      recipient.size := base + size;
      assert recipient.Entries() == old(recipient.Entries()) + old(Entries());
      recipient.nextPageId := nextPageId;
      size := 0;
    }

    /** Appends one pair. */
    method CopyLastFrom(entry: LeafEntry)
      requires Valid() && size < entries.Length
      modifies this, entries
      ensures Valid() && Entries() == old(Entries()) + [entry]
      ensures pageId == old(pageId) && parentPageId == old(parentPageId)
      ensures maxSize == old(maxSize) && nextPageId == old(nextPageId)
    {
      entries[size] := entry;
      size := size + 1;
      assert Entries() == old(Entries()) + [entry];
    }

    /** Redistribution: the first pair moves to the end of `recipient`, the left sibling. */
    method MoveFirstToEndOf(recipient: LeafPage)
      requires Valid() && recipient.Valid() && recipient != this && recipient.entries != entries
      requires size > 0 && recipient.size < recipient.entries.Length
      modifies this, entries, recipient, recipient.entries
      ensures Valid() && recipient.Valid()
      ensures recipient.Entries() == old(recipient.Entries()) + [old(Entries())[0]]
      ensures Entries() == old(Entries())[1..]
      ensures pageId == old(pageId) && parentPageId == old(parentPageId)
      ensures maxSize == old(maxSize) && nextPageId == old(nextPageId)
      ensures recipient.pageId == old(recipient.pageId) && recipient.parentPageId == old(recipient.parentPageId)
      ensures recipient.maxSize == old(recipient.maxSize) && recipient.nextPageId == old(recipient.nextPageId)
    {
      recipient.CopyLastFrom(entries[0]);
      RemoveAt(0);
    }

    /** Prepends one pair, shifting the others right. */
    method CopyFirstFrom(entry: LeafEntry)
      requires Valid() && size < entries.Length
      modifies this, entries
      ensures Valid() && Entries() == [entry] + old(Entries())
      ensures pageId == old(pageId) && parentPageId == old(parentPageId)
      ensures maxSize == old(maxSize) && nextPageId == old(nextPageId)
    {
      InsertAt(0, entry);
    }

    /** Redistribution: the last pair moves to the front of `recipient`, the right sibling. */
    method MoveLastToFrontOf(recipient: LeafPage)
      requires Valid() && recipient.Valid() && recipient != this && recipient.entries != entries
      requires size > 0 && recipient.size < recipient.entries.Length
      modifies this, recipient, recipient.entries
      ensures Valid() && recipient.Valid()
      ensures recipient.Entries() == [old(Entries())[old(size) - 1]] + old(recipient.Entries())
      ensures Entries() == old(Entries())[..old(size) - 1]
      ensures Entries() + recipient.Entries() == old(Entries()) + old(recipient.Entries())
      ensures pageId == old(pageId) && parentPageId == old(parentPageId)
      ensures maxSize == old(maxSize) && nextPageId == old(nextPageId)
      ensures recipient.pageId == old(recipient.pageId) && recipient.parentPageId == old(recipient.parentPageId)
      ensures recipient.maxSize == old(recipient.maxSize) && recipient.nextPageId == old(recipient.nextPageId)
    {
      recipient.CopyFirstFrom(entries[size - 1]);
      size := size - 1;
    }
  }
}
