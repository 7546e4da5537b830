/**
 * The index iterator: a position (leaf page id, slot) that walks the leaves
 * along their next links.  It keeps its current leaf pinned in the buffer
 * pool; the pins are counted per page id in `PinCounts`.
 */
module IndexIterators {
  import opened Common
  import opened LeafPages
  import opened BPlusTrees

  /**
   * The position `operator++` moves to: the next slot on the leaf; from the
   * last slot (`size - 1`), the first slot of the next leaf, or nowhere when
   * there is none.  A position that is not on an index leaf stays.
   */
  function Advance(nodes: map<PageId, Node>, pos: Position): Position
  {
    if pos.pageId !in nodes || nodes[pos.pageId].Internal? then pos
    else
      var leaf := nodes[pos.pageId];
      if pos.index == |leaf.items| - 1 then
        if leaf.next != INVALID_PAGE_ID then Position(leaf.next, 0) else pos
      else Position(pos.pageId, pos.index + 1)
  }

  /** `k` steps of `operator++`. */
  function AdvanceBy(nodes: map<PageId, Node>, pos: Position, k: nat): Position
    decreases k
  {
    if k == 0 then pos else AdvanceBy(nodes, Advance(nodes, pos), k - 1)
  }

  /** `operator*`: the pair at the position, if the position is a slot of an index leaf. */
  function ItemAt(nodes: map<PageId, Node>, pos: Position): Option<LeafEntry>
  {
    if pos.pageId in nodes && nodes[pos.pageId].Leaf? && 0 <= pos.index < |nodes[pos.pageId].items| then
      Some(nodes[pos.pageId].items[pos.index])
    else None
  }

  /** A pair the iterator reads is a pair of the tree. */
  lemma ItemAtIsStored(nodes: map<PageId, Node>, pos: Position, n: nat)
    requires forall id :: id in nodes ==> 0 <= id < n
    ensures ItemAt(nodes, pos).Some? ==> ItemAt(nodes, pos).value in ItemsBelow(nodes, n)
  {
    if ItemAt(nodes, pos).Some? {
      ItemsHold(nodes, pos.pageId, ItemAt(nodes, pos).value, n);
    }
  }

  /** The position `End` names is where `operator++` stops: it stays there. */
  lemma EndIsFixedPoint(nodes: map<PageId, Node>, first: PageId, fuel: nat)
    requires LastLeaf(nodes, first, fuel).Some?
    ensures var last := LastLeaf(nodes, first, fuel).value;
      var end := Position(last, |nodes[last].items| - 1);
      Advance(nodes, end) == end && AdvanceBy(nodes, end, fuel) == end
  {
    var last := LastLeaf(nodes, first, fuel).value;
    AdvanceByStays(nodes, Position(last, |nodes[last].items| - 1), fuel);
  }

  /** A position `operator++` leaves in place stays there for any number of steps. */
  lemma {:induction false} AdvanceByStays(nodes: map<PageId, Node>, pos: Position, k: nat)
    requires Advance(nodes, pos) == pos
    ensures AdvanceBy(nodes, pos, k) == pos
  {
    if k > 0 {
      AdvanceByStays(nodes, pos, k - 1);
    }
  }

  /**
   * From the first slot of a leaf, `k` steps (while on the leaf) reach slot
   * `k`: the iterator reads the leaf's pairs one after the other, in order.
   */
  lemma {:induction false} AdvanceWalksLeaf(nodes: map<PageId, Node>, id: PageId, k: nat)
    requires id in nodes && nodes[id].Leaf? && k < |nodes[id].items|
    ensures AdvanceBy(nodes, Position(id, 0), k) == Position(id, k)
    ensures ItemAt(nodes, AdvanceBy(nodes, Position(id, 0), k)) == Some(nodes[id].items[k])
  {
    if k > 0 {
      AdvanceWalksLeaf(nodes, id, k - 1);
      AdvanceByLast(nodes, Position(id, 0), k - 1);
    }
  }

  /** `k + 1` steps are `k` steps and one more. */
  lemma {:induction false} AdvanceByLast(nodes: map<PageId, Node>, pos: Position, k: nat)
    ensures AdvanceBy(nodes, pos, k + 1) == Advance(nodes, AdvanceBy(nodes, pos, k))
    decreases k
  {
    if k > 0 {
      AdvanceByLast(nodes, Advance(nodes, pos), k - 1);
    }
  }

  /** From the last slot of a leaf with a next leaf, one step reaches that leaf's first slot. */
  lemma AdvanceFollowsLink(nodes: map<PageId, Node>, id: PageId)
    requires id in nodes && nodes[id].Leaf? && |nodes[id].items| > 0 && nodes[id].next != INVALID_PAGE_ID
    ensures Advance(nodes, Position(id, |nodes[id].items| - 1)) == Position(nodes[id].next, 0)
  {
  }

  /**
   * As written, `Begin(key)` may stand one past the last slot of its leaf;
   * `operator++` only leaves a leaf from slot `size - 1`, so from there the
   * iterator counts up the slot for ever and never reads a pair again, even
   * when a next leaf holds the pairs that follow.
   */
  lemma {:induction false} PastLastSlotNeverAdvances(nodes: map<PageId, Node>, id: PageId, k: nat)
    requires id in nodes && nodes[id].Leaf?
    ensures AdvanceBy(nodes, Position(id, |nodes[id].items|), k) == Position(id, |nodes[id].items| + k)
    ensures ItemAt(nodes, AdvanceBy(nodes, Position(id, |nodes[id].items|), k)).None?
  {
    if k > 0 {
      PastLastSlotNeverAdvances(nodes, id, k - 1);
      AdvanceByLast(nodes, Position(id, |nodes[id].items|), k - 1);
    }
  }

  /** `a + b` steps are `a` steps and then `b` more. */
  lemma {:induction false} AdvanceByAdd(nodes: map<PageId, Node>, pos: Position, a: nat, b: nat)
    ensures AdvanceBy(nodes, pos, a + b) == AdvanceBy(nodes, AdvanceBy(nodes, pos, a), b)
    decreases a
  {
    if a > 0 {
      AdvanceByAdd(nodes, Advance(nodes, pos), a - 1, b);
    }
  }

  /**
   * Along linked leaves, the steps past the pairs of the first leaf go on
   * from the first slot of the second.
   */
  lemma CrossLink(nodes: map<PageId, Node>, ids: seq<PageId>, k: nat)
    requires Linked(nodes, ids) && |ids| > 1 && LeafSeq(nodes, ids[0]) != []
    ensures AdvanceBy(nodes, Position(ids[0], 0), |LeafSeq(nodes, ids[0])| + k) == AdvanceBy(nodes, Position(ids[1], 0), k)
  {
    var m := |nodes[ids[0]].items|;
    AdvanceByAdd(nodes, Position(ids[0], 0), m - 1, k + 1);
    AdvanceWalksLeaf(nodes, ids[0], m - 1);
    AdvanceFollowsLink(nodes, ids[0]);
  }

  /** Along linked leaves that all hold pairs, step `j` reads pair `j` of the leaves. */
  lemma {:induction false} ScanWalks(nodes: map<PageId, Node>, ids: seq<PageId>, j: nat)
    requires Linked(nodes, ids) && forall i :: 0 <= i < |ids| ==> LeafSeq(nodes, ids[i]) != []
    requires j < |Pairs(nodes, ids)|
    ensures ItemAt(nodes, AdvanceBy(nodes, Position(ids[0], 0), j)) == Some(Pairs(nodes, ids)[j])
    decreases |ids|
  {
    var m := |LeafSeq(nodes, ids[0])|;
    assert Pairs(nodes, ids) == LeafSeq(nodes, ids[0]) + Pairs(nodes, ids[1..]);
    if j < m {
      AdvanceWalksLeaf(nodes, ids[0], j);
    } else {
      assert |ids| > 1;
      CrossLink(nodes, ids, j - m);
      assert ids[1..][0] == ids[1];
      ScanWalks(nodes, ids[1..], j - m);
    }
  }

  /** Along linked leaves that all hold pairs, the last step lands on the last slot of the last leaf. */
  lemma {:induction false} ScanEnds(nodes: map<PageId, Node>, ids: seq<PageId>)
    requires Linked(nodes, ids) && forall i :: 0 <= i < |ids| ==> LeafSeq(nodes, ids[i]) != []
    ensures |Pairs(nodes, ids)| > 0
    ensures AdvanceBy(nodes, Position(ids[0], 0), |Pairs(nodes, ids)| - 1) ==
            Position(ids[|ids| - 1], |LeafSeq(nodes, ids[|ids| - 1])| - 1)
    decreases |ids|
  {
    var m := |LeafSeq(nodes, ids[0])|;
    assert Pairs(nodes, ids) == LeafSeq(nodes, ids[0]) + Pairs(nodes, ids[1..]);
    if |ids| == 1 {
      assert Pairs(nodes, ids[1..]) == [];
      AdvanceWalksLeaf(nodes, ids[0], m - 1);
    } else {
      ScanEnds(nodes, ids[1..]);
      CrossLink(nodes, ids, |Pairs(nodes, ids[1..])| - 1);
      assert ids[1..][0] == ids[1] && ids[1..][|ids| - 2] == ids[|ids| - 1];
    }
  }

  /**
   * A full scan of a tree in shape: `Begin` names a leaf, `End` names the
   * last slot of the last leaf, and step `j` from `Begin` reads pair `j` of
   * the tree's pairs in strictly increasing key order, so the scan reads
   * every pair of the tree once, by key, and meets `End` on the last.
   */
  lemma ScanReadsItems(nodes: map<PageId, Node>, root: PageId, n: nat, h: nat)
    requires Shape(nodes, root, n, h) && root != INVALID_PAGE_ID
    ensures var first := FindLeaf(nodes, root, 0, true, |nodes|);
      first.Some? && LastLeaf(nodes, first.value, |nodes|).Some? &&
      var last := LastLeaf(nodes, first.value, |nodes|).value;
      var p := Pairs(nodes, Leaves(nodes, root, h));
      |p| > 0 && StrictlySorted(p) && multiset(p) == ItemsBelow(nodes, n) &&
      (forall j :: 0 <= j < |p| ==> ItemAt(nodes, AdvanceBy(nodes, Position(first.value, 0), j)) == Some(p[j])) &&
      AdvanceBy(nodes, Position(first.value, 0), |p| - 1) == Position(last, |nodes[last].items| - 1)
  {
    var ids := Leaves(nodes, root, h);
    HeightBelowSize(nodes, root, None, None, h);
    LeftmostFinds(nodes, root, None, None, h, 0, |nodes|);
    LeavesHoldItems(nodes, root, n, h);
    assert forall i :: 0 <= i < |ids| ==> ids[i] in nodes by {
      forall i | 0 <= i < |ids|
        ensures ids[i] in nodes
      {
        LinkedHas(nodes, ids, i);
      }
    }
    FewerThanNodes(nodes, ids);
    LinkedLast(nodes, ids, |nodes|);
    ScanEnds(nodes, ids);
    forall j | 0 <= j < |Pairs(nodes, ids)|
      ensures ItemAt(nodes, AdvanceBy(nodes, Position(ids[0], 0), j)) == Some(Pairs(nodes, ids)[j])
    {
      ScanWalks(nodes, ids, j);
    }
  }

  /** An empty tree in shape: `Begin` names no leaf, and the tree holds no pairs. */
  lemma EmptyScan(nodes: map<PageId, Node>, n: nat, h: nat)
    requires Shape(nodes, INVALID_PAGE_ID, n, h)
    ensures FindLeaf(nodes, INVALID_PAGE_ID, 0, true, |nodes|).None?
    ensures ItemsBelow(nodes, n) == multiset{}
  {
    NoItems(nodes, n);
  }

  /** The buffer pool's pin counts, as a multiset of page ids. */
  class PinCounts {
    var pins: multiset<PageId>

    constructor()
      ensures pins == multiset{}
    {
      pins := multiset{};
    }

    /** `FetchPage`: one more pin on `id`. */
    method Fetch(id: PageId)
      modifies this
      ensures pins == old(pins) + multiset{id}
    {
      pins := pins + multiset{id};
    }

    /** `UnpinPage`: one pin fewer on `id`, if it has any. */
    method Unpin(id: PageId)
      modifies this
      ensures pins == old(pins) - multiset{id}
    {
      pins := pins - multiset{id};
    }
  }

  class IndexIterator {
    /** `current_page_id` */
    var currentPageId: PageId
    /** `item_index` */
    var itemIndex: int
    /** The tree whose leaves the iterator reads. */
    const tree: BPlusTree
    /** The buffer pool's pins. */
    const pool: PinCounts
    /** The pins held by everything but this iterator. */
    ghost var others: multiset<PageId>

    /** The iterator holds exactly one pin, on its current page. */
    ghost predicate Valid()
      reads this, pool
    {
      pool.pins == others + multiset{currentPageId}
    }

    /** The iterator's position. */
    function Pos(): Position
      reads this
    {
      Position(currentPageId, itemIndex)
    }

    /** The constructor: stands at `pos` and pins its page. */
    constructor(tree: BPlusTree, pool: PinCounts, pos: Position)
      modifies pool
      ensures Valid() && others == old(pool.pins) && Pos() == pos
      ensures this.tree == tree && this.pool == pool
    {
      this.tree := tree;
      this.pool := pool;
      currentPageId := pos.pageId;
      itemIndex := pos.index;
      others := pool.pins;
      new;
      pool.Fetch(pos.pageId);
    }

    /** The destructor: gives back the pin on a valid current page. */
    method Destroy()
      requires Valid()
      modifies pool
      ensures currentPageId != INVALID_PAGE_ID ==> pool.pins == others
      ensures currentPageId == INVALID_PAGE_ID ==> pool.pins == old(pool.pins)
    {
      if currentPageId != INVALID_PAGE_ID {
        pool.Unpin(currentPageId);
      }
    }

    /**
     * `operator*`: the pair at the current slot, which is a pair of the
     * tree; None where the engine would read outside the leaf's pairs.
     */
    method Get() returns (e: Option<LeafEntry>)
      requires tree.Valid()
      ensures e == ItemAt(tree.nodes, Pos())
      ensures e.Some? ==> e.value in tree.Items()
    {
      ItemAtIsStored(tree.nodes, Pos(), tree.nextId);
      if currentPageId in tree.nodes && tree.nodes[currentPageId].Leaf? &&
         0 <= itemIndex < |tree.nodes[currentPageId].items| {
        return Some(tree.nodes[currentPageId].items[itemIndex]);
      }
      return None;
    }

    /**
     * `operator++`: moves to `Advance` of the position; when it changes leaf
     * it gives back the pin on the old leaf and pins the new one.
     */
    method Next()
      requires Valid()
      modifies this, pool
      ensures Valid() && others == old(others)
      ensures Pos() == Advance(tree.nodes, old(Pos()))
    {
      if currentPageId !in tree.nodes || tree.nodes[currentPageId].Internal? {
        return;
      }
      var leaf := tree.nodes[currentPageId];
      if itemIndex == |leaf.items| - 1 {
        if leaf.next != INVALID_PAGE_ID {
          itemIndex := 0;
          var nextPage := leaf.next;
          pool.Unpin(currentPageId);
          currentPageId := nextPage;
          pool.Fetch(currentPageId);
        }
      } else {
        itemIndex := itemIndex + 1;
      }
    }

    /** `operator==`: the same page id and the same slot. */
    predicate Equal(other: IndexIterator)
      reads this, other
      ensures Equal(other) <==> Pos() == other.Pos()
    {
      currentPageId == other.currentPageId && itemIndex == other.itemIndex
    }

    /** `operator!=`: the negation of `operator==`. */
    predicate NotEqual(other: IndexIterator)
      reads this, other
      ensures NotEqual(other) <==> Pos() != other.Pos()
    {
      !Equal(other)
    }
  }
}
