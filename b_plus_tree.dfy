/**
 * The B+ tree index.  Its pages live in the buffer pool and name each other by
 * page id; here they form an arena, a map from page id to the page's
 * contents, next to the tree's root page id and each page's parent page id.
 * Fresh page ids come from a counter that stands for the buffer pool's
 * `NewPage`, and deleting a page removes it from the arena.
 *
 * The algorithms change the arena step by step, as the engine changes pages
 * in place.  What every one of them keeps is the multiset of (key, row id)
 * pairs held by the leaves, `Items`: an insertion adds exactly its pair, a
 * removal takes out exactly the pair found, and splitting, merging,
 * borrowing and root changes move pairs without creating or losing any.
 *
 * The engine dereferences whatever page id it reads.  Where it would follow a
 * page id that names no index page, or treat a page as the other kind, the
 * model stops with the pages as they are.  Reads of slot 0 of a leaf that has
 * just been emptied are modelled: the slot still holds the key that last left
 * it (the removed key, or the key moved to a sibling), and that key is what
 * the engine copies into the parent.
 */
module BPlusTrees {
  import opened Common
  import opened LeafPages
  import opened InternalPages

  /** An index page: a leaf with its next-leaf link, or an internal page. */
  datatype Node =
    | Leaf(maxSize: int, next: PageId, items: seq<LeafEntry>)
    | Internal(maxSize: int, slots: seq<InternalEntry>)

  /** `GetSize`: the number of pairs on the page. */
  function Size(n: Node): nat
  {
    if n.Leaf? then |n.items| else |n.slots|
  }

  /** `GetMinSize`: half the page's own maximum, rounded down. */
  function MinSize(n: Node): int
  {
    n.maxSize / 2
  }

  /** The pairs a page holds as a leaf; an internal page holds none. */
  ghost function LeafItems(n: Node): multiset<LeafEntry>
  {
    if n.Leaf? then multiset(n.items) else multiset{}
  }

  /** The pairs held by page `id` of the arena, if there is one. */
  ghost function Held(nodes: map<PageId, Node>, id: PageId): multiset<LeafEntry>
  {
    if id in nodes then LeafItems(nodes[id]) else multiset{}
  }

  /** The pairs of every page of the arena, by page id. */
  ghost function HeldBy(nodes: map<PageId, Node>): PageId -> multiset<LeafEntry>
  {
    id => Held(nodes, id)
  }

  /** The union of `f(0)`, ..., `f(n - 1)`. */
  ghost function SumBelow(f: PageId -> multiset<LeafEntry>, n: nat): multiset<LeafEntry>
  {
    if n == 0 then multiset{} else SumBelow(f, n - 1) + f(n - 1)
  }

  /** Sums of terms that agree below `n` agree. */
  lemma {:induction false} SumSame(f: PageId -> multiset<LeafEntry>, g: PageId -> multiset<LeafEntry>, n: nat)
    requires forall id :: 0 <= id < n ==> f(id) == g(id)
    ensures SumBelow(f, n) == SumBelow(g, n)
  {
    if n > 0 {
      SumSame(f, g, n - 1);
    }
  }

  /** Filling in the one empty term `id` adds it to the sum. */
  lemma {:induction false} SumAdd(f: PageId -> multiset<LeafEntry>, g: PageId -> multiset<LeafEntry>, id: PageId, n: nat)
    requires 0 <= id < n && f(id) == multiset{}
    requires forall j :: 0 <= j < n && j != id ==> f(j) == g(j)
    ensures SumBelow(g, n) == SumBelow(f, n) + g(id)
  {
    if id < n - 1 {
      SumAdd(f, g, id, n - 1);
    } else {
      SumSame(f, g, n - 1);
    }
  }

  /** The terms of `f` with term `a` emptied. */
  ghost function Drop(f: PageId -> multiset<LeafEntry>, a: PageId): PageId -> multiset<LeafEntry>
  {
    j => if j == a then multiset{} else f(j)
  }

  /** The sum splits into terms `a` and `b` and the rest. */
  lemma SumTwo(f: PageId -> multiset<LeafEntry>, a: PageId, b: PageId, n: nat)
    requires 0 <= a < n && 0 <= b < n && a != b
    ensures SumBelow(f, n) == SumBelow(Drop(Drop(f, a), b), n) + (f(a) + f(b))
  {
    SumAdd(Drop(f, a), f, a, n);
    SumAdd(Drop(Drop(f, a), b), Drop(f, a), b, n);
    var rest := SumBelow(Drop(Drop(f, a), b), n);
    assert forall e :: SumBelow(f, n)[e] == rest[e] + (f(a) + f(b))[e];
  }

  /** Terms `a` and `b` traded for two with the same union leave the sum as it was. */
  lemma SumMove(f: PageId -> multiset<LeafEntry>, g: PageId -> multiset<LeafEntry>, a: PageId, b: PageId, n: nat)
    requires 0 <= a < n && 0 <= b < n && a != b
    requires forall j :: 0 <= j < n && j != a && j != b ==> f(j) == g(j)
    requires f(a) + f(b) == g(a) + g(b)
    ensures SumBelow(f, n) == SumBelow(g, n)
  {
    SumTwo(f, a, b, n);
    SumTwo(g, a, b, n);
    SumSame(Drop(Drop(f, a), b), Drop(Drop(g, a), b), n);
  }

  /** The pairs held by the leaves whose page ids are below `n`. */
  ghost function ItemsBelow(nodes: map<PageId, Node>, n: nat): multiset<LeafEntry>
  {
    SumBelow(HeldBy(nodes), n)
  }

  /** Storing page `x` under an unused `id` adds its pairs to the total. */
  lemma ItemsAdd(nodes: map<PageId, Node>, id: PageId, x: Node, n: nat)
    requires 0 <= id < n && id !in nodes
    ensures ItemsBelow(nodes[id := x], n) == ItemsBelow(nodes, n) + LeafItems(x)
  {
    SumAdd(HeldBy(nodes), HeldBy(nodes[id := x]), id, n);
  }

  /** Deleting page `id` takes its pairs out of the total. */
  lemma ItemsDelete(nodes: map<PageId, Node>, id: PageId, n: nat)
    requires 0 <= id < n && id in nodes
    ensures ItemsBelow(nodes - {id}, n) + LeafItems(nodes[id]) == ItemsBelow(nodes, n)
  {
    SumAdd(HeldBy(nodes - {id}), HeldBy(nodes), id, n);
  }

  /** Rewriting an internal page as an internal page keeps the pairs. */
  lemma ItemsInternal(nodes: map<PageId, Node>, id: PageId, x: Node, n: nat)
    requires id in nodes && nodes[id].Internal? && x.Internal?
    ensures ItemsBelow(nodes[id := x], n) == ItemsBelow(nodes, n)
  {
    SumSame(HeldBy(nodes[id := x]), HeldBy(nodes), n);
  }

  /** Storing page `x` under `id` in use: the pairs of the other pages, and those of `x`. */
  lemma ItemsPut(nodes: map<PageId, Node>, id: PageId, x: Node, n: nat)
    requires 0 <= id < n && id in nodes
    ensures ItemsBelow(nodes[id := x], n) == ItemsBelow(nodes - {id}, n) + LeafItems(x)
  {
    ItemsAdd(nodes - {id}, id, x, n);
    assert (nodes - {id})[id := x] == nodes[id := x];
  }

  /** Rewriting two pages so that they hold the same pairs between them keeps the total. */
  lemma ItemsMove(nodes: map<PageId, Node>, a: PageId, x: Node, b: PageId, y: Node, n: nat)
    requires 0 <= a < n && 0 <= b < n && a != b && a in nodes && b in nodes
    requires LeafItems(x) + LeafItems(y) == LeafItems(nodes[a]) + LeafItems(nodes[b])
    ensures ItemsBelow(nodes[a := x][b := y], n) == ItemsBelow(nodes, n)
  {
    SumMove(HeldBy(nodes[a := x][b := y]), HeldBy(nodes), a, b, n);
  }

  /** A pair on a leaf below `n` is among the pairs there. */
  lemma {:induction false} ItemsHold(nodes: map<PageId, Node>, id: PageId, e: LeafEntry, n: nat)
    requires 0 <= id < n && id in nodes && nodes[id].Leaf? && e in nodes[id].items
    ensures e in ItemsBelow(nodes, n)
  {
    if id < n - 1 {
      ItemsHold(nodes, id, e, n - 1);
    }
  }

  /**
   * The page `FindLeafPage` reaches from page `id`: at an internal page it
   * follows child 0 when `leftMost`, otherwise the child `Lookup` picks for
   * `key`.  None when it meets a page id outside the arena or an empty
   * internal page, or after `fuel` internal pages.
   */
  function FindLeaf(nodes: map<PageId, Node>, id: PageId, key: Key, leftMost: bool, fuel: nat): (r: Option<PageId>)
    ensures r.Some? ==> r.value in nodes && nodes[r.value].Leaf?
    decreases fuel
  {
    if id !in nodes then None
    else if nodes[id].Leaf? then Some(id)
    else if fuel == 0 || |nodes[id].slots| == 0 then None
    else
      var slots := nodes[id].slots;
      FindLeaf(nodes, if leftMost then slots[0].child else slots[RouteSlot(slots, key)].child, key, leftMost, fuel - 1)
  }

  /**
   * Rewriting one leaf as another leaf changes no descent: the internal
   * pages, which alone decide the way down, are the same.
   */
  lemma {:induction false} FindLeafAfterLeafUpdate(nodes: map<PageId, Node>, id: PageId, n: Node,
                                                   from: PageId, key: Key, leftMost: bool, fuel: nat)
    requires id in nodes && nodes[id].Leaf? && n.Leaf?
    ensures FindLeaf(nodes[id := n], from, key, leftMost, fuel) == FindLeaf(nodes, from, key, leftMost, fuel)
    decreases fuel
  {
    if from in nodes && nodes[from].Internal? && fuel > 0 && |nodes[from].slots| > 0 {
      var slots := nodes[from].slots;
      FindLeafAfterLeafUpdate(nodes, id, n, if leftMost then slots[0].child else slots[RouteSlot(slots, key)].child,
                              key, leftMost, fuel - 1);
    }
  }

  /** A page's pairs with the key of pair `i` replaced (`SetKeyAt`). */
  function SetKey(s: seq<InternalEntry>, i: nat, key: Key): (r: seq<InternalEntry>)
    requires i < |s|
    ensures |r| == |s| && r[i] == InternalEntry(key, s[i].child)
    ensures forall j :: 0 <= j < |s| && j != i ==> r[j] == s[j]
  {
    s[i := InternalEntry(key, s[i].child)]
  }

  /**
   * The root page id after `AdjustRoot` on root page `n`, or None when the
   * root stays: an empty root leaves the tree empty, and an internal root
   * with a single child hands the root over to that child.  A leaf root that
   * still holds pairs stays the root.
   */
  function AdjustedRoot(n: Node): (r: Option<PageId>)
    ensures r.Some? <==> Size(n) == 0 || (n.Internal? && Size(n) == 1)
    ensures r.Some? && n.Leaf? ==> r.value == INVALID_PAGE_ID
  {
    if Size(n) == 0 then Some(INVALID_PAGE_ID)
    else if n.Internal? && Size(n) == 1 then Some(n.slots[0].child)
    else None
  }

  /**
   * `AdjustRoot` as written: a root with one pair is taken for an internal
   * page whatever its kind, so a leaf root with one pair is replaced by the
   * page id `misread` that the engine reads out of the leaf's bytes where an
   * internal page keeps child 0.
   */
  function AdjustedRootAsWritten(n: Node, misread: PageId): (r: Option<PageId>)
    ensures r.Some? <==> Size(n) <= 1
    ensures n.Internal? ==> r == AdjustedRoot(n)
  {
    if Size(n) == 0 then Some(INVALID_PAGE_ID)
    else if Size(n) == 1 then Some(if n.Internal? then n.slots[0].child else misread)
    else None
  }

  /**
   * A one-leaf tree left with a single pair after a removal: as written, the
   * root moves to a page id read from the leaf's bytes; unless that happens
   * to be the leaf's own id, the search for the key no longer reaches any
   * leaf although the pair is still stored.  The corrected adjustment keeps
   * the leaf as root and the search finds the pair.
   */
  lemma LeafRootLostAsWritten(id: PageId, maxSize: int, key: Key, value: RowId, misread: PageId, n: nat)
    requires 0 <= id < n && misread != id
    ensures var e := LeafEntry(key, value);
      var nodes := map[id := Leaf(maxSize, INVALID_PAGE_ID, [e])];
      var r := AdjustedRootAsWritten(nodes[id], misread);
      e in ItemsBelow(nodes, n) && r == Some(misread) && FindLeaf(nodes, r.value, key, false, |nodes|).None? &&
      AdjustedRoot(nodes[id]).None? && FindLeaf(nodes, id, key, false, |nodes|) == Some(id) &&
      LeafLookup(nodes[id].items, key) == Some(value)
  {
    var e := LeafEntry(key, value);
    var nodes := map[id := Leaf(maxSize, INVALID_PAGE_ID, [e])];
    ItemsHold(nodes, id, e, n);
    assert KeyIndexOf(nodes[id].items, key) == 0;
  }

  /** Where an index iterator stands: a leaf page id and a slot on it. */
  datatype Position = Position(pageId: PageId, index: int)

  /**
   * The leaf `End` walks to from leaf `id` along the next links: the first
   * one without a next leaf.  None when the walk meets a page id that names
   * no leaf, or after `fuel` links.
   */
  function LastLeaf(nodes: map<PageId, Node>, id: PageId, fuel: nat): (r: Option<PageId>)
    ensures r.Some? ==> r.value in nodes && nodes[r.value].Leaf? && nodes[r.value].next == INVALID_PAGE_ID
    decreases fuel
  {
    if id !in nodes || nodes[id].Internal? then None
    else if nodes[id].next == INVALID_PAGE_ID then Some(id)
    else if fuel == 0 then None
    else LastLeaf(nodes, nodes[id].next, fuel - 1)
  }

  /** The leftmost descent does not look at the key. */
  lemma {:induction false} LeftMostIgnoresKey(nodes: map<PageId, Node>, id: PageId, k1: Key, k2: Key, fuel: nat)
    ensures FindLeaf(nodes, id, k1, true, fuel) == FindLeaf(nodes, id, k2, true, fuel)
    decreases fuel
  {
    if id in nodes && nodes[id].Internal? && fuel > 0 && |nodes[id].slots| > 0 {
      LeftMostIgnoresKey(nodes, nodes[id].slots[0].child, k1, k2, fuel - 1);
    }
  }

  /*
   * The shape of a search tree.  The engine checks none of this; it is the
   * arrangement its algorithms are built to keep, and under it the queries
   * mean what an index promises: a search finds exactly the stored keys, no
   * key is stored twice, and the leaves, read along their next links, hold
   * every pair once in key order.
   */

  /** Keys from `lo` (inclusive) up to `hi` (exclusive); None is no bound. */
  predicate InRange(lo: Option<Key>, hi: Option<Key>, k: Key)
  {
    (lo.None? || lo.value <= k) && (hi.None? || k < hi.value)
  }

  /** A separator inside the bounds of its page, `hi` included. */
  predicate Between(lo: Option<Key>, hi: Option<Key>, k: Key)
  {
    (lo.None? || lo.value <= k) && (hi.None? || k <= hi.value)
  }

  /** The least key slot `i` routes to its child: separator `i`, or the page's own bound for slot 0. */
  function LowOf(s: seq<InternalEntry>, lo: Option<Key>, i: nat): Option<Key>
    requires i < |s|
  {
    if i == 0 then lo else Some(s[i].key)
  }

  /** The bound below which slot `i` routes keys: separator `i + 1`, or the page's own for the last slot. */
  function HighOf(s: seq<InternalEntry>, hi: Option<Key>, i: nat): Option<Key>
    requires i < |s|
  {
    if i + 1 < |s| then Some(s[i + 1].key) else hi
  }

  /** Every key of `p` is in range. */
  predicate KeysIn(p: seq<LeafEntry>, lo: Option<Key>, hi: Option<Key>)
  {
    forall j :: 0 <= j < |p| ==> InRange(lo, hi, p[j].key)
  }

  /**
   * Page `id` roots a subtree of height `h` over the keys from `lo` up to
   * `hi`: a leaf holds at least one pair, in strictly increasing key order,
   * every key in range; an internal page has children whose slots do.
   */
  ghost predicate Shaped(nodes: map<PageId, Node>, id: PageId, lo: Option<Key>, hi: Option<Key>, h: nat)
    decreases h, 0
  {
    id in nodes &&
    match nodes[id]
    case Leaf(_, _, items) =>
      h == 0 && |items| > 0 && StrictlySorted(items) && forall e :: e in items ==> InRange(lo, hi, e.key)
    case Internal(_, slots) =>
      h > 0 && SlotsShaped(nodes, slots, lo, hi, h - 1)
  }

  /**
   * The slots of an internal page over the keys from `lo` up to `hi`: at
   * least one, separators in order and inside the bounds, and child `i`
   * rooting a subtree of height `h` over the keys slot `i` routes to it.
   */
  ghost predicate SlotsShaped(nodes: map<PageId, Node>, s: seq<InternalEntry>, lo: Option<Key>, hi: Option<Key>, h: nat)
    decreases h, 1
  {
    |s| > 0 && SeparatorsSorted(s) &&
    (forall i :: 1 <= i < |s| ==> Between(lo, hi, s[i].key)) &&
    forall i :: 0 <= i < |s| ==> Shaped(nodes, s[i].child, LowOf(s, lo, i), HighOf(s, hi, i), h)
  }

  /** The leaves of the subtree of height `h` at page `id`, left to right. */
  ghost function Leaves(nodes: map<PageId, Node>, id: PageId, h: nat): seq<PageId>
    decreases h, 0
  {
    if h == 0 || id !in nodes || nodes[id].Leaf? then [id] else LeavesFrom(nodes, nodes[id].slots, 0, h - 1)
  }

  /** The leaves below slots `i` onwards, left to right. */
  ghost function LeavesFrom(nodes: map<PageId, Node>, s: seq<InternalEntry>, i: nat, h: nat): seq<PageId>
    requires i <= |s|
    decreases h, 1, |s| - i
  {
    if i == |s| then [] else Leaves(nodes, s[i].child, h) + LeavesFrom(nodes, s, i + 1, h)
  }

  /** The pairs on page `id` if it is a leaf. */
  function LeafSeq(nodes: map<PageId, Node>, id: PageId): seq<LeafEntry>
  {
    if id in nodes && nodes[id].Leaf? then nodes[id].items else []
  }

  /** The pairs of the leaves `ids`, one leaf after the other. */
  function Pairs(nodes: map<PageId, Node>, ids: seq<PageId>): seq<LeafEntry>
  {
    if ids == [] then [] else LeafSeq(nodes, ids[0]) + Pairs(nodes, ids[1..])
  }

  /** The next links run through the leaves `ids` in order and end after the last. */
  ghost predicate Linked(nodes: map<PageId, Node>, ids: seq<PageId>)
  {
    |ids| > 0 && ids[0] != INVALID_PAGE_ID && ids[0] in nodes && nodes[ids[0]].Leaf? &&
    if |ids| == 1 then nodes[ids[0]].next == INVALID_PAGE_ID
    else nodes[ids[0]].next == ids[1] && Linked(nodes, ids[1..])
  }

  /**
   * The arena is a search tree of height `h` under `root`: an empty tree
   * holds no pairs; otherwise the root's subtree is shaped, its leaves are
   * linked left to right, and every leaf that holds pairs is one of them.
   */
  ghost predicate Shape(nodes: map<PageId, Node>, root: PageId, n: nat, h: nat)
  {
    (forall id :: id in nodes ==> 0 <= id < n) &&
    if root == INVALID_PAGE_ID then
      forall id :: id in nodes && nodes[id].Leaf? ==> nodes[id].items == []
    else
      Shaped(nodes, root, None, None, h) && Linked(nodes, Leaves(nodes, root, h)) &&
      forall id :: id in nodes && nodes[id].Leaf? && nodes[id].items != [] ==> id in Leaves(nodes, root, h)
  }

  lemma {:induction false} PairsAppend(nodes: map<PageId, Node>, a: seq<PageId>, b: seq<PageId>)
    ensures Pairs(nodes, a + b) == Pairs(nodes, a) + Pairs(nodes, b)
    decreases |a|
  {
    if a == [] {
      assert a + b == b;
    } else {
      assert (a + b)[1..] == a[1..] + b;
      PairsAppend(nodes, a[1..], b);
    }
  }

  /** Where pair `j` of `Pairs` comes from: slot `k` of leaf `ids[i]`. */
  lemma {:induction false} PairsWhere(nodes: map<PageId, Node>, ids: seq<PageId>, j: nat) returns (i: nat, k: nat)
    requires j < |Pairs(nodes, ids)|
    ensures i < |ids| && k < |LeafSeq(nodes, ids[i])| && Pairs(nodes, ids)[j] == LeafSeq(nodes, ids[i])[k]
    decreases |ids|
  {
    if j < |LeafSeq(nodes, ids[0])| {
      i, k := 0, j;
    } else {
      var i', k' := PairsWhere(nodes, ids[1..], j - |LeafSeq(nodes, ids[0])|);
      i, k := i' + 1, k';
    }
  }

  /** Slot `k` of leaf `ids[i]` is among `Pairs`, at position `j`. */
  lemma {:induction false} PairsHold(nodes: map<PageId, Node>, ids: seq<PageId>, i: nat, k: nat) returns (j: nat)
    requires i < |ids| && k < |LeafSeq(nodes, ids[i])|
    ensures j < |Pairs(nodes, ids)| && Pairs(nodes, ids)[j] == LeafSeq(nodes, ids[i])[k]
    decreases i
  {
    if i == 0 {
      j := k;
    } else {
      var j' := PairsHold(nodes, ids[1..], i - 1, k);
      j := |LeafSeq(nodes, ids[0])| + j';
    }
  }

  /** Two strictly sorted runs, the first below `m` and the second from `m` on, make one. */
  lemma SortedJoin(a: seq<LeafEntry>, b: seq<LeafEntry>, m: Key)
    requires StrictlySorted(a) && StrictlySorted(b)
    requires forall j :: 0 <= j < |a| ==> a[j].key < m
    requires forall j :: 0 <= j < |b| ==> m <= b[j].key
    ensures StrictlySorted(a + b)
  {
    forall x, y | 0 <= x < y < |a + b|
      ensures (a + b)[x].key < (a + b)[y].key
    {
      if y < |a| {
        assert (a + b)[x] == a[x] && (a + b)[y] == a[y];
      } else if x < |a| {
        assert (a + b)[x] == a[x] && (a + b)[y] == b[y - |a|];
      } else {
        assert (a + b)[x] == b[x - |a|] && (a + b)[y] == b[y - |a|];
      }
    }
  }

  /** In a strictly sorted concatenation every key of the front is below every key of the back. */
  lemma SortedSplit(a: seq<LeafEntry>, b: seq<LeafEntry>, x: nat, y: nat)
    requires StrictlySorted(a + b) && x < |a| && y < |b|
    ensures a[x].key < b[y].key
  {
    assert (a + b)[x] == a[x] && (a + b)[|a| + y] == b[y];
  }

  /**
   * The leaves of a shaped subtree hold pairs, strictly sorted and within
   * the subtree's bounds, read left to right.
   */
  lemma {:induction false} ShapedOrdered(nodes: map<PageId, Node>, id: PageId, lo: Option<Key>, hi: Option<Key>, h: nat)
    requires Shaped(nodes, id, lo, hi, h)
    ensures var p := Pairs(nodes, Leaves(nodes, id, h)); |p| > 0 && StrictlySorted(p) && KeysIn(p, lo, hi)
    ensures forall L :: L in Leaves(nodes, id, h) ==>
      L in nodes && nodes[L].Leaf? && nodes[L].items != [] && StrictlySorted(nodes[L].items)
    decreases h, 0
  {
    if h == 0 {
      assert Leaves(nodes, id, h) == [id];
      assert Pairs(nodes, [id]) == nodes[id].items + Pairs(nodes, []);
      forall j | 0 <= j < |nodes[id].items|
        ensures InRange(lo, hi, nodes[id].items[j].key)
      {
        assert nodes[id].items[j] in nodes[id].items;
      }
    } else {
      SlotsOrdered(nodes, nodes[id].slots, lo, hi, 0, h - 1);
    }
  }

  /** The leaves below slots `i` onwards hold pairs, strictly sorted and from slot `i`'s bound on. */
  lemma {:induction false} SlotsOrdered(nodes: map<PageId, Node>, s: seq<InternalEntry>, lo: Option<Key>, hi: Option<Key>, i: nat, h: nat)
    requires SlotsShaped(nodes, s, lo, hi, h) && i < |s|
    ensures var p := Pairs(nodes, LeavesFrom(nodes, s, i, h)); |p| > 0 && StrictlySorted(p) && KeysIn(p, LowOf(s, lo, i), hi)
    ensures forall L :: L in LeavesFrom(nodes, s, i, h) ==>
      L in nodes && nodes[L].Leaf? && nodes[L].items != [] && StrictlySorted(nodes[L].items)
    decreases h, 1, |s| - i
  {
    var c := s[i].child;
    var left := Leaves(nodes, c, h);
    var right := LeavesFrom(nodes, s, i + 1, h);
    ShapedOrdered(nodes, c, LowOf(s, lo, i), HighOf(s, hi, i), h);
    PairsAppend(nodes, left, right);
    if i + 1 < |s| {
      SlotsOrdered(nodes, s, lo, hi, i + 1, h);
      assert Between(lo, hi, s[i + 1].key);
      assert i > 0 ==> s[i].key <= s[i + 1].key;
      JoinRuns(Pairs(nodes, left), Pairs(nodes, right), LowOf(s, lo, i), s[i + 1].key, hi);
    } else {
      assert right == [];
      assert Pairs(nodes, left) + Pairs(nodes, right) == Pairs(nodes, left);
    }
  }

  /** Two strictly sorted runs of keys, below and from `mid`, join into one run within the outer bounds. */
  lemma JoinRuns(a: seq<LeafEntry>, b: seq<LeafEntry>, lo: Option<Key>, mid: Key, hi: Option<Key>)
    requires StrictlySorted(a) && StrictlySorted(b) && Between(lo, hi, mid)
    requires KeysIn(a, lo, Some(mid)) && KeysIn(b, Some(mid), hi)
    ensures StrictlySorted(a + b) && KeysIn(a + b, lo, hi)
  {
    SortedJoin(a, b, mid);
    forall j | 0 <= j < |a + b|
      ensures InRange(lo, hi, (a + b)[j].key)
    {
      if j >= |a| {
        assert (a + b)[j] == b[j - |a|];
      }
    }
  }

  /** A leaf with pairs appears once among leaves whose pairs are strictly sorted. */
  lemma LeavesDistinct(nodes: map<PageId, Node>, ids: seq<PageId>)
    requires StrictlySorted(Pairs(nodes, ids))
    requires forall i :: 0 <= i < |ids| ==> LeafSeq(nodes, ids[i]) != []
    ensures forall i, j :: 0 <= i < j < |ids| ==> ids[i] != ids[j]
  {
    forall i, j | 0 <= i < j < |ids|
      ensures ids[i] != ids[j]
    {
      if ids[i] == ids[j] {
        assert ids == ids[..j] + ids[j..];
        PairsAppend(nodes, ids[..j], ids[j..]);
        assert ids[..j][i] == ids[i] && ids[j..][0] == ids[j];
        var x := PairsHold(nodes, ids[..j], i, 0);
        var y := PairsHold(nodes, ids[j..], 0, 0);
        SortedSplit(Pairs(nodes, ids[..j]), Pairs(nodes, ids[j..]), x, y);
      }
    }
  }

  /** With the separators in order, a key in slot `i`'s range is routed to slot `i`. */
  lemma RouteTo(s: seq<InternalEntry>, lo: Option<Key>, hi: Option<Key>, i: nat, k: Key)
    requires SeparatorsSorted(s) && i < |s| && InRange(LowOf(s, lo, i), HighOf(s, hi, i), k)
    ensures RouteSlot(s, k) == i
  {
    RouteSlotIsChildSlot(s, k);
    forall j | 1 <= j <= i
      ensures s[j].key <= k
    {
      assert s[j].key <= s[i].key;
    }
    ChildSlotUnique(s, k, i);
  }

  /** A leaf below slots `i` onwards is below one of them. */
  lemma {:induction false} InLeavesFrom(nodes: map<PageId, Node>, s: seq<InternalEntry>, i: nat, h: nat, L: PageId) returns (j: nat)
    requires i <= |s| && L in LeavesFrom(nodes, s, i, h)
    ensures i <= j < |s| && L in Leaves(nodes, s[j].child, h)
    decreases |s| - i
  {
    if L in Leaves(nodes, s[i].child, h) {
      j := i;
    } else {
      j := InLeavesFrom(nodes, s, i + 1, h, L);
    }
  }

  /** In a shaped subtree, the search for a key held by one of its leaves reaches that leaf. */
  lemma {:induction false} Finds(nodes: map<PageId, Node>, id: PageId, lo: Option<Key>, hi: Option<Key>, h: nat,
                                 L: PageId, e: LeafEntry, fuel: nat)
    requires Shaped(nodes, id, lo, hi, h) && L in Leaves(nodes, id, h) && e in LeafSeq(nodes, L) && fuel >= h
    ensures FindLeaf(nodes, id, e.key, false, fuel) == Some(L)
    decreases h
  {
    if h == 0 {
      assert Leaves(nodes, id, h) == [id];
    } else {
      var s := nodes[id].slots;
      var i := InLeavesFrom(nodes, s, 0, h - 1, L);
      var c := s[i].child;
      LeafKeysInRange(nodes, c, LowOf(s, lo, i), HighOf(s, hi, i), h - 1, L, e);
      RouteTo(s, lo, hi, i, e.key);
      assert FindLeaf(nodes, id, e.key, false, fuel) == FindLeaf(nodes, c, e.key, false, fuel - 1);
      Finds(nodes, c, LowOf(s, lo, i), HighOf(s, hi, i), h - 1, L, e, fuel - 1);
    }
  }

  /** A key held by a leaf of a shaped subtree is within the subtree's bounds. */
  lemma LeafKeysInRange(nodes: map<PageId, Node>, id: PageId, lo: Option<Key>, hi: Option<Key>, h: nat,
                        L: PageId, e: LeafEntry)
    requires Shaped(nodes, id, lo, hi, h) && L in Leaves(nodes, id, h) && e in LeafSeq(nodes, L)
    ensures InRange(lo, hi, e.key)
  {
    ShapedOrdered(nodes, id, lo, hi, h);
    var ids := Leaves(nodes, id, h);
    var m :| 0 <= m < |ids| && ids[m] == L;
    var k :| 0 <= k < |LeafSeq(nodes, L)| && LeafSeq(nodes, L)[k] == e;
    var j := PairsHold(nodes, ids, m, k);
  }

  /** In a shaped subtree, the leftmost descent reaches its first leaf. */
  lemma {:induction false} LeftmostFinds(nodes: map<PageId, Node>, id: PageId, lo: Option<Key>, hi: Option<Key>, h: nat,
                                         key: Key, fuel: nat)
    requires Shaped(nodes, id, lo, hi, h) && fuel >= h
    ensures |Leaves(nodes, id, h)| > 0 && FindLeaf(nodes, id, key, true, fuel) == Some(Leaves(nodes, id, h)[0])
    decreases h
  {
    if h == 0 {
      assert Leaves(nodes, id, h) == [id];
    } else {
      var s := nodes[id].slots;
      LeftmostFinds(nodes, s[0].child, LowOf(s, lo, 0), HighOf(s, hi, 0), h - 1, key, fuel - 1);
      assert Leaves(nodes, id, h) == Leaves(nodes, s[0].child, h - 1) + LeavesFrom(nodes, s, 1, h - 1);
    }
  }

  /** A page roots shaped subtrees of one height only. */
  lemma {:induction false} ShapedHeight(nodes: map<PageId, Node>, id: PageId, lo: Option<Key>, hi: Option<Key>, h: nat,
                                        lo': Option<Key>, hi': Option<Key>, h': nat)
    requires Shaped(nodes, id, lo, hi, h) && Shaped(nodes, id, lo', hi', h')
    ensures h == h'
    decreases h
  {
    if h > 0 {
      var s := nodes[id].slots;
      ShapedHeight(nodes, s[0].child, LowOf(s, lo, 0), HighOf(s, hi, 0), h - 1, LowOf(s, lo', 0), HighOf(s, hi', 0), h' - 1);
    }
  }

  /** The pages of the leftmost descent from `id`, at most `h` steps down. */
  ghost function Spine(nodes: map<PageId, Node>, id: PageId, h: nat): seq<PageId>
    decreases h
  {
    if h == 0 || id !in nodes || nodes[id].Leaf? || |nodes[id].slots| == 0 then [id]
    else [id] + Spine(nodes, nodes[id].slots[0].child, h - 1)
  }

  /** The leftmost descent of a shaped subtree passes one page of every height. */
  lemma {:induction false} SpineShaped(nodes: map<PageId, Node>, id: PageId, lo: Option<Key>, hi: Option<Key>, h: nat, j: nat)
    returns (lo': Option<Key>, hi': Option<Key>)
    requires Shaped(nodes, id, lo, hi, h) && j <= h
    ensures |Spine(nodes, id, h)| == h + 1 && Shaped(nodes, Spine(nodes, id, h)[j], lo', hi', h - j)
    decreases h
  {
    lo', hi' := lo, hi;
    if h > 0 {
      var s := nodes[id].slots;
      if j == 0 {
        var _, _ := SpineShaped(nodes, s[0].child, LowOf(s, lo, 0), HighOf(s, hi, 0), h - 1, 0);
      } else {
        lo', hi' := SpineShaped(nodes, s[0].child, LowOf(s, lo, 0), HighOf(s, hi, 0), h - 1, j - 1);
      }
    }
  }

  /** A sequence without repeats has as many distinct elements as entries. */
  lemma DistinctCard<T>(s: seq<T>)
    requires forall i, j :: 0 <= i < j < |s| ==> s[i] != s[j]
    ensures |set x | x in s| == |s|
  {
    if s != [] {
      DistinctCard(s[1..]);
      assert (set x | x in s) == {s[0]} + (set x | x in s[1..]);
      assert s[0] !in s[1..];
    }
  }

  /** Distinct page ids of the arena are no more than its pages. */
  lemma FewerThanNodes(nodes: map<PageId, Node>, s: seq<PageId>)
    requires forall i, j :: 0 <= i < j < |s| ==> s[i] != s[j]
    requires forall i :: 0 <= i < |s| ==> s[i] in nodes
    ensures |s| <= |nodes|
  {
    DistinctCard(s);
    SubsetCard((set x | x in s), nodes.Keys);
  }

  lemma {:induction false} SubsetCard<T>(a: set<T>, b: set<T>)
    requires a <= b
    ensures |a| <= |b|
    decreases |a|
  {
    if a != {} {
      var x :| x in a;
      SubsetCard(a - {x}, b - {x});
    }
  }

  /**
   * A shaped subtree of height `h` has more than `h` pages, so a descent
   * with one step per page of the arena reaches its leaves.
   */
  lemma HeightBelowSize(nodes: map<PageId, Node>, id: PageId, lo: Option<Key>, hi: Option<Key>, h: nat)
    requires Shaped(nodes, id, lo, hi, h)
    ensures h < |nodes|
  {
    var sp := Spine(nodes, id, h);
    var _, _ := SpineShaped(nodes, id, lo, hi, h, 0);
    forall a | 0 <= a < |sp|
      ensures sp[a] in nodes
    {
      var _, _ := SpineShaped(nodes, id, lo, hi, h, a);
    }
    forall a, b | 0 <= a < b < |sp|
      ensures sp[a] != sp[b]
    {
      var la, ha := SpineShaped(nodes, id, lo, hi, h, a);
      var lb, hb := SpineShaped(nodes, id, lo, hi, h, b);
      if sp[a] == sp[b] {
        ShapedHeight(nodes, sp[a], la, ha, h - a, lb, hb, h - b);
      }
    }
    FewerThanNodes(nodes, sp);
  }

  /** The union of `f(id)` over the entries of `ids`. */
  ghost function SumIds(f: PageId -> multiset<LeafEntry>, ids: seq<PageId>): multiset<LeafEntry>
  {
    if ids == [] then multiset{} else f(ids[0]) + SumIds(f, ids[1..])
  }

  lemma {:induction false} SumIdsAppend(f: PageId -> multiset<LeafEntry>, a: seq<PageId>, b: seq<PageId>)
    ensures SumIds(f, a + b) == SumIds(f, a) + SumIds(f, b)
    decreases |a|
  {
    if a == [] {
      assert a + b == b;
    } else {
      assert (a + b)[1..] == a[1..] + b;
      SumIdsAppend(f, a[1..], b);
    }
  }

  /** The pairs of leaves `ids`, as a multiset, are the union of what each holds. */
  lemma {:induction false} PairsSum(nodes: map<PageId, Node>, ids: seq<PageId>)
    ensures multiset(Pairs(nodes, ids)) == SumIds(HeldBy(nodes), ids)
    decreases |ids|
  {
    if ids != [] {
      PairsSum(nodes, ids[1..]);
    }
  }

  /**
   * Summing over distinct page ids below `n` that include every page with
   * pairs gives the sum over all page ids below `n`.
   */
  lemma {:induction false} SumIdsBelow(f: PageId -> multiset<LeafEntry>, ids: seq<PageId>, n: nat)
    requires forall i, j :: 0 <= i < j < |ids| ==> ids[i] != ids[j]
    requires forall i :: 0 <= i < |ids| ==> 0 <= ids[i] < n
    requires forall id :: 0 <= id < n && f(id) != multiset{} ==> id in ids
    ensures SumIds(f, ids) == SumBelow(f, n)
    decreases n, 1
  {
    if n == 0 {
      NoneBelowZero(ids);
    } else if n - 1 in ids {
      var p :| 0 <= p < |ids| && ids[p] == n - 1;
      SumIdsBelowTop(f, ids, n, p);
    } else {
      assert f(n - 1) == multiset{};
      SumIdsBelow(f, ids, n - 1);
    }
  }

  /** `SumIdsBelow` when `ids[p]` is the top id `n - 1`. */
  lemma {:induction false} SumIdsBelowTop(f: PageId -> multiset<LeafEntry>, ids: seq<PageId>, n: nat, p: nat)
    requires p < |ids| && ids[p] == n - 1
    requires forall i, j :: 0 <= i < j < |ids| ==> ids[i] != ids[j]
    requires forall i :: 0 <= i < |ids| ==> 0 <= ids[i] < n
    requires forall id :: 0 <= id < n && f(id) != multiset{} ==> id in ids
    ensures SumIds(f, ids) == SumBelow(f, n)
    decreases n, 0
  {
    var rest := ids[..p] + ids[p + 1..];
    SumIdsDrop(f, ids, p);
    DropBelow(ids, p, n);
    forall id | 0 <= id < n - 1 && f(id) != multiset{}
      ensures id in rest
    {
      assert id in ids;
    }
    SumIdsBelow(f, rest, n - 1);
  }

  /** No page id lies below 0. */
  lemma NoneBelowZero(ids: seq<PageId>)
    ensures (forall i :: 0 <= i < |ids| ==> 0 <= ids[i] < 0) ==> ids == []
  {
    if |ids| > 0 {
      assert !(0 <= ids[0] < 0);
    }
  }

  /** Dropping the largest id `n - 1` from distinct ids below `n` leaves distinct ids below `n - 1`. */
  lemma DropBelow(ids: seq<PageId>, p: nat, n: nat)
    requires p < |ids| && ids[p] == n - 1
    requires forall i, j :: 0 <= i < j < |ids| ==> ids[i] != ids[j]
    requires forall i :: 0 <= i < |ids| ==> 0 <= ids[i] < n
    ensures var rest := ids[..p] + ids[p + 1..];
      (forall i, j :: 0 <= i < j < |rest| ==> rest[i] != rest[j]) &&
      (forall i :: 0 <= i < |rest| ==> 0 <= rest[i] < n - 1) &&
      forall x :: x in ids && x != n - 1 ==> x in rest
  {
    DropKeepsOthers(ids, p);
    var rest := ids[..p] + ids[p + 1..];
    forall i | 0 <= i < |rest|
      ensures 0 <= rest[i] < n - 1
    {
      var q :| 0 <= q < |ids| && ids[q] == rest[i];
    }
  }

  /** Dropping entry `p` takes its term out of the sum. */
  lemma SumIdsDrop(f: PageId -> multiset<LeafEntry>, ids: seq<PageId>, p: nat)
    requires p < |ids|
    ensures SumIds(f, ids) == SumIds(f, ids[..p] + ids[p + 1..]) + f(ids[p])
  {
    assert ids == ids[..p] + [ids[p]] + ids[p + 1..];
    SumIdsAppend(f, ids[..p] + [ids[p]], ids[p + 1..]);
    SumIdsAppend(f, ids[..p], [ids[p]]);
    SumIdsAppend(f, ids[..p], ids[p + 1..]);
    assert SumIds(f, [ids[p]]) == f(ids[p]) + SumIds(f, []);
  }

  /** Dropping entry `p` of a sequence without repeats keeps every other entry, once. */
  lemma DropKeepsOthers(ids: seq<PageId>, p: nat)
    requires p < |ids| && forall i, j :: 0 <= i < j < |ids| ==> ids[i] != ids[j]
    ensures var rest := ids[..p] + ids[p + 1..];
      (forall i, j :: 0 <= i < j < |rest| ==> rest[i] != rest[j]) &&
      (forall i :: 0 <= i < |rest| ==> rest[i] in ids && rest[i] != ids[p]) &&
      forall x :: x in ids && x != ids[p] ==> x in rest
  {
    var rest := ids[..p] + ids[p + 1..];
    forall i | 0 <= i < |rest|
      ensures rest[i] == ids[if i < p then i else i + 1]
    {
    }
    forall x | x in ids && x != ids[p]
      ensures x in rest
    {
      var q :| 0 <= q < |ids| && ids[q] == x;
      if q < p {
        assert rest[q] == x;
      } else {
        assert rest[q - 1] == x;
      }
    }
  }

  /** No page holds pairs: the tree holds none. */
  lemma NoItems(nodes: map<PageId, Node>, n: nat)
    requires forall id :: id in nodes && nodes[id].Leaf? ==> nodes[id].items == []
    ensures ItemsBelow(nodes, n) == multiset{}
  {
    SumIdsBelow(HeldBy(nodes), [], n);
  }

  /**
   * The leaves of a tree in shape, read left to right, hold the tree's pairs
   * in strictly increasing key order, each leaf once.
   */
  lemma LeavesHoldItems(nodes: map<PageId, Node>, root: PageId, n: nat, h: nat)
    requires Shape(nodes, root, n, h) && root != INVALID_PAGE_ID
    ensures var ids := Leaves(nodes, root, h); var p := Pairs(nodes, ids);
      |p| > 0 && StrictlySorted(p) && multiset(p) == ItemsBelow(nodes, n) &&
      (forall i, j :: 0 <= i < j < |ids| ==> ids[i] != ids[j]) &&
      forall i :: 0 <= i < |ids| ==> LeafSeq(nodes, ids[i]) != [] && StrictlySorted(LeafSeq(nodes, ids[i]))
  {
    var ids := Leaves(nodes, root, h);
    ShapedOrdered(nodes, root, None, None, h);
    assert forall i :: 0 <= i < |ids| ==> ids[i] in ids;
    LeavesDistinct(nodes, ids);
    PairsSum(nodes, ids);
    SumIdsBelow(HeldBy(nodes), ids, n);
  }

  /** A strictly sorted sequence holds each pair at most once. */
  lemma {:induction false} SortedOnce(p: seq<LeafEntry>, e: LeafEntry)
    requires StrictlySorted(p)
    ensures multiset(p)[e] <= 1
    decreases |p|
  {
    if p != [] {
      assert p == [p[0]] + p[1..];
      assert p[0] !in p[1..];
      SortedOnce(p[1..], e);
    }
  }

  /**
   * In a tree in shape the search finds a key exactly when the tree holds a
   * pair with that key.
   */
  lemma SearchFindsStored(nodes: map<PageId, Node>, root: PageId, n: nat, h: nat, key: Key)
    requires Shape(nodes, root, n, h)
    ensures var leaf := FindLeaf(nodes, root, key, false, |nodes|);
      (leaf.Some? && LeafLookup(nodes[leaf.value].items, key).Some?) <==> exists r :: LeafEntry(key, r) in ItemsBelow(nodes, n)
  {
    var leaf := FindLeaf(nodes, root, key, false, |nodes|);
    if leaf.Some? && LeafLookup(nodes[leaf.value].items, key).Some? {
      LookupSound(nodes[leaf.value].items, key);
      ItemsHold(nodes, leaf.value, LeafEntry(key, LeafLookup(nodes[leaf.value].items, key).value), n);
    }
    if r :| LeafEntry(key, r) in ItemsBelow(nodes, n) {
      StoredIsFound(nodes, root, n, h, LeafEntry(key, r));
    }
  }

  /** In a tree in shape, the search for the key of a stored pair reaches a leaf holding the key. */
  lemma StoredIsFound(nodes: map<PageId, Node>, root: PageId, n: nat, h: nat, e: LeafEntry)
    requires Shape(nodes, root, n, h) && e in ItemsBelow(nodes, n)
    ensures var leaf := FindLeaf(nodes, root, e.key, false, |nodes|);
      leaf.Some? && LeafLookup(nodes[leaf.value].items, e.key).Some?
  {
    if root == INVALID_PAGE_ID {
      NoItems(nodes, n);
    } else {
      LeavesHoldItems(nodes, root, n, h);
      var ids := Leaves(nodes, root, h);
      var p := Pairs(nodes, ids);
      assert e in multiset(p);
      var j :| 0 <= j < |p| && p[j] == e;
      var i, k := PairsWhere(nodes, ids, j);
      HeightBelowSize(nodes, root, None, None, h);
      Finds(nodes, root, None, None, h, ids[i], e, |nodes|);
      var items := nodes[ids[i]].items;
      assert items[k] == e;
      LookupComplete(items, e.key);
    }
  }

  /** Two pairs under one key, or one pair twice, rule out every shape. */
  lemma DuplicateKeyBreaksShape(nodes: map<PageId, Node>, root: PageId, n: nat, h: nat, e1: LeafEntry, e2: LeafEntry)
    requires e1.key == e2.key && multiset{e1, e2} <= ItemsBelow(nodes, n)
    ensures !Shape(nodes, root, n, h)
  {
    if Shape(nodes, root, n, h) {
      KeysUnique(nodes, root, n, h, e1, e2);
    }
  }

  /** A tree in shape holds each of its pairs once, and no two pairs with one key. */
  lemma KeysUnique(nodes: map<PageId, Node>, root: PageId, n: nat, h: nat, e1: LeafEntry, e2: LeafEntry)
    requires Shape(nodes, root, n, h)
    requires e1 in ItemsBelow(nodes, n) && e2 in ItemsBelow(nodes, n) && e1.key == e2.key
    ensures e1 == e2 && ItemsBelow(nodes, n)[e1] == 1
  {
    if root == INVALID_PAGE_ID {
      NoItems(nodes, n);
    } else {
      LeavesHoldItems(nodes, root, n, h);
      var p := Pairs(nodes, Leaves(nodes, root, h));
      assert e1 in multiset(p) && e2 in multiset(p);
      var a :| 0 <= a < |p| && p[a] == e1;
      var b :| 0 <= b < |p| && p[b] == e2;
      assert a == b;
      SortedOnce(p, e1);
    }
  }

  /**
   * Taking the pair under `key` out of a tree in shape leaves no pair with
   * that key, so a search for it then finds nothing.
   */
  lemma RemovedKeyGone(nodes: map<PageId, Node>, root: PageId, n: nat, h: nat, key: Key, value: RowId,
                       after: multiset<LeafEntry>)
    requires Shape(nodes, root, n, h)
    requires after + multiset{LeafEntry(key, value)} == ItemsBelow(nodes, n)
    ensures forall r :: LeafEntry(key, r) !in after
  {
    forall r
      ensures LeafEntry(key, r) !in after
    {
      if LeafEntry(key, r) in after {
        KeysUnique(nodes, root, n, h, LeafEntry(key, r), LeafEntry(key, value));
      }
    }
  }

  /** The leaves below slot `j` are among the leaves below slots `i` onwards, for `i <= j`. */
  lemma {:induction false} LeavesFromHas(nodes: map<PageId, Node>, s: seq<InternalEntry>, i: nat, j: nat, h: nat)
    requires i <= j < |s|
    ensures forall L :: L in Leaves(nodes, s[j].child, h) ==> L in LeavesFrom(nodes, s, i, h)
    decreases j - i
  {
    if i < j {
      LeavesFromHas(nodes, s, i + 1, j, h);
    }
  }

  /** In a shaped subtree every search reaches one of its leaves. */
  lemma {:induction false} SearchReaches(nodes: map<PageId, Node>, id: PageId, lo: Option<Key>, hi: Option<Key>, h: nat,
                                         key: Key, fuel: nat)
    requires Shaped(nodes, id, lo, hi, h) && fuel >= h
    ensures FindLeaf(nodes, id, key, false, fuel).Some?
    ensures FindLeaf(nodes, id, key, false, fuel).value in Leaves(nodes, id, h)
    decreases h
  {
    if h == 0 {
      assert Leaves(nodes, id, h) == [id];
    } else {
      var s := nodes[id].slots;
      var i := RouteSlot(s, key);
      assert FindLeaf(nodes, id, key, false, fuel) == FindLeaf(nodes, s[i].child, key, false, fuel - 1);
      assert Leaves(nodes, id, h) == LeavesFrom(nodes, s, 0, h - 1);
      SearchReaches(nodes, s[i].child, LowOf(s, lo, i), HighOf(s, hi, i), h - 1, key, fuel - 1);
      LeavesFromHas(nodes, s, 0, i, h - 1);
      var L := FindLeaf(nodes, s[i].child, key, false, fuel - 1).value;
      assert L in Leaves(nodes, s[i].child, h - 1);
      assert L in LeavesFrom(nodes, s, 0, h - 1);
    }
  }

  /** The key ranges of two different slots of a page with sorted separators do not meet. */
  lemma SlotRangesDisjoint(s: seq<InternalEntry>, lo: Option<Key>, hi: Option<Key>, i: nat, j: nat, k: Key)
    requires SeparatorsSorted(s) && i < |s| && j < |s| && i != j
    ensures !(InRange(LowOf(s, lo, i), HighOf(s, hi, i), k) && InRange(LowOf(s, lo, j), HighOf(s, hi, j), k))
  {
    var a, b := if i < j then i else j, if i < j then j else i;
    assert s[a + 1].key <= s[b].key;
  }

  /** Different slots of a shaped page lead to different leaves: their key ranges do not meet. */
  lemma OtherSlotMissesLeaf(nodes: map<PageId, Node>, s: seq<InternalEntry>, lo: Option<Key>, hi: Option<Key>, h: nat,
                            i: nat, j: nat, L: PageId)
    requires SlotsShaped(nodes, s, lo, hi, h) && i < |s| && j < |s| && i != j
    requires L in Leaves(nodes, s[i].child, h)
    ensures L !in Leaves(nodes, s[j].child, h)
  {
    if L in Leaves(nodes, s[j].child, h) {
      ShapedOrdered(nodes, s[i].child, LowOf(s, lo, i), HighOf(s, hi, i), h);
      var e := nodes[L].items[0];
      SlotRangesDisjoint(s, lo, hi, i, j, e.key);
      assert e in LeafSeq(nodes, L);
      LeafKeysInRange(nodes, s[i].child, LowOf(s, lo, i), HighOf(s, hi, i), h, L, e);
      LeafKeysInRange(nodes, s[j].child, LowOf(s, lo, j), HighOf(s, hi, j), h, L, e);
    }
  }

  /** Rewriting a leaf outside a shaped subtree leaves the subtree shaped. */
  lemma {:induction false} ShapedFrame(nodes: map<PageId, Node>, id: PageId, lo: Option<Key>, hi: Option<Key>, h: nat,
                                       L: PageId, x: Node)
    requires Shaped(nodes, id, lo, hi, h) && L in nodes && nodes[L].Leaf? && L !in Leaves(nodes, id, h)
    ensures Shaped(nodes[L := x], id, lo, hi, h)
    decreases h
  {
    if h == 0 {
      assert Leaves(nodes, id, h) == [id];
    } else {
      var s := nodes[id].slots;
      forall j | 0 <= j < |s|
        ensures Shaped(nodes[L := x], s[j].child, LowOf(s, lo, j), HighOf(s, hi, j), h - 1)
      {
        LeavesFromHas(nodes, s, 0, j, h - 1);
        ShapedFrame(nodes, s[j].child, LowOf(s, lo, j), HighOf(s, hi, j), h - 1, L, x);
      }
      assert SlotsShaped(nodes[L := x], s, lo, hi, h - 1);
    }
  }

  /**
   * Inserting a key the leaf does not hold into the leaf a search for it
   * reaches keeps a shaped subtree shaped.
   */
  lemma {:induction false} InsertShaped(nodes: map<PageId, Node>, id: PageId, lo: Option<Key>, hi: Option<Key>, h: nat,
                                        L: PageId, key: Key, value: RowId, fuel: nat)
    requires Shaped(nodes, id, lo, hi, h) && fuel >= h && InRange(lo, hi, key)
    requires FindLeaf(nodes, id, key, false, fuel) == Some(L) && LeafLookup(nodes[L].items, key).None?
    ensures Shaped(nodes[L := nodes[L].(items := LeafInsert(nodes[L].items, key, value))], id, lo, hi, h)
    decreases h
  {
    var x := nodes[L].(items := LeafInsert(nodes[L].items, key, value));
    if h == 0 {
      InsertLeafShaped(nodes, L, lo, hi, key, value);
    } else {
      var s := nodes[id].slots;
      var i := RouteSlot(s, key);
      RoutedInRange(s, lo, hi, key);
      assert FindLeaf(nodes, id, key, false, fuel) == FindLeaf(nodes, s[i].child, key, false, fuel - 1);
      InsertShaped(nodes, s[i].child, LowOf(s, lo, i), HighOf(s, hi, i), h - 1, L, key, value, fuel - 1);
      SearchReaches(nodes, s[i].child, LowOf(s, lo, i), HighOf(s, hi, i), h - 1, key, fuel - 1);
      OtherSlotsFramed(nodes, s, lo, hi, h - 1, i, L, x);
      assert SlotsShaped(nodes[L := x], s, lo, hi, h - 1);
    }
  }

  /** Rewriting a leaf below slot `i` leaves the subtrees of the other slots shaped. */
  lemma OtherSlotsFramed(nodes: map<PageId, Node>, s: seq<InternalEntry>, lo: Option<Key>, hi: Option<Key>, h: nat,
                         i: nat, L: PageId, x: Node)
    requires SlotsShaped(nodes, s, lo, hi, h) && i < |s| && L in Leaves(nodes, s[i].child, h)
    requires L in nodes && nodes[L].Leaf?
    ensures forall j :: 0 <= j < |s| && j != i ==> Shaped(nodes[L := x], s[j].child, LowOf(s, lo, j), HighOf(s, hi, j), h)
  {
    forall j | 0 <= j < |s| && j != i
      ensures Shaped(nodes[L := x], s[j].child, LowOf(s, lo, j), HighOf(s, hi, j), h)
    {
      OtherSlotMissesLeaf(nodes, s, lo, hi, h, i, j, L);
      ShapedFrame(nodes, s[j].child, LowOf(s, lo, j), HighOf(s, hi, j), h, L, x);
    }
  }

  /** A shaped leaf with a key in its range and not on it inserted stays shaped. */
  lemma InsertLeafShaped(nodes: map<PageId, Node>, L: PageId, lo: Option<Key>, hi: Option<Key>, key: Key, value: RowId)
    requires Shaped(nodes, L, lo, hi, 0) && InRange(lo, hi, key) && LeafLookup(nodes[L].items, key).None?
    ensures Shaped(nodes[L := nodes[L].(items := LeafInsert(nodes[L].items, key, value))], L, lo, hi, 0)
  {
    var items := nodes[L].items;
    var r := LeafInsert(items, key, value);
    InsertKeepsStrictlySorted(items, key, value);
    InsertContents(items, key, value);
    forall e | e in r
      ensures InRange(lo, hi, e.key)
    {
      assert e in multiset(r);
    }
  }

  /** A key in a page's range is in the range of the slot a search for it follows. */
  lemma RoutedInRange(s: seq<InternalEntry>, lo: Option<Key>, hi: Option<Key>, key: Key)
    requires |s| > 0 && SeparatorsSorted(s) && InRange(lo, hi, key)
    ensures InRange(LowOf(s, lo, RouteSlot(s, key)), HighOf(s, hi, RouteSlot(s, key)), key)
  {
    RouteSlotIsChildSlot(s, key);
  }

  /** Rewriting a leaf as a leaf leaves every list of leaves as it was. */
  lemma {:induction false} LeavesSame(nodes: map<PageId, Node>, L: PageId, x: Node, id: PageId, h: nat)
    requires L in nodes && nodes[L].Leaf? && x.Leaf?
    ensures Leaves(nodes[L := x], id, h) == Leaves(nodes, id, h)
    decreases h, 0
  {
    if h > 0 && id in nodes && nodes[id].Internal? {
      LeavesFromSame(nodes, L, x, nodes[id].slots, 0, h - 1);
    }
  }

  lemma {:induction false} LeavesFromSame(nodes: map<PageId, Node>, L: PageId, x: Node, s: seq<InternalEntry>, i: nat, h: nat)
    requires L in nodes && nodes[L].Leaf? && x.Leaf? && i <= |s|
    ensures LeavesFrom(nodes[L := x], s, i, h) == LeavesFrom(nodes, s, i, h)
    decreases h, 1, |s| - i
  {
    if i < |s| {
      LeavesSame(nodes, L, x, s[i].child, h);
      LeavesFromSame(nodes, L, x, s, i + 1, h);
    }
  }

  /** Rewriting a leaf's pairs, keeping its next link, keeps the leaves linked. */
  lemma {:induction false} LinkedSame(nodes: map<PageId, Node>, L: PageId, x: Node, ids: seq<PageId>)
    requires L in nodes && nodes[L].Leaf? && x.Leaf? && x.next == nodes[L].next
    ensures Linked(nodes[L := x], ids) == Linked(nodes, ids)
    decreases |ids|
  {
    if |ids| > 1 {
      LinkedSame(nodes, L, x, ids[1..]);
    }
  }

  /**
   * Inserting a key the tree does not hold into the leaf its search reaches,
   * without a split, keeps the tree in shape.
   */
  /** `LastLeaf` walks linked leaves to the last one. */
  lemma {:induction false} LinkedLast(nodes: map<PageId, Node>, ids: seq<PageId>, fuel: nat)
    requires Linked(nodes, ids) && fuel >= |ids| - 1
    ensures LastLeaf(nodes, ids[0], fuel) == Some(ids[|ids| - 1])
    decreases |ids|
  {
    if |ids| > 1 {
      LinkedLast(nodes, ids[1..], fuel - 1);
      assert ids[1..][0] == ids[1];
    }
  }

  /** Every leaf of a linked run is a leaf page of the arena. */
  lemma {:induction false} LinkedHas(nodes: map<PageId, Node>, ids: seq<PageId>, i: nat)
    requires Linked(nodes, ids) && i < |ids|
    ensures ids[i] in nodes && nodes[ids[i]].Leaf?
    decreases i
  {
    if i > 0 {
      LinkedHas(nodes, ids[1..], i - 1);
    }
  }

  /**
   * In a tree in shape, the leftmost descent names a leaf exactly when the
   * tree holds pairs, and the next links from that leaf reach a last leaf.
   */
  lemma ScanBounds(nodes: map<PageId, Node>, root: PageId, n: nat)
    requires exists h :: Shape(nodes, root, n, h)
    ensures var first := FindLeaf(nodes, root, 0, true, |nodes|);
      (first.Some? <==> ItemsBelow(nodes, n) != multiset{}) &&
      (first.Some? ==> LastLeaf(nodes, first.value, |nodes|).Some?)
  {
    var h :| Shape(nodes, root, n, h);
    if root == INVALID_PAGE_ID {
      NoItems(nodes, n);
    } else {
      var ids := Leaves(nodes, root, h);
      HeightBelowSize(nodes, root, None, None, h);
      LeftmostFinds(nodes, root, None, None, h, 0, |nodes|);
      LeavesHoldItems(nodes, root, n, h);
      assert Pairs(nodes, ids)[0] in multiset(Pairs(nodes, ids));
      forall i | 0 <= i < |ids|
        ensures ids[i] in nodes
      {
        LinkedHas(nodes, ids, i);
      }
      FewerThanNodes(nodes, ids);
      LinkedLast(nodes, ids, |nodes|);
    }
  }

  /** `InsertKeepsShape` for a tree of some height. */
  lemma InsertKeepsSearchTree(nodes: map<PageId, Node>, root: PageId, n: nat, L: PageId, key: Key, value: RowId,
                              after: map<PageId, Node>)
    requires exists h :: Shape(nodes, root, n, h)
    requires FindLeaf(nodes, root, key, false, |nodes|) == Some(L) && LeafLookup(nodes[L].items, key).None?
    requires after == nodes[L := nodes[L].(items := LeafInsert(nodes[L].items, key, value))]
    ensures exists h :: Shape(after, root, n, h)
  {
    var h :| Shape(nodes, root, n, h);
    InsertKeepsShape(nodes, root, n, h, L, key, value);
  }

  lemma InsertKeepsShape(nodes: map<PageId, Node>, root: PageId, n: nat, h: nat, L: PageId, key: Key, value: RowId)
    requires Shape(nodes, root, n, h)
    requires FindLeaf(nodes, root, key, false, |nodes|) == Some(L) && LeafLookup(nodes[L].items, key).None?
    ensures Shape(nodes[L := nodes[L].(items := LeafInsert(nodes[L].items, key, value))], root, n, h)
  {
    var x := nodes[L].(items := LeafInsert(nodes[L].items, key, value));
    assert root != INVALID_PAGE_ID;
    HeightBelowSize(nodes, root, None, None, h);
    InsertShaped(nodes, root, None, None, h, L, key, value, |nodes|);
    SearchReaches(nodes, root, None, None, h, key, |nodes|);
    LeavesSame(nodes, L, x, root, h);
    LinkedSame(nodes, L, x, Leaves(nodes, root, h));
  }

  /** A tree that holds no pairs, with a fresh leaf of one pair as its root, is in shape. */
  lemma NewTreeShape(nodes: map<PageId, Node>, n: nat, id: PageId, x: Node)
    requires Shape(nodes, INVALID_PAGE_ID, n, 0) && 0 <= id < n && id !in nodes
    requires x.Leaf? && |x.items| == 1 && x.next == INVALID_PAGE_ID
    ensures Shape(nodes[id := x], id, n, 0)
  {
    assert Leaves(nodes[id := x], id, 0) == [id];
  }

  class BPlusTree {
    /** `root_page_id_`; the invalid page id for an empty tree. */
    var root: PageId
    /** The index pages, by page id. */
    var nodes: map<PageId, Node>
    /** The parent page id each index page records in its header. */
    var parents: map<PageId, PageId>
    /** The page id the buffer pool's `NewPage` hands out next. */
    var nextId: nat
    /** The root page id recorded in the index-roots page (`UpdateRootPageId`). */
    ghost var recordedRoot: PageId
    /** `leaf_max_size_` */
    const leafMaxSize: int
    /** `internal_max_size_` */
    const internalMaxSize: int

    /**
     * Every page id in use is below the next fresh one, every page records a
     * parent, and the recorded root is the root.
     */
    ghost predicate Valid()
      reads this
    {
      leafMaxSize >= 1 && internalMaxSize >= 1 &&
      (forall id :: id in nodes ==> 0 <= id < nextId) &&
      nodes.Keys <= parents.Keys &&
      recordedRoot == root
    }

    /** The arena is a search tree, of some height, under the root. */
    ghost predicate SearchTree()
      reads this
    {
      exists h :: Shape(nodes, root, nextId, h)
    }

    /**
     * An empty index; a maximum size of 0 selects the page-size default
     * (`LEAF_PAGE_SIZE`, `INTERNAL_PAGE_SIZE`), passed in here.
     */
    constructor(leafMax: int, internalMax: int, leafPageSize: int, internalPageSize: int)
      requires leafMax >= 0 && internalMax >= 0 && leafPageSize >= 1 && internalPageSize >= 1
      ensures Valid() && root == INVALID_PAGE_ID && nodes == map[] && parents == map[]
      ensures SearchTree()
      ensures leafMaxSize == (if leafMax == 0 then leafPageSize else leafMax)
      ensures internalMaxSize == (if internalMax == 0 then internalPageSize else internalMax)
    {
      leafMaxSize := if leafMax == 0 then leafPageSize else leafMax;
      internalMaxSize := if internalMax == 0 then internalPageSize else internalMax;
      root := INVALID_PAGE_ID;
      recordedRoot := INVALID_PAGE_ID;
      nodes := map[];
      parents := map[];
      nextId := 0;
      assert Shape(map[], INVALID_PAGE_ID, 0, 0);
    }

    /** The pairs held by the leaves of the tree. */
    ghost function Items(): multiset<LeafEntry>
      reads this
    {
      ItemsBelow(nodes, nextId)
    }

    /** The leaf a search for `key` (or the leftmost leaf) reaches from the root. */
    ghost function Descend(key: Key, leftMost: bool): Option<PageId>
      reads this
    {
      FindLeaf(nodes, root, key, leftMost, |nodes|)
    }

    /** True iff there is no root page; then every descent fails. */
    predicate IsEmpty()
      requires Valid()
      reads this
      ensures IsEmpty() ==> forall key, leftMost :: Descend(key, leftMost).None?
    {
      root == INVALID_PAGE_ID
    }

    /**
     * The descent from the root: at each internal page, child 0 or the child
     * `Lookup` picks; None for an empty tree and where the descent breaks off.
     */
    method FindLeafPage(key: Key, leftMost: bool) returns (leaf: Option<PageId>)
      requires Valid()
      ensures leaf == Descend(key, leftMost)
    {
      var id := root;
      var fuel: nat := |nodes|;
      while id in nodes && nodes[id].Internal? && fuel > 0 && |nodes[id].slots| > 0
        invariant FindLeaf(nodes, id, key, leftMost, fuel) == Descend(key, leftMost)
        decreases fuel
      {
        var slots := nodes[id].slots;
        if leftMost {
          id := slots[0].child;
        } else {
          id := slots[RouteSlot(slots, key)].child;
        }
        fuel := fuel - 1;
      }
      if id in nodes && nodes[id].Leaf? {
        return Some(id);
      }
      return None;
    }

    /**
     * Point query: descends to the leaf for `key` and, when the pair at the
     * key's lower bound has the key, appends its row id to `result` and
     * answers true.  A row id it reports is stored under `key` in the tree.
     */
    method GetValue(key: Key, result: seq<RowId>) returns (found: bool, result': seq<RowId>)
      requires Valid()
      ensures var leaf := Descend(key, false);
        found == (leaf.Some? && LeafLookup(nodes[leaf.value].items, key).Some?)
      ensures found ==> result' == result + [LeafLookup(nodes[Descend(key, false).value].items, key).value]
      ensures found ==> LeafEntry(key, result'[|result|]) in Items()
      ensures !found ==> result' == result
      ensures SearchTree() ==> (found <==> exists r :: LeafEntry(key, r) in Items())
    {
      if SearchTree() {
        ghost var h :| Shape(nodes, root, nextId, h);
        SearchFindsStored(nodes, root, nextId, h, key);
      }
      if root == INVALID_PAGE_ID {
        return false, result;
      }
      var leaf := FindLeafPage(key, false);
      if leaf.None? {
        return false, result;
      }
      var items := nodes[leaf.value].items;
      if |items| == 0 {
        return false, result;
      }
      var index := KeyIndexOf(items, key);
      if index >= |items| {
        return false, result;
      }
      if items[index].key == key {
        LookupSound(items, key);
        ItemsHold(nodes, leaf.value, LeafEntry(key, items[index].value), nextId);
        return true, result + [items[index].value];
      }
      return false, result;
    }

    /** `NewPage` of the buffer pool: the next unused page id. */
    method NewPageId() returns (id: PageId)
      requires Valid()
      modifies this
      ensures Valid() && id == old(nextId) && nextId == id + 1 && id !in nodes
      ensures nodes == old(nodes) && parents == old(parents) && root == old(root)
      ensures Items() == old(Items())
    {
      id := nextId;
      nextId := nextId + 1;
    }

    /**
     * Starts a tree on a fresh leaf holding the one pair, which becomes the
     * root; a search for `key` then finds `value` there.
     */
    method StartNewTree(key: Key, value: RowId)
      requires Valid()
      modifies this
      ensures Valid() && Items() == old(Items()) + multiset{LeafEntry(key, value)}
      ensures root == old(nextId) && root !in old(nodes)
      ensures nodes == old(nodes)[root := Leaf(leafMaxSize, INVALID_PAGE_ID, LeafInsert([], key, value))]
      ensures Descend(key, false) == Some(root) && LeafLookup(nodes[root].items, key) == Some(value)
      ensures old(SearchTree()) && old(root) == INVALID_PAGE_ID ==> SearchTree()
    {
      ghost var newTree := SearchTree() && root == INVALID_PAGE_ID;
      if newTree {
        ghost var h :| Shape(nodes, root, nextId, h);
        assert Shape(nodes, INVALID_PAGE_ID, nextId + 1, 0);
      }
      var id := NewPageId();
      root := id;
      recordedRoot := id;
      var x := Leaf(leafMaxSize, INVALID_PAGE_ID, LeafInsert([], key, value));
      InsertContents([], key, value);
      LookupAfterInsert([], key, value);
      ItemsAdd(nodes, id, x, nextId);
      if newTree {
        NewTreeShape(nodes, nextId, id, x);
      }
      nodes := nodes[id := x];
      parents := parents[id := INVALID_PAGE_ID];
      assert FindLeaf(nodes, id, key, false, |nodes|) == Some(id);
      if newTree {
        assert Shape(nodes, root, nextId, 0);
      }
    }

    /**
     * `Split` of a leaf: the first `KeepCount` pairs stay, the rest move to a
     * fresh leaf that takes over the old next link, and the old leaf now links
     * to it.  The fresh leaf records the old one's parent.
     */
    method SplitLeaf(id: PageId) returns (newId: PageId)
      requires Valid() && id in nodes && nodes[id].Leaf?
      modifies this
      ensures Valid() && Items() == old(Items()) && root == old(root)
      ensures newId == old(nextId) && newId !in old(nodes)
      ensures var n := old(nodes[id]); var k := KeepCount(|n.items|);
        nodes == old(nodes)[id := Leaf(n.maxSize, newId, n.items[..k])][newId := Leaf(leafMaxSize, n.next, n.items[k..])]
      ensures parents == old(parents)[newId := old(parents[id])]
    {
      var n := nodes[id];
      var k := KeepCount(|n.items|);
      newId := NewPageId();
      var left := Leaf(n.maxSize, newId, n.items[..k]);
      var right := Leaf(leafMaxSize, n.next, n.items[k..]);
      ItemsDelete(nodes, id, nextId);
      ItemsPut(nodes, id, left, nextId);
      ItemsAdd(nodes[id := left], newId, right, nextId);
      assert n.items == n.items[..k] + n.items[k..];
      assert LeafItems(n) == LeafItems(left) + LeafItems(right);
      nodes := nodes[id := left][newId := right];
      parents := parents[newId := parents[id]];
    }

    /**
     * `Split` of an internal page: the last `size / 2` pairs move to a fresh
     * internal page, whose children now record it as their parent.  The fresh
     * page is set up with the leaf maximum size, as the engine does.
     */
    method SplitInternal(id: PageId) returns (newId: PageId)
      requires Valid() && id in nodes && nodes[id].Internal?
      modifies this
      ensures Valid() && Items() == old(Items()) && root == old(root)
      ensures newId == old(nextId) && newId !in old(nodes)
      ensures var n := old(nodes[id]); var k := KeepCount(|n.slots|);
        nodes == old(nodes)[id := Internal(n.maxSize, n.slots[..k])][newId := Internal(leafMaxSize, n.slots[k..])] &&
        parents == Adopt(old(parents)[newId := old(parents[id])], n.slots[k..], newId)
    {
      var n := nodes[id];
      var k := KeepCount(|n.slots|);
      newId := NewPageId();
      var left := Internal(n.maxSize, n.slots[..k]);
      var right := Internal(leafMaxSize, n.slots[k..]);
      ItemsInternal(nodes, id, left, nextId);
      ItemsAdd(nodes[id := left], newId, right, nextId);
      assert LeafItems(right) == multiset{};
      nodes := nodes[id := left][newId := right];
      parents := Adopt(parents[newId := parents[id]], n.slots[k..], newId);
    }

    /**
     * A fresh internal root over `oldId` and `newId` separated by `key`; both
     * record it as their parent.  Its key 0 is the zero of a fresh page.
     */
    method NewRoot(oldId: PageId, key: Key, newId: PageId)
      requires Valid()
      modifies this
      ensures Valid() && Items() == old(Items())
      ensures root == old(nextId) && root !in old(nodes)
      ensures nodes == old(nodes)[root := Internal(leafMaxSize, [InternalEntry(0, oldId), InternalEntry(key, newId)])]
      ensures parents == old(parents)[root := INVALID_PAGE_ID][oldId := root][newId := root]
    {
      var r := NewPageId();
      var x := Internal(leafMaxSize, [InternalEntry(0, oldId), InternalEntry(key, newId)]);
      ItemsAdd(nodes, r, x, nextId);
      assert LeafItems(x) == multiset{};
      nodes := nodes[r := x];
      root := r;
      recordedRoot := r;
      parents := parents[r := INVALID_PAGE_ID][oldId := r][newId := r];
    }

    /**
     * Hooks the page `newId` split off `oldId` into the tree under separator
     * `key`.  A root that split gets a fresh internal root over the two (its
     * key 0 is the zero of a fresh page); otherwise the pair goes into the
     * parent right after `oldId`, and a parent that overflows splits in turn
     * and is hooked into its own parent, at most `fuel` levels up.  Leaves
     * are not touched, so the pairs of the tree stay the same.
     */
    method InsertIntoParent(oldId: PageId, key: Key, newId: PageId, fuel: nat)
      requires Valid() && oldId in nodes
      modifies this
      ensures Valid() && Items() == old(Items())
      decreases fuel
    {
      if parents[oldId] == INVALID_PAGE_ID {
        NewRoot(oldId, key, newId);
        return;
      }
      var p := parents[oldId];
      if p !in nodes || nodes[p].Leaf? {
        return;
      }
      parents := parents[newId := p];
      var pn := nodes[p];
      var slots := InsertAfter(pn.slots, oldId, InternalEntry(key, newId));
      RewriteInternal(p, Internal(pn.maxSize, slots));
      if |slots| > internalMaxSize {
        var sibling := SplitInternal(p);
        if fuel > 0 {
          InsertIntoParent(p, nodes[sibling].slots[0].key, sibling, fuel - 1);
        }
      }
    }

    /**
     * Inserts the pair into the leaf a search for `key` reaches, splitting
     * it when it grows past `leafMaxSize`.  False, with nothing changed, when
     * the key is already there (or the descent breaks off); otherwise the pair
     * joins the tree's pairs.  Without a split, a search for `key` reaches the
     * same leaf and now finds `value`.
     */
    method InsertIntoLeaf(key: Key, value: RowId) returns (ok: bool)
      requires Valid()
      modifies this
      ensures Valid()
      ensures var leaf := old(Descend(key, false));
        ok == (leaf.Some? && LeafLookup(old(nodes)[leaf.value].items, key).None?)
      ensures ok ==> Items() == old(Items()) + multiset{LeafEntry(key, value)}
      ensures !ok ==> nodes == old(nodes) && parents == old(parents) && root == old(root) && nextId == old(nextId)
      ensures var leaf := old(Descend(key, false));
        ok && |old(nodes)[leaf.value].items| < leafMaxSize && Sorted(old(nodes)[leaf.value].items) ==>
          Descend(key, false) == leaf && LeafLookup(nodes[leaf.value].items, key) == Some(value)
      ensures var leaf := old(Descend(key, false));
        old(SearchTree()) && ok && |old(nodes)[leaf.value].items| < leafMaxSize ==> SearchTree()
    {
      var leaf := FindLeafPage(key, false);
      if leaf.None? {
        return false;
      }
      var id := leaf.value;
      var n := nodes[id];
      if LeafLookup(n.items, key).Some? {
        return false;
      }
      var items := LeafInsert(n.items, key, value);
      PutLeafItems(id, items, key, value);
      if |items| > leafMaxSize {
        var sibling := SplitLeaf(id);
        InsertIntoParent(id, nodes[sibling].items[0].key, sibling, nextId);
      }
      return true;
    }

    /**
     * `InsertIntoLeaf` as written: the leaf's `Insert` never reports a
     * duplicate, so the pair joins the tree whenever the descent reaches a
     * leaf.  When the key was already stored, the tree then holds two pairs
     * under it and is no search tree any more.
     */
    method InsertIntoLeafAsWritten(key: Key, value: RowId) returns (ok: bool)
      requires Valid()
      modifies this
      ensures Valid()
      ensures ok == old(Descend(key, false)).Some?
      ensures ok ==> Items() == old(Items()) + multiset{LeafEntry(key, value)}
      ensures !ok ==> nodes == old(nodes) && parents == old(parents) && root == old(root) && nextId == old(nextId)
      ensures ok && (exists r :: LeafEntry(key, r) in old(Items())) ==> !SearchTree()
    {
      var leaf := FindLeafPage(key, false);
      if leaf.None? {
        return false;
      }
      var id := leaf.value;
      var items := LeafInsert(nodes[id].items, key, value);
      PutLeafItems(id, items, key, value);
      if |items| > leafMaxSize {
        var sibling := SplitLeaf(id);
        InsertIntoParent(id, nodes[sibling].items[0].key, sibling, nextId);
      }
      if exists r :: LeafEntry(key, r) in old(Items()) {
        var r :| LeafEntry(key, r) in old(Items());
        forall h: nat
          ensures !Shape(nodes, root, nextId, h)
        {
          DuplicateKeyBreaksShape(nodes, root, nextId, h, LeafEntry(key, r), LeafEntry(key, value));
        }
      }
      return true;
    }

    /**
     * Stores `LeafInsert` of leaf `id` as its new pairs: the tree gains the
     * pair, and a sorted leaf then finds `value` under `key` while every
     * descent stays as it was.
     */
    method PutLeafItems(id: PageId, items: seq<LeafEntry>, key: Key, value: RowId)
      requires Valid() && id in nodes && nodes[id].Leaf? && items == LeafInsert(nodes[id].items, key, value)
      modifies this
      ensures Valid() && Items() == old(Items()) + multiset{LeafEntry(key, value)}
      ensures nodes == old(nodes)[id := old(nodes[id]).(items := items)]
      ensures parents == old(parents) && root == old(root) && nextId == old(nextId)
      ensures forall k, leftMost :: Descend(k, leftMost) == old(Descend(k, leftMost))
      ensures Sorted(old(nodes[id]).items) ==> LeafLookup(items, key) == Some(value)
      ensures old(SearchTree()) && old(Descend(key, false)) == Some(id) && LeafLookup(old(nodes[id]).items, key).None? ==>
        SearchTree()
    {
      var n := nodes[id];
      var x := n.(items := items);
      InsertContents(n.items, key, value);
      ItemsDelete(nodes, id, nextId);
      ItemsPut(nodes, id, x, nextId);
      if Sorted(n.items) {
        LookupAfterInsert(n.items, key, value);
      }
      forall k, leftMost
        ensures FindLeaf(nodes[id := x], root, k, leftMost, |nodes|) == FindLeaf(nodes, root, k, leftMost, |nodes|)
      {
        FindLeafAfterLeafUpdate(nodes, id, x, root, k, leftMost, |nodes|);
      }
      assert |nodes[id := x]| == |nodes| by {
        assert nodes[id := x].Keys == nodes.Keys;
      }
      nodes := nodes[id := x];
      if old(SearchTree()) && old(Descend(key, false)) == Some(id) && LeafLookup(n.items, key).None? {
        InsertKeepsSearchTree(old(nodes), root, nextId, id, key, value, nodes);
      }
    }

    /**
     * `Insert`: an empty tree starts over with the pair; otherwise the pair
     * goes into its leaf.  True iff the pair joined the tree's pairs; an
     * insertion into an empty tree always succeeds.
     */
    method Insert(key: Key, value: RowId) returns (ok: bool)
      requires Valid()
      modifies this
      ensures Valid()
      ensures ok ==> Items() == old(Items()) + multiset{LeafEntry(key, value)}
      ensures !ok ==> nodes == old(nodes) && parents == old(parents) && root == old(root) && nextId == old(nextId)
      ensures old(root) == INVALID_PAGE_ID ==> ok
      ensures old(root) != INVALID_PAGE_ID ==>
        (ok <==> old(Descend(key, false)).Some? && LeafLookup(old(nodes)[old(Descend(key, false)).value].items, key).None?)
      ensures old(SearchTree()) ==> (ok <==> forall r :: LeafEntry(key, r) !in old(Items()))
      ensures old(SearchTree()) && old(root) == INVALID_PAGE_ID ==> SearchTree()
      ensures (old(SearchTree()) && old(root) != INVALID_PAGE_ID && ok &&
               |old(nodes)[old(Descend(key, false)).value].items| < leafMaxSize) ==> SearchTree()
    {
      if SearchTree() {
        ghost var h :| Shape(nodes, root, nextId, h);
        SearchFindsStored(nodes, root, nextId, h, key);
        if root == INVALID_PAGE_ID {
          NoItems(nodes, nextId);
        } else {
          HeightBelowSize(nodes, root, None, None, h);
          SearchReaches(nodes, root, None, None, h, key, |nodes|);
        }
      }
      if root == INVALID_PAGE_ID {
        StartNewTree(key, value);
        return true;
      }
      ok := InsertIntoLeaf(key, value);
    }

    /** Rewrites internal page `p` as the internal page `x`; the pairs stay. */
    method RewriteInternal(p: PageId, x: Node)
      requires Valid() && p in nodes && nodes[p].Internal? && x.Internal?
      modifies this
      ensures Valid() && Items() == old(Items()) && nodes == old(nodes)[p := x]
      ensures parents == old(parents) && root == old(root) && nextId == old(nextId) && |nodes| == old(|nodes|)
    {
      ItemsInternal(nodes, p, x, nextId);
      assert nodes[p := x].Keys == nodes.Keys;
      nodes := nodes[p := x];
    }

    /** Rewrites pages `a` and `b` as `x` and `y`, which hold the same pairs between them. */
    method RewritePair(a: PageId, x: Node, b: PageId, y: Node)
      requires Valid() && a in nodes && b in nodes && a != b
      requires LeafItems(x) + LeafItems(y) == LeafItems(nodes[a]) + LeafItems(nodes[b])
      modifies this
      ensures Valid() && Items() == old(Items()) && nodes == old(nodes)[a := x][b := y]
      ensures parents == old(parents) && root == old(root) && nextId == old(nextId) && |nodes| == old(|nodes|)
    {
      ItemsMove(nodes, a, x, b, y, nextId);
      assert nodes[a := x][b := y].Keys == nodes.Keys;
      nodes := nodes[a := x][b := y];
    }

    /** `DeletePage` of a page that holds no pairs. */
    method DeletePage(id: PageId)
      requires Valid() && id in nodes && LeafItems(nodes[id]) == multiset{}
      modifies this
      ensures Valid() && Items() == old(Items()) && nodes == old(nodes) - {id}
      ensures parents == old(parents) && root == old(root) && nextId == old(nextId) && |nodes| == old(|nodes|) - 1
    {
      ItemsDelete(nodes, id, nextId);
      nodes := nodes - {id};
    }

    /**
     * Stores `LeafRemove` of leaf `id` as its new pairs: the tree loses the
     * pair the lookup finds.
     */
    method TakeLeafItems(id: PageId, key: Key)
      requires Valid() && id in nodes && nodes[id].Leaf? && LeafLookup(nodes[id].items, key).Some?
      modifies this
      ensures Valid() && Items() + multiset{LeafEntry(key, LeafLookup(old(nodes[id]).items, key).value)} == old(Items())
      ensures nodes == old(nodes)[id := old(nodes[id]).(items := LeafRemove(old(nodes[id]).items, key))]
      ensures parents == old(parents) && root == old(root) && nextId == old(nextId) && |nodes| == old(|nodes|)
    {
      var n := nodes[id];
      var x := n.(items := LeafRemove(n.items, key));
      RemoveContents(n.items, key);
      ItemsDelete(nodes, id, nextId);
      ItemsPut(nodes, id, x, nextId);
      assert nodes[id := x].Keys == nodes.Keys;
      nodes := nodes[id := x];
    }

    /**
     * `AdjustRoot` on root page `id`: an empty root empties the tree, an
     * internal root with one child makes that child the root and records no
     * parent for it.  True iff the root page changed; the pages and their
     * pairs stay.
     */
    method AdjustRoot(id: PageId) returns (adjusted: bool)
      requires Valid() && id in nodes
      modifies this
      ensures Valid() && Items() == old(Items()) && nodes == old(nodes) && nextId == old(nextId)
      ensures adjusted == AdjustedRoot(old(nodes[id])).Some?
      ensures adjusted ==> root == AdjustedRoot(old(nodes[id])).value && parents == old(parents)[root := INVALID_PAGE_ID]
      ensures !adjusted ==> root == old(root) && parents == old(parents)
    {
      var r := AdjustedRoot(nodes[id]);
      if r.None? {
        return false;
      }
      root := r.value;
      recordedRoot := root;
      parents := parents[root := INVALID_PAGE_ID];
      return true;
    }

    /**
     * `AdjustRoot` as written, for a root with one pair: the new root is
     * child 0 read as if the page were internal, `misread` for a leaf.
     */
    method AdjustRootAsWritten(id: PageId, misread: PageId) returns (adjusted: bool)
      requires Valid() && id in nodes
      modifies this
      ensures Valid() && Items() == old(Items()) && nodes == old(nodes) && nextId == old(nextId)
      ensures adjusted == AdjustedRootAsWritten(old(nodes[id]), misread).Some?
      ensures adjusted ==> root == AdjustedRootAsWritten(old(nodes[id]), misread).value
      ensures !adjusted ==> root == old(root) && parents == old(parents)
    {
      var r := AdjustedRootAsWritten(nodes[id], misread);
      if r.None? {
        return false;
      }
      root := r.value;
      recordedRoot := root;
      parents := parents[root := INVALID_PAGE_ID];
      return true;
    }

    /**
     * `Remove`: takes the pair under `key` out of the leaf a search reaches.
     * Nothing changes when that leaf holds no such pair.  Otherwise the pair,
     * and only it, leaves the tree's pairs: a root leaf that becomes empty is
     * deleted and the tree becomes empty, a leaf below its minimum size is
     * merged or refilled, and otherwise the parent's separator for the leaf
     * becomes its new first key.
     */
    method Remove(key: Key)
      requires Valid()
      modifies this
      ensures Valid()
      ensures var leaf := old(Descend(key, false));
        if leaf.Some? && LeafLookup(old(nodes)[leaf.value].items, key).Some? then
          Items() + multiset{LeafEntry(key, LeafLookup(old(nodes)[leaf.value].items, key).value)} == old(Items())
        else
          nodes == old(nodes) && parents == old(parents) && root == old(root) && nextId == old(nextId)
      ensures old(SearchTree()) ==> forall r :: LeafEntry(key, r) !in Items()
    {
      ghost var shaped := SearchTree();
      ghost var h: nat := 0;
      ghost var before, treeRoot := nodes, root;
      if shaped {
        h :| Shape(nodes, root, nextId, h);
        SearchFindsStored(nodes, root, nextId, h, key);
      }
      if root == INVALID_PAGE_ID {
        return;
      }
      var leaf := FindLeafPage(key, false);
      if leaf.None? {
        return;
      }
      var id := leaf.value;
      var n := nodes[id];
      if |n.items| == 0 || LeafLookup(n.items, key).None? {
        return;
      }
      TakeLeafItems(id, key);
      if shaped {
        RemovedKeyGone(before, treeRoot, nextId, h, key, LeafLookup(n.items, key).value, Items());
      }
      var items := nodes[id].items;
      if parents[id] == INVALID_PAGE_ID {
        var adjusted := AdjustRoot(id);
        if adjusted && |items| == 0 {
          DeletePage(id);
        }
        return;
      }
      if |items| < MinSize(n) {
        var _ := CoalesceOrRedistribute(id, key);
        return;
      }
      var p := parents[id];
      if p !in nodes || nodes[p].Leaf? || p == id {
        return;
      }
      var index := ChildIndex(nodes[p].slots, id);
      if index < 0 {
        return;
      }
      var first := if |items| == 0 then key else items[0].key;
      RewriteInternal(p, Internal(nodes[p].maxSize, SetKey(nodes[p].slots, index, first)));
    }

    /**
     * `CoalesceOrRedistribute` for page `id`, which fell below its minimum
     * size: a root is adjusted (and deleted when that replaces it); otherwise
     * the page merges with a sibling when both fit in one page, and borrows
     * a pair from it when they do not, choosing the sibling as the engine
     * does.  The tree's pairs stay the same.  False where the engine would
     * read a page that is not there.  A leaf first copies its slot-0 key into
     * the parent; `removed` is the key left there when the removal emptied
     * the leaf.
     */
    method CoalesceOrRedistribute(id: PageId, removed: Key) returns (ok: bool)
      requires Valid() && id in nodes
      modifies this
      ensures Valid() && Items() == old(Items())
      decreases |nodes|, 1
    {
      var n := nodes[id];
      if parents[id] == INVALID_PAGE_ID {
        var adjusted := AdjustRoot(id);
        if adjusted {
          DeletePage(id);
        }
        return adjusted;
      }
      var p := parents[id];
      if p !in nodes || nodes[p].Leaf? || p == id {
        return false;
      }
      var size := |nodes[p].slots|;
      var index := ChildIndex(nodes[p].slots, id);
      if index < 0 {
        return false;
      }
      if n.Leaf? {
        var first := if |n.items| == 0 then removed else n.items[0].key;
        RewriteInternal(p, Internal(nodes[p].maxSize, SetKey(nodes[p].slots, index, first)));
      }
      var slots := nodes[p].slots;
      if index == 0 {
        if size < 2 || !IsSibling(slots[1].child, id, p) {
          return false;
        }
        var sibling := slots[1].child;
        if Size(nodes[sibling]) + Size(n) <= n.maxSize {
          ok := Coalesce(sibling, id, p, index);
        } else {
          ok := Redistribute(sibling, id, p, 0);
        }
      } else if index == size - 1 {
        if !IsSibling(slots[size - 2].child, id, p) {
          return false;
        }
        var sibling := slots[size - 2].child;
        if Size(nodes[sibling]) + Size(n) <= n.maxSize {
          ok := Coalesce(id, sibling, p, index - 1);
        } else {
          ok := Redistribute(sibling, id, p, 1);
        }
      } else {
        if !IsSibling(slots[index - 1].child, id, p) || !IsSibling(slots[index + 1].child, id, p) {
          return false;
        }
        var left, right := slots[index - 1].child, slots[index + 1].child;
        if Size(nodes[left]) + Size(n) <= n.maxSize {
          ok := Coalesce(id, left, p, index - 1);
        } else if Size(nodes[right]) + Size(n) <= n.maxSize {
          ok := Coalesce(right, id, p, index);
        } else {
          ok := Redistribute(left, id, p, 1);
        }
      }
    }

    /** Page `s` is a page of the same kind as `id`, and neither it nor its parent `p`. */
    predicate IsSibling(s: PageId, id: PageId, p: PageId)
      requires id in nodes
      reads this
    {
      s in nodes && nodes[s].Leaf? == nodes[id].Leaf? && s != id && s != p
    }

    /**
     * `Coalesce`: the right page `neighbor` moves all its pairs to the left
     * page `id` (an internal page's first pair taking the parent's separator
     * as its key, its children recording `id` as their parent; a leaf taking
     * over the neighbour's next link), the separator at `index + 1` leaves the
     * parent, and the neighbour is deleted.  A parent that falls below its
     * minimum size is treated in turn.  The tree's pairs stay the same.
     */
    method Coalesce(neighbor: PageId, id: PageId, p: PageId, index: nat) returns (ok: bool)
      requires Valid() && neighbor in nodes && id in nodes && p in nodes && nodes[p].Internal?
      requires neighbor != id && neighbor != p && id != p && nodes[neighbor].Leaf? == nodes[id].Leaf?
      requires index + 1 < |nodes[p].slots|
      modifies this
      ensures Valid() && Items() == old(Items())
      decreases |nodes|, 0
    {
      var pn := nodes[p];
      if nodes[id].Leaf? {
        MergeLeaves(neighbor, id);
      } else {
        MergeInternal(neighbor, id, pn.slots[index + 1].key);
      }
      var pslots := RemoveSlot(pn.slots, index + 1);
      RewriteInternal(p, Internal(pn.maxSize, pslots));
      DeletePage(neighbor);
      if |pslots| < MinSize(pn) {
        // `p` is an internal page, so the key argument is not read.
        ok := CoalesceOrRedistribute(p, 0);
      } else {
        ok := true;
      }
    }

    /** `MoveAllTo` of leaf `neighbor` into leaf `id`, which takes over its next link. */
    method MergeLeaves(neighbor: PageId, id: PageId)
      requires Valid() && neighbor in nodes && id in nodes && neighbor != id
      requires nodes[neighbor].Leaf? && nodes[id].Leaf?
      modifies this
      ensures Valid() && Items() == old(Items())
      ensures var n, nb := old(nodes[id]), old(nodes[neighbor]);
        nodes == old(nodes)[id := Leaf(n.maxSize, nb.next, n.items + nb.items)][neighbor := nb.(items := [])]
      ensures parents == old(parents) && root == old(root) && nextId == old(nextId) && |nodes| == old(|nodes|)
    {
      var n, nb := nodes[id], nodes[neighbor];
      assert LeafItems(Leaf(n.maxSize, nb.next, n.items + nb.items)) == LeafItems(n) + LeafItems(nb);
      RewritePair(id, Leaf(n.maxSize, nb.next, n.items + nb.items), neighbor, nb.(items := []));
    }

    /**
     * `MoveAllTo` of internal page `neighbor` into internal page `id`: the
     * moved first pair takes the separator `middle` as its key, and the moved
     * children record `id` as their parent.
     */
    method MergeInternal(neighbor: PageId, id: PageId, middle: Key)
      requires Valid() && neighbor in nodes && id in nodes && neighbor != id
      requires nodes[neighbor].Internal? && nodes[id].Internal?
      modifies this
      ensures Valid() && Items() == old(Items())
      ensures var n, nb := old(nodes[id]), old(nodes[neighbor]);
        nodes == old(nodes)[id := Internal(n.maxSize, n.slots + WithFirstKey(nb.slots, middle))][neighbor := nb.(slots := [])] &&
        parents == Adopt(old(parents), nb.slots, id)
      ensures root == old(root) && nextId == old(nextId) && |nodes| == old(|nodes|)
    {
      var n, nb := nodes[id], nodes[neighbor];
      RewritePair(id, Internal(n.maxSize, n.slots + WithFirstKey(nb.slots, middle)), neighbor, nb.(slots := []));
      parents := Adopt(parents, nb.slots, id);
    }

    /**
     * `Redistribute`: page `id` borrows one pair from its sibling `neighbor`,
     * the first pair of a right sibling (`which == 0`) or the last pair of a
     * left one, and the parent's separator between them is updated; an
     * internal page's borrowed child records its new parent.  The tree's pairs
     * stay the same.  False where the engine would read a slot of an empty
     * page or a child the parent does not list.
     */
    method Redistribute(neighbor: PageId, id: PageId, p: PageId, which: int) returns (ok: bool)
      requires Valid() && neighbor in nodes && id in nodes && p in nodes && nodes[p].Internal?
      requires neighbor != id && neighbor != p && id != p && nodes[neighbor].Leaf? == nodes[id].Leaf?
      modifies this
      ensures Valid() && Items() == old(Items())
    {
      var n, nb := nodes[id], nodes[neighbor];
      if Size(nb) == 0 {
        return false;
      }
      if n.Leaf? {
        ok := RedistributeLeaf(neighbor, id, p, which);
      } else {
        ok := RedistributeInternal(neighbor, id, p, which);
      }
    }

    /**
     * `Redistribute` of two leaves: the pair moves, and the parent's
     * separator for the right-hand page of the two becomes that page's new
     * first key.  A right sibling left empty still holds the moved key in
     * slot 0, and that key is what goes up.  False, after the move, where the
     * parent does not list the right-hand page.
     */
    method RedistributeLeaf(neighbor: PageId, id: PageId, p: PageId, which: int) returns (ok: bool)
      requires Valid() && neighbor in nodes && id in nodes && p in nodes && nodes[p].Internal?
      requires neighbor != id && neighbor != p && id != p && nodes[neighbor].Leaf? && nodes[id].Leaf?
      requires |nodes[neighbor].items| > 0
      modifies this
      ensures Valid() && Items() == old(Items())
      ensures var n, nb, pn := old(nodes[id]), old(nodes[neighbor]), old(nodes[p]);
        var last := |nb.items| - 1;
        var moved :=
          if which == 0 then old(nodes)[id := n.(items := n.items + [nb.items[0]])][neighbor := nb.(items := nb.items[1..])]
          else old(nodes)[id := n.(items := [nb.items[last]] + n.items)][neighbor := nb.(items := nb.items[..last])];
        var right := if which == 0 then neighbor else id;
        var index := ChildIndex(pn.slots, right);
        var first := if which == 0 && last == 0 then nb.items[0].key else moved[right].items[0].key;
        ok == (index >= 0) &&
        nodes == if ok then moved[p := Internal(pn.maxSize, SetKey(pn.slots, index, first))] else moved
      ensures parents == old(parents) && root == old(root) && nextId == old(nextId)
    {
      var nb := nodes[neighbor];
      var index, key;
      if which == 0 {
        BorrowFirstLeaf(neighbor, id);
        index, key := ChildIndex(nodes[p].slots, neighbor), if |nb.items| > 1 then nb.items[1].key else nb.items[0].key;
      } else {
        BorrowLastLeaf(neighbor, id);
        index, key := ChildIndex(nodes[p].slots, id), nb.items[|nb.items| - 1].key;
      }
      if index < 0 {
        return false;
      }
      RewriteInternal(p, Internal(nodes[p].maxSize, SetKey(nodes[p].slots, index, key)));
      return true;
    }

    /** `MoveFirstToEndOf` of leaf `neighbor` into leaf `id`. */
    method BorrowFirstLeaf(neighbor: PageId, id: PageId)
      requires Valid() && neighbor in nodes && id in nodes && neighbor != id
      requires nodes[neighbor].Leaf? && nodes[id].Leaf? && |nodes[neighbor].items| > 0
      modifies this
      ensures Valid() && Items() == old(Items())
      ensures var n, nb := old(nodes[id]), old(nodes[neighbor]);
        nodes == old(nodes)[id := n.(items := n.items + [nb.items[0]])][neighbor := nb.(items := nb.items[1..])]
      ensures parents == old(parents) && root == old(root) && nextId == old(nextId)
    {
      var n, nb := nodes[id], nodes[neighbor];
      assert nb.items == [nb.items[0]] + nb.items[1..];
      RewritePair(id, n.(items := n.items + [nb.items[0]]), neighbor, nb.(items := nb.items[1..]));
    }

    /** `MoveLastToFrontOf` of leaf `neighbor` into leaf `id`. */
    method BorrowLastLeaf(neighbor: PageId, id: PageId)
      requires Valid() && neighbor in nodes && id in nodes && neighbor != id
      requires nodes[neighbor].Leaf? && nodes[id].Leaf? && |nodes[neighbor].items| > 0
      modifies this
      ensures Valid() && Items() == old(Items())
      ensures var n, nb := old(nodes[id]), old(nodes[neighbor]); var last := |nb.items| - 1;
        nodes == old(nodes)[id := n.(items := [nb.items[last]] + n.items)][neighbor := nb.(items := nb.items[..last])]
      ensures parents == old(parents) && root == old(root) && nextId == old(nextId)
    {
      var n, nb := nodes[id], nodes[neighbor];
      var last := |nb.items| - 1;
      assert nb.items == nb.items[..last] + [nb.items[last]];
      RewritePair(id, n.(items := [nb.items[last]] + n.items), neighbor, nb.(items := nb.items[..last]));
    }

    /**
     * `Redistribute` of two internal pages: the separator in the parent comes
     * down as the key of the borrowed pair and the borrowed pair's key goes
     * up in its place.
     */
    method RedistributeInternal(neighbor: PageId, id: PageId, p: PageId, which: int) returns (ok: bool)
      requires Valid() && neighbor in nodes && id in nodes && p in nodes && nodes[p].Internal?
      requires neighbor != id && neighbor != p && id != p && nodes[neighbor].Internal? && nodes[id].Internal?
      requires |nodes[neighbor].slots| > 0
      modifies this
      ensures Valid() && Items() == old(Items())
    {
      var n, nb, pn := nodes[id], nodes[neighbor], nodes[p];
      if which == 0 {
        var index := ChildIndex(pn.slots, neighbor);
        if index < 0 {
          return false;
        }
        var middle := pn.slots[index].key;
        RewritePair(id, n.(slots := n.slots + [InternalEntry(middle, nb.slots[0].child)]), neighbor, nb.(slots := nb.slots[1..]));
        parents := parents[nb.slots[0].child := id];
        if |nb.slots| == 1 {
          return false;
        }
        RewriteInternal(p, Internal(pn.maxSize, SetKey(pn.slots, index, nb.slots[1].key)));
      } else {
        var index := ChildIndex(pn.slots, id);
        if index < 0 {
          return false;
        }
        var middle := pn.slots[index].key;
        var last := nb.slots[|nb.slots| - 1];
        RewritePair(id, n.(slots := [last] + WithFirstKey(n.slots, middle)), neighbor, nb.(slots := nb.slots[..|nb.slots| - 1]));
        parents := parents[last.child := id];
        RewriteInternal(p, Internal(pn.maxSize, SetKey(pn.slots, index, last.key)));
      }
      return true;
    }

    /**
     * `Begin`: the first slot of the leftmost leaf; None when the descent
     * finds no leaf (an empty tree).
     */
    method Begin() returns (pos: Option<Position>)
      requires Valid()
      ensures pos.Some? <==> Descend(0, true).Some?
      ensures forall key :: Descend(key, true) == Descend(0, true)
      ensures pos.Some? ==> pos.value == Position(Descend(0, true).value, 0)
      ensures SearchTree() ==> (pos.Some? <==> Items() != multiset{})
    {
      if SearchTree() {
        ScanBounds(nodes, root, nextId);
      }
      forall key
        ensures Descend(key, true) == Descend(0, true)
      {
        LeftMostIgnoresKey(nodes, root, key, 0, |nodes|);
      }
      var leaf := FindLeafPage(0, true);
      if leaf.None? {
        return None;
      }
      return Some(Position(leaf.value, 0));
    }

    /**
     * `Begin(key)` as written: the leaf a search for `key` reaches, at the
     * key's lower bound there, which is the leaf's size when every key on it
     * is smaller.
     */
    method BeginAtAsWritten(key: Key) returns (pos: Option<Position>)
      requires Valid()
      ensures var leaf := Descend(key, false);
        pos == if leaf.None? then None else Some(Position(leaf.value, KeyIndexOf(nodes[leaf.value].items, key)))
    {
      var leaf := FindLeafPage(key, false);
      if leaf.None? {
        return None;
      }
      return Some(Position(leaf.value, KeyIndexOf(nodes[leaf.value].items, key)));
    }

    /**
     * `Begin(key)`: the first pair whose key is at least `key`.  On a sorted
     * leaf that is the pair at the key's lower bound; when every key of the
     * leaf is smaller it is the first pair of the next leaf.
     */
    method BeginAt(key: Key) returns (pos: Option<Position>)
      requires Valid()
      ensures var leaf := Descend(key, false);
        pos.Some? <==> leaf.Some?
      ensures pos.Some? ==> var items := nodes[Descend(key, false).value].items;
        Sorted(items) ==>
          if LowerBound(items, key) < |items| || nodes[Descend(key, false).value].next == INVALID_PAGE_ID then
            pos.value == Position(Descend(key, false).value, LowerBound(items, key))
          else
            pos.value == Position(nodes[Descend(key, false).value].next, 0)
    {
      var leaf := FindLeafPage(key, false);
      if leaf.None? {
        return None;
      }
      var n := nodes[leaf.value];
      var index := KeyIndexOf(n.items, key);
      if Sorted(n.items) {
        KeyIndexIsLowerBound(n.items, key);
      }
      if index == |n.items| && n.next != INVALID_PAGE_ID {
        return Some(Position(n.next, 0));
      }
      return Some(Position(leaf.value, index));
    }

    /**
     * `End`: the last slot (`size - 1`, not one past it) of the leaf the next
     * links lead to from the leftmost leaf; None when the walk breaks off.
     */
    method End() returns (pos: Option<Position>)
      requires Valid()
      ensures var first := Descend(0, true);
        var last := if first.Some? then LastLeaf(nodes, first.value, |nodes|) else None;
        pos == if last.None? then None else Some(Position(last.value, |nodes[last.value].items| - 1))
      ensures SearchTree() ==> (pos.Some? <==> Items() != multiset{})
    {
      if SearchTree() {
        ScanBounds(nodes, root, nextId);
      }
      var leaf := FindLeafPage(0, true);
      if leaf.None? {
        return None;
      }
      var id := leaf.value;
      var fuel: nat := |nodes|;
      while id in nodes && nodes[id].Leaf? && nodes[id].next != INVALID_PAGE_ID && fuel > 0
        invariant LastLeaf(nodes, id, fuel) == LastLeaf(nodes, leaf.value, |nodes|)
        decreases fuel
      {
        id := nodes[id].next;
        fuel := fuel - 1;
      }
      if id in nodes && nodes[id].Leaf? && nodes[id].next == INVALID_PAGE_ID {
        return Some(Position(id, |nodes[id].items| - 1));
      }
      return None;
    }
  }
}
