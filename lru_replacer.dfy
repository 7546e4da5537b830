/**
 * The LRU replacer of the buffer pool (src/buffer/lru_replacer.cpp).
 *
 * The replacer keeps the frames that may be evicted in a list, most recently
 * unpinned at the front, and a per-frame table telling whether a frame is in
 * the list. Here the list is the sequence `victims` (index 0 is the front)
 * and the table of list iterators is the boolean array `cache`
 * (`cache[f]` stands for `cache[f] != victims.end()`).
 */
module LruReplacer {

  predicate Distinct(s: seq<nat>)
  {
    forall i, j :: 0 <= i < j < |s| ==> s[i] != s[j]
  }

  predicate Below(s: seq<nat>, n: nat)
  {
    forall i :: 0 <= i < |s| ==> s[i] < n
  }

  /** The list with `f` erased. */
  function Without(s: seq<nat>, f: nat): (r: seq<nat>)
    ensures forall x :: x in r <==> x in s && x != f
    ensures Distinct(s) ==> Distinct(r)
    ensures Distinct(s) && f in s ==> |r| == |s| - 1
    ensures f !in s ==> r == s
  {
    if s == [] then []
    else if s[0] == f then Without(s[1..], f)
    else
      var r := Without(s[1..], f);
      assert Distinct(s) ==> s[0] !in r && Distinct(r);
      [s[0]] + r
  }

  /** The list after `Unpin(f)` on a replacer that holds at most `capacity` frames. */
  function Unpinned(s: seq<nat>, capacity: nat, f: nat): seq<nat>
  {
    if |s| >= capacity || f in s then s else [f] + s
  }

  /** The list after `Pin(f)`. */
  function Pinned(s: seq<nat>, f: nat): seq<nat>
  {
    Without(s, f)
  }

  /** The list after a run of `Unpin` calls, in the order given. */
  function UnpinAll(s: seq<nat>, capacity: nat, fs: seq<nat>): seq<nat>
    decreases |fs|
  {
    if fs == [] then s else UnpinAll(Unpinned(s, capacity, fs[0]), capacity, fs[1..])
  }

  /** Pigeonhole: `n` distinct frame ids below `n` leave no room for another one. */
  lemma {:induction false} DistinctBelowBound(s: seq<nat>, n: nat)
    requires Distinct(s) && Below(s, n)
    ensures |s| <= n
    decreases n
  {
    if s != [] {
      assert s[0] < n;
      if n - 1 in s {
        var i :| 0 <= i < |s| && s[i] == n - 1;
        var t := s[..i] + s[i + 1..];
        assert forall k :: 0 <= k < |t| ==> t[k] == (if k < i then s[k] else s[k + 1]);
        DistinctBelowBound(t, n - 1);
      } else {
        DistinctBelowBound(s, n - 1);
      }
    }
  }

  /**
   * In a well-formed replacer over `n` frames, unpinning a frame that is not
   * tracked always finds room: the size guard of `Unpin` never drops a frame.
   */
  lemma UnpinTracksUntracked(s: seq<nat>, n: nat, f: nat)
    requires Distinct(s) && Below(s, n) && f < n && f !in s
    ensures Unpinned(s, n, f) == [f] + s
  {
    var t := [f] + s;
    assert forall k :: 0 < k < |t| ==> t[k] == s[k - 1];
    DistinctBelowBound(t, n);
  }

  /**
   * Least recently used order: unpinning distinct frames one after another
   * into an empty replacer lines them up so that the first one unpinned is the
   * next victim (the back of the list).
   */
  lemma {:induction false} UnpinAllReverses(s: seq<nat>, n: nat, fs: seq<nat>)
    requires Distinct(s + fs) && Below(s + fs, n)
    ensures UnpinAll(s, n, fs) == Reverse(fs) + s
    decreases |fs|
  {
    if fs != [] {
      assert forall k :: 0 <= k < |s| ==> (s + fs)[k] == s[k];
      assert (s + fs)[|s|] == fs[0];
      assert fs[0] !in s;
      UnpinTracksUntracked(s, n, fs[0]);
      var t := [fs[0]] + s;
      assert t + fs[1..] == [fs[0]] + (s + fs[1..]);
      assert forall k :: 0 <= k < |s + fs[1..]| ==> (s + fs[1..])[k] == (s + fs)[if k < |s| then k else k + 1];
      assert forall i, j :: 0 <= i < j < |t + fs[1..]| ==> (t + fs[1..])[i] != (t + fs[1..])[j] by {
        forall i, j | 0 <= i < j < |t + fs[1..]|
          ensures (t + fs[1..])[i] != (t + fs[1..])[j]
        {
          var u := t + fs[1..];
          var m := (i2: int) => if i2 == 0 then |s| else if i2 <= |s| then i2 - 1 else i2;
          assert u[i] == (s + fs)[m(i)];
          assert u[j] == (s + fs)[m(j)];
          assert m(i) != m(j);
        }
      }
      UnpinAllReverses(t, n, fs[1..]);
      assert Reverse(fs[1..]) + t == Reverse(fs) + s;
    }
  }

  function Reverse(s: seq<nat>): (r: seq<nat>)
    ensures |r| == |s|
  {
    if s == [] then [] else Reverse(s[1..]) + [s[0]]
  }

  lemma FirstUnpinnedIsFirstVictim(n: nat, fs: seq<nat>)
    requires fs != [] && Distinct(fs) && Below(fs, n)
    ensures var s := UnpinAll([], n, fs); s != [] && s[|s| - 1] == fs[0]
  {
    assert [] + fs == fs;
    UnpinAllReverses([], n, fs);
    assert Reverse(fs) == Reverse(fs[1..]) + [fs[0]];
  }

  class LRUReplacer {
    /** The number of frames of the pool this replacer serves. */
    const numPages: nat
    /** Evictable frames, the most recently unpinned at index 0. */
    var victims: seq<nat>
    /** `cache[f]` holds exactly when frame `f` is in `victims`. */
    const cache: array<bool>

    ghost predicate Valid()
      reads this, cache
    {
      cache.Length == numPages &&
      Distinct(victims) && Below(victims, numPages) &&
      (forall f :: 0 <= f < numPages ==> (cache[f] <==> f in victims))
    }

    constructor (numPages: nat)
      ensures Valid() && fresh(cache)
      ensures this.numPages == numPages && victims == []
    {
      this.numPages := numPages;
      victims := [];
      cache := new bool[numPages](_ => false);
    }

    /** Evicts the least recently unpinned frame, if any. */
    method Victim() returns (ok: bool, frameId: nat)
      requires Valid()
      modifies this, cache
      ensures Valid()
      ensures ok == (old(victims) != [])
      ensures ok ==> frameId == old(victims)[|old(victims)| - 1] && victims == old(victims)[..|old(victims)| - 1]
      ensures !ok ==> victims == old(victims)
    {
      if victims == [] {
        return false, 0;
      }
      frameId := victims[|victims| - 1];
      cache[frameId] := false;
      victims := victims[..|victims| - 1];
      ok := true;
    }

    /** Removes `frameId` from the evictable frames, if it is there. */
    method Pin(frameId: nat)
      requires Valid() && frameId < numPages
      modifies this, cache
      ensures Valid()
      ensures victims == Pinned(old(victims), frameId)
    {
      if cache[frameId] {
        victims := Without(victims, frameId);
        assert forall i :: 0 <= i < |victims| ==> victims[i] in old(victims);
        cache[frameId] := false;
      }
    }

    /** Makes `frameId` evictable as the most recently used frame, unless it is tracked or the list is full. */
    method Unpin(frameId: nat)
      requires Valid() && frameId < numPages
      modifies this, cache
      ensures Valid()
      ensures victims == Unpinned(old(victims), numPages, frameId)
    {
      if |victims| >= numPages || cache[frameId] {
        return;
      }
      victims := [frameId] + victims;
      cache[frameId] := true;
    }

    method Size() returns (n: nat)
      requires Valid()
      ensures n == |victims|
      ensures n <= numPages
    {
      DistinctBelowBound(victims, numPages);
      n := |victims|;
    }
  }
}
