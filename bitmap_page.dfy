/**
 * The bitmap page (src/page/bitmap_page.cpp): one page of a disk extent that
 * records, one bit per data page, which pages of the extent are allocated.
 *
 * Page layout: `page_allocated_` (u32), `next_free_page_` (u32), then
 * `MAX_CHARS = PageSize - 8` bytes of bits, slot `i` being bit `7 - i % 8`
 * of byte `i / 8`. The page class is a template over the page size; here the
 * byte count is the constant `maxChars` of each object.
 */
module BitmapPages {
  import opened Common

  /** The eight slots of one byte, most significant bit first. */
  function ByteSlots(b: byte): (bs: seq<bool>)
    ensures |bs| == 8
  {
    seq(8, k requires 0 <= k < 8 => SlotSet(BvOf(b), k))
  }

  /** The slots of a byte array, byte by byte. */
  function Bits(bytes: seq<byte>): (bs: seq<bool>)
    ensures |bs| == 8 * |bytes|
  {
    if bytes == [] then [] else ByteSlots(bytes[0]) + Bits(bytes[1..])
  }

  /** Slot `i` is set exactly when bit `7 - i % 8` of byte `i / 8` is one. */
  lemma {:induction false} BitsAt(bytes: seq<byte>, i: nat)
    requires i < 8 * |bytes|
    ensures Bits(bytes)[i] == SlotSet(BvOf(bytes[i / 8]), i % 8)
  {
    if i >= 8 {
      BitsAt(bytes[1..], i - 8);
      assert Bits(bytes)[i] == Bits(bytes[1..])[i - 8];
      assert (i - 8) / 8 == i / 8 - 1 && (i - 8) % 8 == i % 8;
    }
  }

  /** The number of set slots. */
  function Count(bs: seq<bool>): (n: nat)
    ensures n <= |bs|
  {
    if bs == [] then 0 else (if bs[0] then 1 else 0) + Count(bs[1..])
  }

  /** The least clear slot at or after `from`, or `|bs|` when there is none. */
  function FirstClear(bs: seq<bool>, from: nat): (r: nat)
    requires from <= |bs|
    ensures from <= r <= |bs|
    ensures r < |bs| ==> !bs[r]
    ensures forall j :: from <= j < r ==> bs[j]
    decreases |bs| - from
  {
    if from == |bs| then from
    else if !bs[from] then from
    else FirstClear(bs, from + 1)
  }

  lemma {:induction false} CountUpdate(bs: seq<bool>, i: nat, b: bool)
    requires i < |bs|
    ensures Count(bs[i := b]) == Count(bs) - (if bs[i] then 1 else 0) + (if b then 1 else 0)
  {
    if i > 0 {
      assert bs[i := b][1..] == bs[1..][i - 1 := b];
      CountUpdate(bs[1..], i - 1, b);
    } else {
      assert bs[i := b][1..] == bs[1..];
    }
  }

  /** A bitmap is full, by its count, exactly when every slot is set. */
  lemma {:induction false} CountFull(bs: seq<bool>)
    ensures Count(bs) == |bs| <==> forall i :: 0 <= i < |bs| ==> bs[i]
  {
    if bs != [] {
      CountFull(bs[1..]);
      assert forall i :: 1 <= i < |bs| ==> bs[i] == bs[1..][i - 1];
    }
  }

  lemma {:induction false} CountNone(bs: seq<bool>)
    requires forall i :: 0 <= i < |bs| ==> !bs[i]
    ensures Count(bs) == 0
  {
    if bs != [] {
      CountNone(bs[1..]);
    }
  }

  lemma DivMod8(i: nat, j: nat)
    ensures (i / 8 == j / 8 && i % 8 == j % 8) <==> i == j
  {
  }

  /** Slot `j` after slot `i` is set: only slot `i` changes. */
  lemma SetSlotAt(bytes: seq<byte>, i: nat, j: nat)
    requires i < 8 * |bytes| && j < 8 * |bytes|
    ensures var after := bytes[i / 8 := SetMask(bytes[i / 8], Mask(i % 8))];
      SlotSet(BvOf(after[j / 8]), j % 8) == (j == i || SlotSet(BvOf(bytes[j / 8]), j % 8))
  {
    DivMod8(i, j);
    if j / 8 == i / 8 {
      SetByteSlot(bytes[i / 8], i % 8, j % 8);
    }
  }

  /** Slot `j` after slot `i` is cleared: only slot `i` changes. */
  lemma ClearSlotAt(bytes: seq<byte>, i: nat, j: nat)
    requires i < 8 * |bytes| && j < 8 * |bytes|
    ensures var after := bytes[i / 8 := ClearMask(bytes[i / 8], Mask(i % 8))];
      SlotSet(BvOf(after[j / 8]), j % 8) == (j != i && SlotSet(BvOf(bytes[j / 8]), j % 8))
  {
    DivMod8(i, j);
    if j / 8 == i / 8 {
      ClearByteSlot(bytes[i / 8], i % 8, j % 8);
    }
  }

  /** Setting slot `i` in its byte sets that slot and no other. */
  lemma SetSlot(bytes: seq<byte>, i: nat)
    requires i < 8 * |bytes|
    ensures Bits(bytes[i / 8 := SetMask(bytes[i / 8], Mask(i % 8))]) == Bits(bytes)[i := true]
  {
    var after := bytes[i / 8 := SetMask(bytes[i / 8], Mask(i % 8))];
    forall j | 0 <= j < 8 * |bytes|
      ensures Bits(after)[j] == (j == i || Bits(bytes)[j])
    {
      BitsAt(after, j);
      BitsAt(bytes, j);
      SetSlotAt(bytes, i, j);
    }
  }

  /** Clearing slot `i` in its byte clears that slot and no other. */
  lemma ClearSlot(bytes: seq<byte>, i: nat)
    requires i < 8 * |bytes|
    ensures Bits(bytes[i / 8 := ClearMask(bytes[i / 8], Mask(i % 8))]) == Bits(bytes)[i := false]
  {
    var after := bytes[i / 8 := ClearMask(bytes[i / 8], Mask(i % 8))];
    forall j | 0 <= j < 8 * |bytes|
      ensures Bits(after)[j] == (j != i && Bits(bytes)[j])
    {
      BitsAt(after, j);
      BitsAt(bytes, j);
      ClearSlotAt(bytes, i, j);
    }
  }

  lemma ZeroBytesHaveNoSlots(bytes: seq<byte>)
    requires forall k :: 0 <= k < |bytes| ==> bytes[k] == 0
    ensures forall i :: 0 <= i < |Bits(bytes)| ==> !Bits(bytes)[i]
  {
    forall i | 0 <= i < 8 * |bytes|
      ensures !Bits(bytes)[i]
    {
      BitsAt(bytes, i);
      ZeroByteHasNoSlots(i % 8);
    }
  }

  /** `FirstClear` is characterised by its contract: any such slot is the one it returns. */
  lemma {:induction false} FirstClearIs(bs: seq<bool>, from: nat, r: nat)
    requires from <= r <= |bs|
    requires r < |bs| ==> !bs[r]
    requires forall j :: from <= j < r ==> bs[j]
    ensures FirstClear(bs, from) == r
    decreases r - from
  {
    if from < r {
      FirstClearIs(bs, from + 1, r);
    }
  }

  /** Taking the least clear slot leaves the least clear slot after it as the new least. */
  lemma FirstClearAfterSet(bs: seq<bool>, h: nat)
    requires h == FirstClear(bs, 0) && h < |bs|
    ensures FirstClear(bs[h := true], 0) == FirstClear(bs[h := true], h + 1)
  {
    var after := bs[h := true];
    var t := FirstClear(after, h + 1);
    assert forall j :: 0 <= j <= h ==> after[j];
    FirstClearIs(after, 0, t);
  }

  /** Freeing slot `p` makes it the least clear slot unless a lower one is clear. */
  lemma FirstClearAfterClear(bs: seq<bool>, p: nat)
    requires p < |bs| && bs[p]
    ensures FirstClear(bs[p := false], 0) == if FirstClear(bs, 0) > p then p else FirstClear(bs, 0)
  {
    var after := bs[p := false];
    var h := FirstClear(bs, 0);
    if h > p {
      FirstClearIs(after, 0, p);
    } else {
      assert h != p;
      FirstClearIs(after, 0, h);
    }
  }

  /** A page image of a bitmap whose two counters agree with its bits. */
  ghost predicate ValidImage(page: seq<byte>, maxChars: nat)
  {
    |page| == 8 + maxChars && 8 * maxChars < U32_LIMIT &&
    DecodeU32(page) == Count(Bits(page[8..])) &&
    DecodeU32(page[4..]) == FirstClear(Bits(page[8..]), 0)
  }

  /** The allocated-page counter stored in a bitmap page image. */
  function ImageAllocated(page: seq<byte>): nat
    requires |page| >= 8
  {
    DecodeU32(page)
  }

  /** Whether slot `offset` of a bitmap page image is clear. */
  predicate ImageFree(page: seq<byte>, offset: nat)
    requires |page| >= 8 && offset < 8 * (|page| - 8)
  {
    !Bits(page[8..])[offset]
  }

  /** An all-zero page, as read past the end of the file, is a valid empty bitmap. */
  lemma ZeroImageValid(page: seq<byte>)
    requires |page| >= 8 && 8 * (|page| - 8) < U32_LIMIT
    requires forall k :: 0 <= k < |page| ==> page[k] == 0
    ensures ValidImage(page, |page| - 8)
    ensures ImageAllocated(page) == 0
    ensures forall offset :: 0 <= offset < 8 * (|page| - 8) ==> ImageFree(page, offset)
  {
    ZeroBytesHaveNoSlots(page[8..]);
    CountNone(Bits(page[8..]));
    if |Bits(page[8..])| > 0 {
      assert !Bits(page[8..])[0];
    }
  }

  /**
   * Setting the least clear slot `h` of a bitmap that is not full: the slots
   * change in `h` alone, the count grows by one, and the least clear slot
   * is the least clear one after `h`.
   */
  lemma SetStep(before: seq<byte>, h: nat, after: seq<byte>)
    requires h == FirstClear(Bits(before), 0) && h < 8 * |before|
    requires after == before[h / 8 := SetMask(before[h / 8], Mask(h % 8))]
    ensures Bits(after) == Bits(before)[h := true]
    ensures !Bits(before)[h] && Count(Bits(after)) == Count(Bits(before)) + 1
    ensures FirstClear(Bits(after), 0) == FirstClear(Bits(after), h + 1)
  {
    SetSlot(before, h);
    TakeFirstClear(Bits(before), h, Bits(after));
  }

  lemma TakeFirstClear(bs: seq<bool>, h: nat, taken: seq<bool>)
    requires h == FirstClear(bs, 0) && h < |bs| && taken == bs[h := true]
    ensures !bs[h] && Count(taken) == Count(bs) + 1
    ensures FirstClear(taken, 0) == FirstClear(taken, h + 1)
  {
    CountUpdate(bs, h, true);
    FirstClearAfterSet(bs, h);
  }

  /**
   * Clearing the set slot `p`: the slots change in `p` alone, the count drops
   * by one, and `p` becomes the least clear slot unless a lower one is clear.
   */
  lemma ClearStep(before: seq<byte>, p: nat, after: seq<byte>)
    requires p < 8 * |before| && Bits(before)[p]
    requires after == before[p / 8 := ClearMask(before[p / 8], Mask(p % 8))]
    ensures Bits(after) == Bits(before)[p := false]
    ensures Count(Bits(before)) >= 1 && Count(Bits(after)) == Count(Bits(before)) - 1
    ensures FirstClear(Bits(after), 0) == if FirstClear(Bits(before), 0) > p then p else FirstClear(Bits(before), 0)
  {
    ClearSlot(before, p);
    ReleaseSlot(Bits(before), p, Bits(after));
  }

  lemma ReleaseSlot(bs: seq<bool>, p: nat, freed: seq<bool>)
    requires p < |bs| && bs[p] && freed == bs[p := false]
    ensures Count(bs) >= 1 && Count(freed) == Count(bs) - 1
    ensures FirstClear(freed, 0) == if FirstClear(bs, 0) > p then p else FirstClear(bs, 0)
  {
    CountUpdate(bs, p, false);
    FirstClearAfterClear(bs, p);
  }

  class BitmapPage {
    /** `MAX_CHARS`: the number of bitmap bytes in the page. */
    const maxChars: nat
    /** The number of set slots. */
    var pageAllocated: nat
    /** The least clear slot, or `GetMaxSupportedSize()` when there is none. */
    var nextFreePage: nat
    const bytes: array<byte>

    function GetMaxSupportedSize(): nat
    {
      8 * maxChars
    }

    ghost function Slots(): seq<bool>
      reads this, bytes
    {
      Bits(bytes[..])
    }

    ghost predicate Valid()
      reads this, bytes
    {
      bytes.Length == maxChars && 8 * maxChars < U32_LIMIT &&
      pageAllocated == Count(Slots()) &&
      nextFreePage == FirstClear(Slots(), 0)
    }

    /** The page image: both counters, then the bits. */
    function ToPage(): (page: seq<byte>)
      reads this, bytes
      requires Valid()
      ensures ValidImage(page, maxChars)
      ensures ImageAllocated(page) == pageAllocated
      ensures Bits(page[8..]) == Slots()
    {
      var page := EncodeU32(pageAllocated) + EncodeU32(nextFreePage) + bytes[..];
      assert page[8..] == bytes[..];
      assert page[4..] == EncodeU32(nextFreePage) + bytes[..];
      U32RoundTrip(pageAllocated);
      U32RoundTrip(nextFreePage);
      DecodeU32Prefix(EncodeU32(pageAllocated), EncodeU32(nextFreePage) + bytes[..]);
      DecodeU32Prefix(EncodeU32(nextFreePage), bytes[..]);
      assert EncodeU32(pageAllocated) + EncodeU32(nextFreePage) + bytes[..] ==
        EncodeU32(pageAllocated) + (EncodeU32(nextFreePage) + bytes[..]);
      page
    }

    /** The bitmap stored in `page` (the page buffer reinterpreted in place). */
    constructor FromPage(page: seq<byte>, maxChars: nat)
      requires ValidImage(page, maxChars)
      ensures Valid() && fresh(bytes)
      ensures this.maxChars == maxChars && Slots() == Bits(page[8..])
      ensures pageAllocated == ImageAllocated(page)
    {
      this.maxChars := maxChars;
      pageAllocated := DecodeU32(page);
      nextFreePage := DecodeU32(page[4..]);
      bytes := new byte[maxChars](k requires 0 <= k < maxChars => page[8 + k]);
      new;
      assert bytes[..] == page[8..];
    }

    /** Allocates the least free slot, failing only when every slot is taken. */
    method AllocatePage() returns (ok: bool, pageOffset: nat)
      requires Valid()
      modifies this, bytes
      ensures Valid()
      ensures ok == (old(pageAllocated) != GetMaxSupportedSize())
      ensures ok ==> pageOffset == FirstClear(old(Slots()), 0) && pageOffset < GetMaxSupportedSize()
      ensures ok ==> !old(Slots())[pageOffset] && Slots() == old(Slots())[pageOffset := true]
      ensures ok ==> pageAllocated == old(pageAllocated) + 1
      ensures !ok ==> Slots() == old(Slots()) && pageAllocated == old(pageAllocated)
    {
      if pageAllocated == 8 * maxChars {
        return false, 0;
      }
      CountFull(Slots());
      pageOffset := nextFreePage;
      bytes[pageOffset / 8] := SetMask(bytes[pageOffset / 8], Mask(pageOffset % 8));
      pageAllocated := pageAllocated + 1;
      SetStep(old(bytes[..]), pageOffset, bytes[..]);
      nextFreePage := ScanFrom(pageOffset + 1);
      ok := true;
    }

    /** The scan of `AllocatePage` for the next clear slot, starting at `from`. */
    method ScanFrom(from: nat) returns (next: nat)
      requires bytes.Length == maxChars && from <= GetMaxSupportedSize()
      ensures next == FirstClear(Slots(), from)
    {
      next := 8 * maxChars;
      var i := from;
      while i < 8 * maxChars
        invariant from <= i <= 8 * maxChars
        invariant next == 8 * maxChars
        invariant forall j :: from <= j < i ==> Slots()[j]
        decreases 8 * maxChars - i
      {
        BitsAt(bytes[..], i);
        SlotSetIsMask(BvOf(bytes[i / 8]), i % 8);
        if BvOf(bytes[i / 8]) & Mask(i % 8) == 0 {
          next := i;
          break;
        }
        i := i + 1;
      }
      FirstClearIs(Slots(), from, next);
    }

    /** Frees slot `pageOffset`, failing when it is already free. */
    method DeAllocatePage(pageOffset: nat) returns (ok: bool)
      requires Valid() && pageOffset < GetMaxSupportedSize()
      modifies this, bytes
      ensures Valid()
      ensures ok == old(Slots())[pageOffset]
      ensures ok ==> Slots() == old(Slots())[pageOffset := false] && pageAllocated == old(pageAllocated) - 1
      ensures !ok ==> Slots() == old(Slots()) && pageAllocated == old(pageAllocated)
    {
      var free := IsPageFree(pageOffset);
      if free {
        return false;
      }
      bytes[pageOffset / 8] := ClearMask(bytes[pageOffset / 8], Mask(pageOffset % 8));
      ClearStep(old(bytes[..]), pageOffset, bytes[..]);
      pageAllocated := pageAllocated - 1;
      nextFreePage := if nextFreePage > pageOffset then pageOffset else nextFreePage;
      ok := true;
    }

    method IsPageFree(pageOffset: nat) returns (free: bool)
      requires Valid() && pageOffset < GetMaxSupportedSize()
      ensures free == !Slots()[pageOffset]
    {
      free := IsPageFreeLow(pageOffset / 8, pageOffset % 8);
      BitsAt(bytes[..], pageOffset);
    }

    method IsPageFreeLow(byteIndex: nat, bitIndex: nat) returns (free: bool)
      requires Valid() && byteIndex < maxChars && bitIndex < 8
      ensures free == !SlotSet(BvOf(bytes[byteIndex]), bitIndex)
    {
      free := BvOf(bytes[byteIndex]) & Mask(bitIndex) == 0;
      SlotSetIsMask(BvOf(bytes[byteIndex]), bitIndex);
    }
  }
}
