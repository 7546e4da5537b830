/**
 * The null bitmap at the front of a serialised row: `ceil(n / 8)` bytes, and
 * bit `7 - i % 8` of byte `i / 8` is one exactly when field `i` is not null
 * (slot `i % 8` of the byte, counting from the most significant bit).
 */
module NullBitmaps {
  import opened Common

  /** `ceil(n * 1.0 / 8)`: the bytes of the bitmap of `n` fields. */
  function BitmapSize(n: nat): (r: nat)
    ensures 8 * r >= n && (r > 0 ==> 8 * (r - 1) < n)
  {
    (n + 7) / 8
  }

  /** Byte `j` of the bitmap of `present` with only its slots below `k` filled in. */
  function Slots(present: seq<bool>, j: nat, k: nat): byte
    requires k <= 8
    decreases k
  {
    if k == 0 then 0
    else
      var b := Slots(present, j, k - 1);
      if 8 * j + (k - 1) < |present| && present[8 * j + (k - 1)] then SetMask(b, Mask(k - 1)) else b
  }

  /** The bitmap of the fields whose `present` entry is true (not null). */
  function Bitmap(present: seq<bool>): (bm: seq<byte>)
    ensures |bm| == BitmapSize(|present|)
  {
    seq(BitmapSize(|present|), j requires 0 <= j < BitmapSize(|present|) => Slots(present, j, 8))
  }

  /** Whether field `i` is present according to the bitmap `bm`. */
  predicate Present(bm: seq<byte>, i: nat)
    requires i / 8 < |bm|
  {
    SlotSet(BvOf(bm[i / 8]), i % 8)
  }

  /** The presence of each of the first `n` fields, as the bitmap `bm` records it. */
  function Flags(bm: seq<byte>, n: nat): (present: seq<bool>)
    requires BitmapSize(n) <= |bm|
    ensures |present| == n
  {
    seq(n, i requires 0 <= i < n => Present(bm, i))
  }

  /** Slot `m` of a partly filled byte is one exactly for a present field below slot `k`. */
  lemma {:induction false} SlotsBits(present: seq<bool>, j: nat, k: nat, m: nat)
    requires k <= 8 && m < 8
    ensures SlotSet(BvOf(Slots(present, j, k)), m) == (m < k && 8 * j + m < |present| && present[8 * j + m])
    decreases k
  {
    if k == 0 {
      SlotsNone(present, j, m);
    } else {
      SlotsBits(present, j, k - 1, m);
      SlotsStep(present, j, k, m);
    }
  }

  /** A byte with no slot filled in yet has none set. */
  lemma SlotsNone(present: seq<bool>, j: nat, m: nat)
    requires m < 8
    ensures !SlotSet(BvOf(Slots(present, j, 0)), m)
  {
    assert Slots(present, j, 0) == 0;
    ZeroByteHasNoSlots(m);
  }

  /** Filling in slot `k - 1` sets that slot when its field is present, and no other. */
  lemma SlotsStep(present: seq<bool>, j: nat, k: nat, m: nat)
    requires 0 < k <= 8 && m < 8
    ensures SlotSet(BvOf(Slots(present, j, k)), m) ==
      (SlotSet(BvOf(Slots(present, j, k - 1)), m) || (m == k - 1 && 8 * j + m < |present| && present[8 * j + m]))
  {
    if 8 * j + (k - 1) < |present| && present[8 * j + (k - 1)] {
      SetByteSlot(Slots(present, j, k - 1), k - 1, m);
    }
  }

  /** Field `i` is marked in the bitmap exactly when it is present. */
  lemma BitmapBit(present: seq<bool>, i: nat)
    requires i < |present|
    ensures Present(Bitmap(present), i) == present[i]
  {
    var j, m := i / 8, i % 8;
    assert 8 * j + m == i;
    assert Bitmap(present)[j] == Slots(present, j, 8);
    SlotsBits(present, j, 8, m);
  }

  /** Reading the bitmap back gives the presence of every field. */
  lemma FlagsOfBitmap(present: seq<bool>)
    ensures Flags(Bitmap(present), |present|) == present
  {
    forall i | 0 <= i < |present|
      ensures Flags(Bitmap(present), |present|)[i] == present[i]
    {
      BitmapBit(present, i);
    }
  }

  /** Two bytes with the same slots are the same byte. */
  lemma SameSlotsSameByte(a: byte, b: byte)
    requires forall m :: 0 <= m < 8 ==> SlotSet(BvOf(a), m) == SlotSet(BvOf(b), m)
    ensures a == b
  {
    var x, y := BvOf(a), BvOf(b);
    forall m | 0 <= m < 8
      ensures (x & Mask(m) != 0) == (y & Mask(m) != 0)
    {
      SlotSetIsMask(x, m);
      SlotSetIsMask(y, m);
    }
    SameMaskedBits(x, y);
  }

  lemma SameMaskedBits(x: bv8, y: bv8)
    requires forall m :: 0 <= m < 8 ==> (x & Mask(m) != 0) == (y & Mask(m) != 0)
    ensures x == y
  {
    assert (x & 0x80 != 0) == (y & 0x80 != 0) by { assert Mask(0) == 0x80; }
    assert (x & 0x40 != 0) == (y & 0x40 != 0) by { assert Mask(1) == 0x40; }
    assert (x & 0x20 != 0) == (y & 0x20 != 0) by { assert Mask(2) == 0x20; }
    assert (x & 0x10 != 0) == (y & 0x10 != 0) by { assert Mask(3) == 0x10; }
    assert (x & 0x08 != 0) == (y & 0x08 != 0) by { assert Mask(4) == 0x08; }
    assert (x & 0x04 != 0) == (y & 0x04 != 0) by { assert Mask(5) == 0x04; }
    assert (x & 0x02 != 0) == (y & 0x02 != 0) by { assert Mask(6) == 0x02; }
    assert (x & 0x01 != 0) == (y & 0x01 != 0) by { assert Mask(7) == 0x01; }
  }

  /** Slot `i % 8` of byte `i / 8` is the only one that names field `i`. */
  lemma SlotOf(i: nat, j: nat, m: nat)
    requires m < 8
    ensures (8 * j + m == i) == (j == i / 8 && m == i % 8)
  {
  }

  /**
   * The loop of `Row::SerializeTo` that builds the bitmap: a zeroed array of
   * `ceil(n / 8)` bytes, then `|=` of the field's mask for every field that is
   * not null.
   */
  method Build(present: seq<bool>) returns (bm: array<byte>)
    ensures fresh(bm) && bm[..] == Bitmap(present)
  {
    var size := (|present| + 7) / 8;
    bm := new byte[size](_ => 0);
    forall j, m | 0 <= j < size && 0 <= m < 8
      ensures !SlotSet(BvOf(bm[j]), m)
    {
      assert bm[j] == 0;
      ZeroByteHasNoSlots(m);
    }
    var count := 0;
    while count < |present|
      invariant count <= |present| && bm.Length == size
      invariant forall j, m :: 0 <= j < size && 0 <= m < 8 ==> SlotSet(BvOf(bm[j]), m) == (8 * j + m < count && present[8 * j + m])
    {
      ghost var before := bm[..];
      if present[count] {
        bm[count / 8] := SetMask(bm[count / 8], Mask(count % 8));
      }
      forall j, m | 0 <= j < size && 0 <= m < 8
        ensures SlotSet(BvOf(bm[j]), m) == (8 * j + m < count + 1 && present[8 * j + m])
      {
        SlotOf(count, j, m);
        if present[count] && j == count / 8 {
          SetByteSlot(before[j], count % 8, m);
        }
      }
      count := count + 1;
    }
    forall j | 0 <= j < size
      ensures bm[j] == Bitmap(present)[j]
    {
      forall m | 0 <= m < 8
        ensures SlotSet(BvOf(bm[j]), m) == SlotSet(BvOf(Bitmap(present)[j]), m)
      {
        SlotsBits(present, j, 8, m);
      }
      SameSlotsSameByte(bm[j], Bitmap(present)[j]);
    }
  }
}
