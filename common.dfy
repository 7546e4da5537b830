/**
 * Definitions shared by the storage core: page ids, the page size, zero pages,
 * optional results, and the little-endian 32-bit byte layout that every
 * `memcpy` of a `uint32_t` produces on the platforms the engine targets.
 */
module Common {

  /** Page ids (`page_id_t`) are signed 32-bit integers; -1 is the invalid id. */
  type PageId = int

  const INVALID_PAGE_ID: PageId := -1

  /** Bytes in one disk page. */
  const PAGE_SIZE: nat := 4096

  /** 2^32: every `uint32_t` field is a natural number below this bound. */
  const U32_LIMIT: nat := 0x1_0000_0000

  /** A byte of a page buffer (`char` in the engine), as its unsigned value. */
  newtype byte = x: int | 0 <= x < 256

  type Page = seq<byte>

  /** A page of `PAGE_SIZE` zero bytes: what a read past the end of the file yields. */
  function ZeroPage(): (p: Page)
    ensures |p| == PAGE_SIZE
    ensures forall i :: 0 <= i < |p| ==> p[i] == 0
  {
    seq(PAGE_SIZE, _ => 0)
  }

  datatype Option<T> = None | Some(value: T)

  /** The four bytes `memcpy(buf, &x, 4)` writes for a `uint32_t` x, least significant first. */
  function EncodeU32(x: nat): (s: seq<byte>)
    requires x < U32_LIMIT
    ensures |s| == 4
  {
    [(x % 256) as byte, ((x / 256) % 256) as byte, ((x / 65536) % 256) as byte, (x / 16777216) as byte]
  }

  /** The `uint32_t` that `memcpy(&x, buf, 4)` reads from the first four bytes of `s`. */
  function DecodeU32(s: seq<byte>): (x: nat)
    requires |s| >= 4
    ensures x < U32_LIMIT
  {
    s[0] as int + 256 * (s[1] as int) + 65536 * (s[2] as int) + 16777216 * (s[3] as int)
  }

  lemma Div65536(x: nat, q: nat, r: nat)
    requires x == 65536 * q + r && r < 65536
    ensures x / 65536 == q
  {
  }

  lemma Div16777216(x: nat, q: nat, r: nat)
    requires x == 16777216 * q + r && r < 16777216
    ensures x / 16777216 == q
  {
  }

  /** Reading back the four bytes written for a `uint32_t` yields the same value. */
  lemma {:induction false} U32RoundTrip(x: nat)
    requires x < U32_LIMIT
    ensures DecodeU32(EncodeU32(x)) == x
  {
    var q1 := x / 256;
    var q2 := q1 / 256;
    var d := q2 / 256;
    var a, b, c := x % 256, q1 % 256, q2 % 256;
    assert x == 65536 * q2 + (a + 256 * b);
    Div65536(x, q2, a + 256 * b);
    assert x == 16777216 * d + (a + 256 * b + 65536 * c);
    Div16777216(x, d, a + 256 * b + 65536 * c);
  }

  lemma DecodeU32Prefix(s: seq<byte>, t: seq<byte>)
    requires |s| >= 4
    ensures DecodeU32(s + t) == DecodeU32(s)
  {
    assert (s + t)[..4] == s[..4];
  }

  /** The single byte `memcpy` writes for a C++ `bool`. */
  function EncodeBool(b: bool): byte
  {
    if b then 1 else 0
  }

  /** A byte read back as a `bool`: any non-zero byte is true. */
  function DecodeBool(b: byte): bool
  {
    b != 0
  }

  /** Bit mask `1 << (7 - k)` of slot `k` (0..7) inside a byte, most significant bit first. */
  function Mask(k: nat): bv8
    requires k < 8
  {
    if k == 0 then 0x80 else if k == 1 then 0x40 else if k == 2 then 0x20 else if k == 3 then 0x10
    else if k == 4 then 0x08 else if k == 5 then 0x04 else if k == 6 then 0x02 else 0x01
  }

  /**
   * The bits of byte `b` (the cast `b as bv8`), built by counting up so that
   * proofs about bytes only ever convert from bit-vectors to integers.
   */
  function BvOf(b: byte): (v: bv8)
    ensures v as int == b as int
    decreases b
  {
    if b == 0 then 0 else BvOf(b - 1) + 1
  }

  /** Converting bits to a byte and back gives the same bits. */
  lemma BvOfInverse(v: bv8)
    ensures BvOf(v as int as byte) == v
  {
  }

  /** `b | m` on the bits of a byte. */
  function SetMask(b: byte, m: bv8): byte
  {
    (BvOf(b) | m) as int as byte
  }

  /** `b & ~m` on the bits of a byte. */
  function ClearMask(b: byte, m: bv8): byte
  {
    (BvOf(b) & !m) as int as byte
  }

  /**
   * Whether slot `k` of byte `b` is one: shifted left `k` places, the slot
   * reaches the top bit. The recursion keeps the bit-vector body folded in
   * proofs that only move slots around.
   */
  predicate SlotSet(b: bv8, k: nat)
    requires k < 8
    decreases k
  {
    if k == 0 then b & 0x80 != 0 else SlotSet(b << 1, k - 1)
  }

  lemma ShiftMask(b: bv8, k: nat)
    requires 0 < k < 8
    ensures ((b << 1) & Mask(k - 1) != 0) == (b & Mask(k) != 0)
  {
  }

  /** `SlotSet` is the mask test `b & (1 << (7 - k))` of the engine. */
  lemma {:induction false} SlotSetIsMask(b: bv8, k: nat)
    requires k < 8
    ensures SlotSet(b, k) == (b & Mask(k) != 0)
    decreases k
  {
    if k > 0 {
      SlotSetIsMask(b << 1, k - 1);
      ShiftMask(b, k);
    }
  }

  lemma MaskSetFacts(b: bv8, m: nat, j: nat)
    requires m < 8 && j < 8
    ensures ((b | Mask(m)) & Mask(j) != 0) == (j == m || b & Mask(j) != 0)
  {
  }

  lemma MaskClearFacts(b: bv8, m: nat, j: nat)
    requires m < 8 && j < 8
    ensures ((b & !Mask(m)) & Mask(j) != 0) == (j != m && b & Mask(j) != 0)
  {
  }

  /** `b | (1 << (7 - m))` sets slot `m` and leaves the other slots alone. */
  lemma SetByteSlot(b: byte, m: nat, k: nat)
    requires m < 8 && k < 8
    ensures SlotSet(BvOf(SetMask(b, Mask(m))), k) == (k == m || SlotSet(BvOf(b), k))
  {
    BvOfInverse(BvOf(b) | Mask(m));
    SlotSetIsMask(BvOf(b) | Mask(m), k);
    SlotSetIsMask(BvOf(b), k);
    MaskSetFacts(BvOf(b), m, k);
  }

  /** `b & ~(1 << (7 - m))` clears slot `m` and leaves the other slots alone. */
  lemma ClearByteSlot(b: byte, m: nat, k: nat)
    requires m < 8 && k < 8
    ensures SlotSet(BvOf(ClearMask(b, Mask(m))), k) == (k != m && SlotSet(BvOf(b), k))
  {
    BvOfInverse(BvOf(b) & !Mask(m));
    SlotSetIsMask(BvOf(b) & !Mask(m), k);
    SlotSetIsMask(BvOf(b), k);
    MaskClearFacts(BvOf(b), m, k);
  }

  lemma ZeroByteHasNoSlots(k: nat)
    requires k < 8
    ensures !SlotSet(BvOf(0), k)
  {
    SlotSetIsMask(0, k);
  }

  /** Slot by slot, `t` is `s` with `x` put in at `index`. */
  lemma ShiftedIn<T>(t: seq<T>, s: seq<T>, index: nat, x: T)
    requires index <= |s| && |t| == |s| + 1 && t[index] == x
    requires forall j :: 0 <= j < index ==> t[j] == s[j]
    requires forall j :: index < j < |t| ==> t[j] == s[j - 1]
    ensures t == s[..index] + [x] + s[index..]
  {
  }

  /** Slot by slot, `t` is `s` with the element at `index` taken out. */
  lemma ShiftedOut<T>(t: seq<T>, s: seq<T>, index: nat)
    requires index < |s| && |t| + 1 == |s|
    requires forall j :: 0 <= j < index ==> t[j] == s[j]
    requires forall j :: index <= j < |t| ==> t[j] == s[j + 1]
    ensures t == s[..index] + s[index + 1..]
  {
  }

  /** Taking out the element just put in between two sequences joins them again. */
  lemma DropInserted<T>(a: seq<T>, x: T, b: seq<T>)
    ensures var r := a + [x] + b; r[|a|] == x && r[..|a|] + r[|a| + 1..] == a + b
  {
    var r := a + [x] + b;
    assert r[..|a|] == a && r[|a| + 1..] == b;
  }
}
