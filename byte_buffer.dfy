/**
 * The raw `char *` buffers the serialisers write with `memcpy` and a running
 * offset.  A serialiser that started at `off` over the buffer contents `start`
 * and has written `acc` so far leaves the buffer as `Written(start, off, acc)`:
 * the bytes before `off` and after the written stretch are untouched.
 */
module ByteBuffers {
  import opened Common

  /** The buffer `start` after `acc` was written at `off`. */
  function Written(start: seq<byte>, off: nat, acc: seq<byte>): (r: seq<byte>)
    requires off + |acc| <= |start|
    ensures |r| == |start|
  {
    start[..off] + acc + start[off + |acc|..]
  }

  /** `memcpy(buf + pos, data, |data|)`, copied byte by byte. */
  method Put(buf: array<byte>, pos: nat, data: seq<byte>)
    requires pos + |data| <= buf.Length
    modifies buf
    ensures buf[..] == Written(old(buf[..]), pos, data)
  {
    var i := 0;
    while i < |data|
      invariant i <= |data|
      invariant buf[..] == Written(old(buf[..]), pos, data[..i])
    {
      buf[pos + i] := data[i];
      i := i + 1;
    }
    assert data[..i] == data;
  }

  /**
   * Writing `data` at the running offset `pos == off + |acc|` extends what has
   * been written by `data`.
   */
  method Append(buf: array<byte>, ghost start: seq<byte>, off: nat, ghost acc: seq<byte>, pos: nat, data: seq<byte>)
    requires pos == off + |acc| && pos + |data| <= |start| && buf[..] == Written(start, off, acc)
    modifies buf
    ensures buf[..] == Written(start, off, acc + data)
  {
    Put(buf, pos, data);
    WrittenAfter(start, off, acc, data);
  }

  /** Two `uint32_t` written one after the other at `pos`. */
  method PutWords(buf: array<byte>, pos: nat, x: nat, y: nat)
    requires pos + 8 <= buf.Length && x < U32_LIMIT && y < U32_LIMIT
    modifies buf
    ensures buf[..] == Written(old(buf[..]), pos, EncodeU32(x) + EncodeU32(y))
  {
    Put(buf, pos, EncodeU32(x));
    Append(buf, old(buf[..]), pos, EncodeU32(x), pos + 4, EncodeU32(y));
  }

  /** Writing `data` right after `acc` is writing `acc + data`. */
  lemma WrittenAfter(start: seq<byte>, off: nat, acc: seq<byte>, data: seq<byte>)
    requires off + |acc| + |data| <= |start|
    ensures Written(Written(start, off, acc), off + |acc|, data) == Written(start, off, acc + data)
  {
    var w := Written(start, off, acc);
    assert w[..off + |acc|] == start[..off] + acc;
    assert w[off + |acc| + |data|..] == start[off + |acc + data|..];
  }

  /** `memcpy(&x, buf + pos, 4)` of a `uint32_t`. */
  method ReadU32(buf: array<byte>, pos: nat) returns (x: nat)
    requires pos + 4 <= buf.Length
    ensures x < U32_LIMIT && x == DecodeU32(buf[pos..])
  {
    x := buf[pos] as nat + 256 * (buf[pos + 1] as nat) + 65536 * (buf[pos + 2] as nat) + 16777216 * (buf[pos + 3] as nat);
  }

  /** The `uint32_t` written in the middle of a buffer is read back from its offset. */
  lemma DecodeU32At(a: seq<byte>, x: nat, b: seq<byte>)
    requires x < U32_LIMIT
    ensures DecodeU32((a + EncodeU32(x) + b)[|a|..]) == x
  {
    assert (a + EncodeU32(x) + b)[|a|..] == EncodeU32(x) + b;
    DecodeU32Prefix(EncodeU32(x), b);
    U32RoundTrip(x);
  }

  /** A `uint32_t` at the front of a buffer is read back, and the rest follows it. */
  lemma ReadFront(x: nat, b: seq<byte>)
    requires x < U32_LIMIT
    ensures DecodeU32(EncodeU32(x) + b) == x && (EncodeU32(x) + b)[4..] == b
  {
    DecodeU32Prefix(EncodeU32(x), b);
    U32RoundTrip(x);
  }

  /** Two `uint32_t` at the front of a buffer: the second is read back from offset 4, and the rest follows at 8. */
  lemma TwoWords(m: nat, x: nat, body: seq<byte>, rest: seq<byte>)
    requires m < U32_LIMIT && x < U32_LIMIT
    ensures DecodeU32((EncodeU32(m) + EncodeU32(x) + body + rest)[4..]) == x
    ensures (EncodeU32(m) + EncodeU32(x) + body + rest)[8..] == body + rest
  {
    var t := EncodeU32(m) + EncodeU32(x) + body + rest;
    assert t[4..] == EncodeU32(x) + (body + rest);
    ReadFront(x, body + rest);
  }

  /** 2^31: `int32_t` values lie in [-2^31, 2^31). */
  const I32_LIMIT: int := 0x8000_0000

  predicate IsI32(x: int)
  {
    -I32_LIMIT <= x < I32_LIMIT
  }

  /** The four bytes of an `int32_t` (two's complement, least significant first). */
  function EncodeI32(x: int): (s: seq<byte>)
    requires IsI32(x)
    ensures |s| == 4
  {
    EncodeU32(if x < 0 then x + U32_LIMIT else x)
  }

  /** The `int32_t` read from the first four bytes of `s`. */
  function DecodeI32(s: seq<byte>): (x: int)
    requires |s| >= 4
    ensures IsI32(x)
  {
    var u := DecodeU32(s);
    if u < I32_LIMIT then u else u - U32_LIMIT
  }

  /** An `int32_t` written in the middle of a buffer is read back from its offset. */
  lemma DecodeI32At(a: seq<byte>, x: int, b: seq<byte>)
    requires IsI32(x)
    ensures DecodeI32((a + EncodeI32(x) + b)[|a|..]) == x
  {
    DecodeU32At(a, if x < 0 then x + U32_LIMIT else x, b);
  }

  /** `memcpy(&x, buf + pos, 4)` of an `int32_t`. */
  method ReadI32(buf: array<byte>, pos: nat) returns (x: int)
    requires pos + 4 <= buf.Length
    ensures x == DecodeI32(buf[pos..])
  {
    var u := ReadU32(buf, pos);
    x := if u < I32_LIMIT then u else u - U32_LIMIT;
  }

  /** Regrouping a concatenation, and dropping its first part. */
  lemma Regroup<T>(a: seq<T>, b: seq<T>, c: seq<T>)
    ensures a + b + c == a + (b + c) && (a + (b + c))[|a|..] == b + c
  {
  }

  /** Three words at the front: each is read back, and the bytes after them are what follows. */
  lemma ThreeWords(a: nat, b: nat, c: nat, body: seq<byte>, rest: seq<byte>)
    requires a < U32_LIMIT && b < U32_LIMIT && c < U32_LIMIT
    ensures var s := EncodeU32(a) + EncodeU32(b) + EncodeU32(c) + body + rest;
      |s| >= 12 && DecodeU32(s) == a && DecodeU32(s[4..]) == b && DecodeU32(s[8..]) == c && s[12..] == body + rest
  {
    var s := EncodeU32(a) + EncodeU32(b) + EncodeU32(c) + body + rest;
    assert s == EncodeU32(a) + (EncodeU32(b) + EncodeU32(c) + body + rest);
    ReadFront(a, EncodeU32(b) + EncodeU32(c) + body + rest);
    TwoWords(a, b, EncodeU32(c) + body, rest);
    assert s[8..] == EncodeU32(c) + (body + rest);
    ReadFront(c, body + rest);
  }

  /** A reader never reports more bytes consumed than it was given. */
  ghost predicate Consumes<T>(read: seq<byte> -> Option<(T, nat)>)
  {
    forall t :: read(t).Some? ==> read(t).value.1 <= |t|
  }

  /**
   * `count` records read one after the other with `read` from the front of
   * `s`, and the bytes consumed; None as soon as one of them cannot be read.
   */
  function ReadMany<T>(read: seq<byte> -> Option<(T, nat)>, s: seq<byte>, count: nat): (r: Option<(seq<T>, nat)>)
    requires Consumes(read)
    ensures r.Some? ==> |r.value.0| == count && r.value.1 <= |s|
    decreases count
  {
    if count == 0 then Some(([], 0))
    else
      var first := read(s);
      if first.None? then None
      else
        var others := ReadMany(read, s[first.value.1..], count - 1);
        if others.None? then None
        else Some(([first.value.0] + others.value.0, first.value.1 + others.value.1))
  }

  /** Records' encodings, one after the other. */
  function Flatten(chunks: seq<seq<byte>>): (r: seq<byte>)
  {
    if chunks == [] then [] else chunks[0] + Flatten(chunks[1..])
  }

  /** The encodings of a list are those of its first `i` records, then those of the others. */
  lemma {:induction false} FlattenSplit(chunks: seq<seq<byte>>, i: nat)
    requires i <= |chunks|
    ensures Flatten(chunks) == Flatten(chunks[..i]) + Flatten(chunks[i..])
  {
    if i > 0 {
      FlattenSplit(chunks[1..], i - 1);
      assert chunks[1..][..i - 1] == chunks[..i][1..];
      assert chunks[1..][i - 1..] == chunks[i..];
    } else {
      assert chunks[..0] == [] && chunks[0..] == chunks;
    }
  }

  /** The encodings of `i + 1` records are those of the first `i` and one more. */
  lemma {:induction false} FlattenSnoc(chunks: seq<seq<byte>>, i: nat)
    requires i < |chunks|
    ensures Flatten(chunks[..i + 1]) == Flatten(chunks[..i]) + chunks[i]
  {
    if i > 0 {
      FlattenSnoc(chunks[1..], i - 1);
      assert chunks[1..][..i] == chunks[..i + 1][1..];
      assert chunks[1..][..i - 1] == chunks[..i][1..];
    } else {
      assert chunks[..1] == [chunks[0]];
    }
  }

  /** `read` reads `chunk` back as `val`, whatever follows it, and consumes exactly the chunk. */
  ghost predicate ReadsBack<T>(read: seq<byte> -> Option<(T, nat)>, chunk: seq<byte>, val: T)
  {
    forall rest :: read(chunk + rest) == Some((val, |chunk|))
  }

  /**
   * When `read` reads every chunk back as its value, reading as many records
   * as there are chunks from their concatenation yields the values and
   * consumes all the chunks.
   */
  lemma {:induction false} ReadManyFlatten<T>(read: seq<byte> -> Option<(T, nat)>, chunks: seq<seq<byte>>, vals: seq<T>, rest: seq<byte>)
    requires Consumes(read) && |chunks| == |vals|
    requires forall i :: 0 <= i < |chunks| ==> ReadsBack(read, chunks[i], vals[i])
    ensures ReadMany(read, Flatten(chunks) + rest, |chunks|) == Some((vals, |Flatten(chunks)|))
  {
    if chunks == [] {
      assert vals == [] && Flatten(chunks) + rest == rest;
    } else {
      var tail := Flatten(chunks[1..]) + rest;
      assert Flatten(chunks) + rest == chunks[0] + tail;
      assert forall i :: 0 <= i < |chunks[1..]| ==> ReadsBack(read, chunks[1..][i], vals[1..][i]) by {
        forall i | 0 <= i < |chunks[1..]| ensures ReadsBack(read, chunks[1..][i], vals[1..][i]) {
          assert chunks[1..][i] == chunks[i + 1] && vals[1..][i] == vals[i + 1];
        }
      }
      ReadManyFlatten(read, chunks[1..], vals[1..], rest);
      ReadManyStep(read, chunks[0], vals[0], tail, |chunks| - 1, vals[1..], |Flatten(chunks[1..])|);
      assert [vals[0]] + vals[1..] == vals;
    }
  }

  /** One record read back, then the rest: the values are joined and the bytes added up. */
  lemma ReadManyStep<T>(read: seq<byte> -> Option<(T, nat)>, chunk: seq<byte>, val: T, tail: seq<byte>, n: nat, vals: seq<T>, m: nat)
    requires Consumes(read) && ReadsBack(read, chunk, val)
    requires ReadMany(read, tail, n) == Some((vals, m))
    ensures ReadMany(read, chunk + tail, n + 1) == Some(([val] + vals, |chunk| + m))
  {
    assert read(chunk + tail) == Some((val, |chunk|));
    assert (chunk + tail)[|chunk|..] == tail;
  }

  /** The first `i` records of `s` were read, as `done`, from its first `k` bytes. */
  ghost predicate ReadFirst<T>(read: seq<byte> -> Option<(T, nat)>, s: seq<byte>, i: nat, done: seq<T>, k: nat)
    requires Consumes(read)
  {
    var r := ReadMany(read, s, i);
    r.Some? && r.value.0 == done && r.value.1 == k
  }

  /** One more record read after the first `i` joins them. */
  lemma {:induction false} ReadMore<T>(read: seq<byte> -> Option<(T, nat)>, s: seq<byte>, i: nat, done: seq<T>, k: nat, next: Option<(T, nat)>)
    requires Consumes(read) && ReadFirst(read, s, i, done, k)
    requires k <= |s| && read(s[k..]) == next && next.Some?
    ensures ReadFirst(read, s, i + 1, done + [next.value.0], k + next.value.1)
    decreases i
  {
    if i > 0 {
      var first := read(s);
      var t := s[first.value.1..];
      var others := ReadMany(read, t, i - 1);
      assert t[others.value.1..] == s[k..];
      ReadMore(read, t, i - 1, others.value.0, others.value.1, next);
      assert [first.value.0] + (others.value.0 + [next.value.0]) == done + [next.value.0];
    } else {
      assert s[k..] == s;
    }
  }

  /** A record that cannot be read after the first `i` makes reading any larger count fail. */
  lemma {:induction false} ReadStop<T>(read: seq<byte> -> Option<(T, nat)>, s: seq<byte>, i: nat, done: seq<T>, k: nat, num: nat)
    requires Consumes(read) && i < num && ReadFirst(read, s, i, done, k)
    requires k <= |s| && read(s[k..]).None?
    ensures ReadMany(read, s, num).None?
    decreases i
  {
    if i > 0 {
      var first := read(s);
      var t := s[first.value.1..];
      var others := ReadMany(read, t, i - 1);
      assert t[others.value.1..] == s[k..];
      ReadStop(read, t, i - 1, others.value.0, others.value.1, num - 1);
    } else {
      assert s[k..] == s;
    }
  }

  /** The sum of `size` over `xs`. */
  function SumOf<T>(size: T -> nat, xs: seq<T>): nat
  {
    if xs == [] then 0 else size(xs[0]) + SumOf(size, xs[1..])
  }

  /** When every record read consumes its own size, the records read consume the sum of their sizes. */
  lemma {:induction false} ReadManySize<T>(read: seq<byte> -> Option<(T, nat)>, size: T -> nat, s: seq<byte>, count: nat)
    requires Consumes(read)
    requires forall t :: read(t).Some? ==> read(t).value.1 == size(read(t).value.0)
    ensures ReadMany(read, s, count).Some? ==> ReadMany(read, s, count).value.1 == SumOf(size, ReadMany(read, s, count).value.0)
    decreases count
  {
    if count > 0 && read(s).Some? {
      var k := read(s).value.1;
      ReadManySize(read, size, s[k..], count - 1);
      if ReadMany(read, s, count).Some? {
        var xs := ReadMany(read, s, count).value.0;
        assert xs[1..] == ReadMany(read, s[k..], count - 1).value.0;
      }
    }
  }
}
