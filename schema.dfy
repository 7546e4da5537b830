/**
 * A table schema and its byte layout: magic number, column count, each
 * column's encoding in order, and the `is_manage_` flag (one byte).
 */
module Schemas {
  import opened Common
  import opened ByteBuffers
  import Columns

  /** `SCHEMA_MAGIC_NUM`. */
  const SCHEMA_MAGIC_NUM: nat := 200715

  datatype Schema = Schema(columns: seq<Columns.Column>, isManage: bool)

  /** Every column fits its layout. */
  predicate AllFit(cols: seq<Columns.Column>)
  {
    forall i :: 0 <= i < |cols| ==> Columns.Fits(cols[i])
  }

  /** Every column fits its layout and the count fits its `uint32_t`. */
  predicate Fits(s: Schema)
  {
    |s.columns| < U32_LIMIT && AllFit(s.columns)
  }

  /** The bytes of the columns, one `GetSerializedSize` after the other. */
  function ColumnsSize(cols: seq<Columns.Column>): nat
  {
    SumOf(Columns.SerializedSize, cols)
  }

  /** `GetSerializedSize`: two `uint32_t`, the flag and the columns. */
  function SerializedSize(s: Schema): nat
  {
    2 * 4 + 1 + ColumnsSize(s.columns)
  }

  /** Each column's encoding. */
  function Chunks(cols: seq<Columns.Column>): (r: seq<seq<byte>>)
    requires AllFit(cols)
    ensures |r| == |cols| && forall i :: 0 <= i < |cols| ==> r[i] == Columns.Encode(cols[i])
  {
    seq(|cols|, i requires 0 <= i < |cols| => Columns.Encode(cols[i]))
  }

  /** The columns' encodings, one after the other. */
  function ColumnsBytes(cols: seq<Columns.Column>): (r: seq<byte>)
    requires AllFit(cols)
    ensures |r| == ColumnsSize(cols)
  {
    ChunksSize(cols);
    Flatten(Chunks(cols))
  }

  /** The bytes `SerializeTo` writes. */
  function Encode(s: Schema): (r: seq<byte>)
    requires Fits(s)
    ensures |r| == SerializedSize(s)
  {
    EncodeU32(SCHEMA_MAGIC_NUM) + EncodeU32(|s.columns|) + (ColumnsBytes(s.columns) + [EncodeBool(s.isManage)])
  }

  /** The columns' encodings take `ColumnsSize` bytes. */
  lemma {:induction false} ChunksSize(cols: seq<Columns.Column>)
    requires AllFit(cols)
    ensures |Flatten(Chunks(cols))| == ColumnsSize(cols)
  {
    if cols != [] {
      ChunksSize(cols[1..]);
      assert Chunks(cols)[1..] == Chunks(cols[1..]);
    }
  }

  /** The column reader never claims more bytes than it is given, and claims its column's size. */
  lemma ColumnReader()
    ensures Consumes(Columns.Decode)
    ensures forall t :: Columns.Decode(t).Some? ==> Columns.Decode(t).value.1 == Columns.SerializedSize(Columns.Decode(t).value.0)
  {
  }

  /**
   * `DeserializeFrom`: the schema read from the front of `s` and the bytes
   * consumed, `GetSerializedSize` of the schema read.  A wrong magic number
   * is only logged, so it is not checked.
   */
  function Decode(s: seq<byte>): (r: Option<(Schema, nat)>)
    ensures r.Some? ==> r.value.1 == SerializedSize(r.value.0) && r.value.1 <= |s|
  {
    if |s| < 8 then None
    else
      ColumnReader();
      ReadManySize(Columns.Decode, Columns.SerializedSize, s[8..], DecodeU32(s[4..]));
      var cols := ReadMany(Columns.Decode, s[8..], DecodeU32(s[4..]));
      if cols.None? || |s| < 8 + cols.value.1 + 1 then None
      else Some((Schema(cols.value.0, DecodeBool(s[8 + cols.value.1])), 8 + cols.value.1 + 1))
  }

  /**
   * The round trip: a schema whose columns the constructors can build comes
   * back with the same columns in the same order and the same flag, and
   * `DeserializeFrom` consumes exactly `GetSerializedSize` bytes.
   */
  lemma RoundTrip(s: Schema, rest: seq<byte>)
    requires Fits(s) && forall i :: 0 <= i < |s.columns| ==> Columns.ColumnOk(s.columns[i])
    ensures Decode(Encode(s) + rest) == Some((s, SerializedSize(s)))
  {
    var bytes := Encode(s) + rest;
    var tail := [EncodeBool(s.isManage)] + rest;
    Layout(s, rest);
    ColumnsRoundTrip(s.columns, tail);
    assert bytes[8..][ColumnsSize(s.columns)] == EncodeBool(s.isManage);
  }

  /** Where the count, the columns and the flag sit in the encoding. */
  lemma Layout(s: Schema, rest: seq<byte>)
    requires Fits(s)
    ensures |Encode(s) + rest| >= 8 + ColumnsSize(s.columns) + 1
    ensures DecodeU32((Encode(s) + rest)[4..]) == |s.columns|
    ensures (Encode(s) + rest)[8..] == ColumnsBytes(s.columns) + ([EncodeBool(s.isManage)] + rest)
  {
    var body := ColumnsBytes(s.columns) + [EncodeBool(s.isManage)];
    TwoWords(SCHEMA_MAGIC_NUM, |s.columns|, body, rest);
    assert body + rest == ColumnsBytes(s.columns) + ([EncodeBool(s.isManage)] + rest);
  }

  /** The columns are read back, in order, from their encodings. */
  lemma ColumnsRoundTrip(cols: seq<Columns.Column>, rest: seq<byte>)
    requires AllFit(cols) && forall i :: 0 <= i < |cols| ==> Columns.ColumnOk(cols[i])
    ensures ReadMany(Columns.Decode, ColumnsBytes(cols) + rest, |cols|) == Some((cols, ColumnsSize(cols)))
  {
    var chunks := Chunks(cols);
    forall i | 0 <= i < |chunks|
      ensures ReadsBack(Columns.Decode, chunks[i], cols[i])
    {
      forall r {
        Columns.RoundTrip(cols[i], r);
      }
    }
    ColumnReader();
    ReadManyFlatten(Columns.Decode, chunks, cols, rest);
  }

  /** A wrong magic number does not stop `DeserializeFrom`: the bytes after it are read the same. */
  lemma MagicNotChecked(s: seq<byte>, magic: nat)
    requires |s| >= 4 && magic < U32_LIMIT
    ensures Decode(EncodeU32(magic) + s[4..]) == Decode(s)
  {
    var t := EncodeU32(magic) + s[4..];
    assert t[4..] == s[4..];
    if |s| >= 8 {
      assert t[8..] == s[8..];
    }
  }

  /**
   * `SerializeTo`: the magic number and count, each column through its own
   * `SerializeTo`, then the flag; returns the bytes written.
   */
  method SerializeTo(s: Schema, buf: array<byte>, off: nat) returns (n: nat)
    requires Fits(s) && off + SerializedSize(s) <= buf.Length
    modifies buf
    ensures n == SerializedSize(s)
    ensures buf[..] == Written(old(buf[..]), off, Encode(s))
  {
    ghost var start := buf[..];
    PutWords(buf, off, SCHEMA_MAGIC_NUM, |s.columns|);
    ghost var afterHead := buf[..];
    var written := WriteColumns(s.columns, buf, off + 8);
    Append(buf, afterHead, off + 8, ColumnsBytes(s.columns), off + 8 + written, [EncodeBool(s.isManage)]);
    WrittenAfter(start, off, EncodeU32(SCHEMA_MAGIC_NUM) + EncodeU32(|s.columns|), ColumnsBytes(s.columns) + [EncodeBool(s.isManage)]);
    n := 8 + written + 1;
  }

  /** The loop of `SerializeTo`: each column through its own `SerializeTo`, one after the other. */
  method WriteColumns(cols: seq<Columns.Column>, buf: array<byte>, off: nat) returns (n: nat)
    requires AllFit(cols) && off + ColumnsSize(cols) <= buf.Length
    modifies buf
    ensures n == ColumnsSize(cols)
    ensures buf[..] == Written(old(buf[..]), off, ColumnsBytes(cols))
  {
    ghost var start := buf[..];
    ghost var chunks := Chunks(cols);
    ChunksSize(cols);
    n := 0;
    var i := 0;
    assert chunks[..0] == [];
    assert buf[..] == Written(start, off, Flatten(chunks[..0]));
    while i < |cols|
      invariant i <= |cols| && |start| == buf.Length
      invariant n == |Flatten(chunks[..i])| <= |Flatten(chunks)|
      invariant buf[..] == Written(start, off, Flatten(chunks[..i]))
    {
      FlattenSnoc(chunks, i);
      FlattenSplit(chunks, i + 1);
      var written := Columns.SerializeTo(cols[i], buf, off + n);
      WrittenAfter(start, off, Flatten(chunks[..i]), chunks[i]);
      n := n + written;
      i := i + 1;
    }
    assert chunks[..i] == chunks;
  }

  /** `DeserializeFrom`: reads the count, then that many columns, then the flag. */
  method DeserializeFrom(buf: array<byte>, off: nat) returns (r: Option<(Schema, nat)>)
    requires off <= buf.Length
    ensures r == Decode(buf[off..])
  {
    ghost var s := buf[off..];
    if buf.Length - off < 8 {
      return None;
    }
    var magic := ReadU32(buf, off);
    var num := ReadU32(buf, off + 4);
    assert s[4..] == buf[off + 4..];
    assert s[8..] == buf[off + 8..];
    var cols := ReadColumns(buf, off + 8, num);
    if cols.None? || buf.Length - off < 8 + cols.value.1 + 1 {
      return None;
    }
    var isManage := DecodeBool(buf[off + 8 + cols.value.1]);
    return Some((Schema(cols.value.0, isManage), 8 + cols.value.1 + 1));
  }

  /** The loop of `DeserializeFrom`: `num` columns, each through its own `DeserializeFrom`. */
  method ReadColumns(buf: array<byte>, pos: nat, num: nat) returns (r: Option<(seq<Columns.Column>, nat)>)
    requires pos <= buf.Length
    ensures Consumes(Columns.Decode) && r == ReadMany(Columns.Decode, buf[pos..], num)
  {
    ColumnReader();
    ghost var s := buf[pos..];
    var cols: seq<Columns.Column> := [];
    var size: nat := 0;
    var i := 0;
    while i < num
      invariant i <= num && pos + size <= buf.Length
      invariant ReadFirst(Columns.Decode, s, i, cols, size)
    {
      var c := ReadColumn(buf, pos, s, i, cols, size, num);
      if c.None? {
        return None;
      }
      cols := cols + [c.value.0];
      size := size + c.value.1;
      i := i + 1;
    }
    return Some((cols, size));
  }

  /** One pass of the loop of `DeserializeFrom`: the next column, after the first `i`. */
  method ReadColumn(buf: array<byte>, pos: nat, ghost s: seq<byte>, ghost i: nat, ghost cols: seq<Columns.Column>, size: nat, ghost num: nat)
    returns (c: Option<(Columns.Column, nat)>)
    requires pos + size <= buf.Length && s == buf[pos..] && i < num
    requires Consumes(Columns.Decode) && ReadFirst(Columns.Decode, s, i, cols, size)
    ensures c.None? ==> ReadMany(Columns.Decode, s, num).None?
    ensures c.Some? ==> pos + size + c.value.1 <= buf.Length && ReadFirst(Columns.Decode, s, i + 1, cols + [c.value.0], size + c.value.1)
  {
    c := Columns.DeserializeFrom(buf, pos + size);
    assert buf[pos + size..] == s[size..];
    if c.None? {
      ReadStop(Columns.Decode, s, i, cols, size, num);
    } else {
      ReadMore(Columns.Decode, s, i, cols, size, c);
    }
  }
}
