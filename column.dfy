/**
 * A column of a table schema and its byte layout: magic number, name length,
 * name bytes, type id, length, table index, nullable flag and unique flag.
 * Every `uint32_t` and the type id take four bytes; each flag one byte.
 */
module Columns {
  import opened Common
  import opened ByteBuffers

  /** `COLUMN_MAGIC_NUM`. */
  const COLUMN_MAGIC_NUM: nat := 210928

  /** The value types a column can hold (`TypeId`, without `kTypeInvalid`). */
  datatype TypeId = Int | Float | Char

  /** The number a `TypeId` is stored as. */
  function TypeCode(t: TypeId): (x: nat)
    ensures 0 < x < U32_LIMIT
  {
    match t
    case Int => 1
    case Float => 2
    case Char => 3
  }

  /** The type a stored number names; none for `kTypeInvalid` and unknown numbers. */
  function TypeOfCode(x: nat): (t: Option<TypeId>)
    ensures t.Some? <==> 1 <= x <= 3
    ensures t.Some? ==> TypeCode(t.value) == x
  {
    if x == 1 then Some(Int) else if x == 2 then Some(Float) else if x == 3 then Some(Char) else None
  }

  datatype Column = Column(name: seq<byte>, typ: TypeId, len: nat, tableInd: nat, nullable: bool, unique: bool)

  /** Every stored number fits its `uint32_t`. */
  predicate Fits(c: Column)
  {
    |c.name| < U32_LIMIT && c.len < U32_LIMIT && c.tableInd < U32_LIMIT
  }

  /** A column the constructors can build: a non-CHAR column's length is that of its type. */
  predicate ColumnOk(c: Column)
  {
    Fits(c) && (c.typ != Char ==> c.len == 4)
  }

  /**
   * The constructor for INT and FLOAT columns: CHAR needs the other one, and
   * the length is the size of the type (`int32_t` and `float`, four bytes).
   */
  function NewColumn(name: seq<byte>, typ: TypeId, index: nat, nullable: bool, unique: bool): (c: Column)
    requires typ != Char
    ensures c.name == name && c.typ == typ && c.tableInd == index && c.nullable == nullable && c.unique == unique
    ensures |name| < U32_LIMIT && index < U32_LIMIT ==> ColumnOk(c)
  {
    Column(name, typ, 4, index, nullable, unique)
  }

  /** The constructor for CHAR columns, which takes the length. */
  function NewCharColumn(name: seq<byte>, length: nat, index: nat, nullable: bool, unique: bool): (c: Column)
    ensures c.name == name && c.typ == Char && c.len == length && c.tableInd == index
    ensures c.nullable == nullable && c.unique == unique
    ensures |name| < U32_LIMIT && length < U32_LIMIT && index < U32_LIMIT ==> ColumnOk(c)
  {
    Column(name, Char, length, index, nullable, unique)
  }

  /** `GetSerializedSize`: four `uint32_t`, the name, the type id and two flags. */
  function SerializedSize(c: Column): (n: nat)
    ensures n >= 22
  {
    4 * 4 + |c.name| + 4 + 2
  }

  /** The bytes `SerializeTo` writes: magic, name length, name, then `Trailer`. */
  function Encode(c: Column): (s: seq<byte>)
    requires Fits(c)
    ensures |s| == SerializedSize(c)
  {
    EncodeU32(COLUMN_MAGIC_NUM) + EncodeU32(|c.name|) + c.name + Trailer(c)
  }

  /** The fourteen bytes after the name: type id, length, table index and the two flags. */
  function Trailer(c: Column): (s: seq<byte>)
    requires Fits(c)
    ensures |s| == 14
  {
    EncodeU32(TypeCode(c.typ)) + EncodeU32(c.len) + EncodeU32(c.tableInd) + [EncodeBool(c.nullable)] + [EncodeBool(c.unique)]
  }

  /**
   * `DeserializeFrom`: the column read from the front of `s` and the bytes
   * consumed.  A wrong magic number is only logged, so it is not checked;
   * a non-CHAR column is rebuilt by the INT/FLOAT constructor, which takes
   * its length from the type.  None where the engine would read past the
   * buffer or meet an unknown type (whose constructor aborts).
   */
  function Decode(s: seq<byte>): (r: Option<(Column, nat)>)
    ensures r.Some? ==> ColumnOk(r.value.0) && r.value.1 == SerializedSize(r.value.0) && r.value.1 <= |s|
  {
    if |s| < 8 then None
    else
      var n := DecodeU32(s[4..]);
      var body := s[8..];
      if |body| < n + 14 then None
      else
        match DecodeTrailer(body[..n], body[n..])
        case None => None
        case Some(c) => Some((c, 8 + n + 14))
  }

  /** The column named `name` whose type id, length, index and flags start `t`. */
  function DecodeTrailer(name: seq<byte>, t: seq<byte>): (r: Option<Column>)
    requires |t| >= 14
    ensures r.Some? ==> r.value.name == name
    ensures r.Some? && |name| < U32_LIMIT ==> ColumnOk(r.value)
  {
    match TypeOfCode(DecodeU32(t))
    case None => None
    case Some(typ) =>
      var len := DecodeU32(t[4..]);
      var index := DecodeU32(t[8..]);
      var nullable := DecodeBool(t[12]);
      var unique := DecodeBool(t[13]);
      if typ == Char then Some(NewCharColumn(name, len, index, nullable, unique))
      else Some(NewColumn(name, typ, index, nullable, unique))
  }

  /** The column `DeserializeFrom` rebuilds from the encoding of `c`. */
  function Rebuilt(c: Column): Column
  {
    if c.typ == Char then c else c.(len := 4)
  }

  /**
   * Reading back what `SerializeTo` wrote, whatever follows it, yields the
   * column with a non-CHAR length taken from the type, and consumes exactly
   * `GetSerializedSize` bytes.
   */
  lemma DecodeEncoded(c: Column, rest: seq<byte>)
    requires Fits(c)
    ensures Decode(Encode(c) + rest) == Some((Rebuilt(c), SerializedSize(c)))
  {
    var t := Trailer(c) + rest;
    var body := c.name + t;
    var s := EncodeU32(COLUMN_MAGIC_NUM) + (EncodeU32(|c.name|) + body);
    assert Encode(c) + rest == s;
    ReadFront(COLUMN_MAGIC_NUM, EncodeU32(|c.name|) + body);
    ReadFront(|c.name|, body);
    assert s[8..] == body;
    assert body[|c.name|..] == t && body[..|c.name|] == c.name;
    TrailerRoundTrip(c, rest);
  }

  /** The fourteen bytes after the name are read back as the rest of the column. */
  lemma TrailerRoundTrip(c: Column, rest: seq<byte>)
    requires Fits(c)
    ensures DecodeTrailer(c.name, Trailer(c) + rest) == Some(Rebuilt(c))
  {
    var flags := [EncodeBool(c.nullable), EncodeBool(c.unique)] + rest;
    var t := EncodeU32(TypeCode(c.typ)) + (EncodeU32(c.len) + (EncodeU32(c.tableInd) + flags));
    assert Trailer(c) + rest == t;
    ReadFront(TypeCode(c.typ), EncodeU32(c.len) + (EncodeU32(c.tableInd) + flags));
    ReadFront(c.len, EncodeU32(c.tableInd) + flags);
    ReadFront(c.tableInd, flags);
    assert t[8..] == EncodeU32(c.tableInd) + flags;
    assert t[12] == EncodeBool(c.nullable) && t[13] == EncodeBool(c.unique);
  }

  /** The round trip: a column the constructors can build comes back unchanged. */
  lemma RoundTrip(c: Column, rest: seq<byte>)
    requires ColumnOk(c)
    ensures Decode(Encode(c) + rest) == Some((c, SerializedSize(c)))
  {
    DecodeEncoded(c, rest);
  }

  /**
   * A non-CHAR column gets its length from its type, not from the stored
   * value: whatever length was written, four comes back.
   */
  lemma LengthFromType(c: Column, rest: seq<byte>)
    requires Fits(c) && c.typ != Char
    ensures Decode(Encode(c) + rest).Some? && Decode(Encode(c) + rest).value.0.len == 4
  {
    DecodeEncoded(c, rest);
  }

  /** A wrong magic number does not stop `DeserializeFrom`: the bytes after it are read the same. */
  lemma MagicNotChecked(s: seq<byte>, magic: nat)
    requires |s| >= 4 && magic < U32_LIMIT
    ensures Decode(EncodeU32(magic) + s[4..]) == Decode(s)
  {
    var t := EncodeU32(magic) + s[4..];
    assert t[4..] == s[4..];
    if |s| >= 8 {
      assert t[8..] == s[8..];
    }
  }

  /** `SerializeTo`: writes the encoding at `off`, one `memcpy` per field, and returns its size. */
  method SerializeTo(c: Column, buf: array<byte>, off: nat) returns (n: nat)
    requires Fits(c) && off + SerializedSize(c) <= buf.Length
    modifies buf
    ensures n == SerializedSize(c)
    ensures buf[..] == Written(old(buf[..]), off, Encode(c))
  {
    ghost var start := buf[..];
    n := 0;
    Put(buf, off + n, EncodeU32(COLUMN_MAGIC_NUM));
    n := n + 4;
    Append(buf, start, off, EncodeU32(COLUMN_MAGIC_NUM), off + n, EncodeU32(|c.name|));
    ghost var acc := EncodeU32(COLUMN_MAGIC_NUM) + EncodeU32(|c.name|);
    n := n + 4;
    Append(buf, start, off, acc, off + n, c.name);
    acc := acc + c.name;
    n := n + |c.name|;
    WriteTrailer(c, buf, off + n);
    WrittenAfter(start, off, acc, Trailer(c));
    n := n + 14;
  }

  /** The `memcpy`s of the type id, length, table index and the two flags, at `pos`. */
  method WriteTrailer(c: Column, buf: array<byte>, pos: nat)
    requires Fits(c) && pos + 14 <= buf.Length
    modifies buf
    ensures buf[..] == Written(old(buf[..]), pos, Trailer(c))
  {
    ghost var start := buf[..];
    var n := pos;
    Put(buf, n, EncodeU32(TypeCode(c.typ)));
    ghost var done := EncodeU32(TypeCode(c.typ));
    n := n + 4;
    Append(buf, start, pos, done, n, EncodeU32(c.len));
    done, n := done + EncodeU32(c.len), n + 4;
    Append(buf, start, pos, done, n, EncodeU32(c.tableInd));
    done, n := done + EncodeU32(c.tableInd), n + 4;
    Append(buf, start, pos, done, n, [EncodeBool(c.nullable)]);
    done, n := done + [EncodeBool(c.nullable)], n + 1;
    Append(buf, start, pos, done, n, [EncodeBool(c.unique)]);
  }

  /** `DeserializeFrom`: reads a column at `off`, field by field. */
  method DeserializeFrom(buf: array<byte>, off: nat) returns (r: Option<(Column, nat)>)
    requires off <= buf.Length
    ensures r == Decode(buf[off..])
  {
    ghost var s := buf[off..];
    if buf.Length - off < 8 {
      return None;
    }
    var size := 0;
    var magic := ReadU32(buf, off + size);
    size := size + 4;
    var n := ReadU32(buf, off + size);
    assert s[4..] == buf[off + 4..];
    size := size + 4;
    ghost var body := s[8..];
    if buf.Length - off < size + n + 14 {
      assert |body| < n + 14;
      return None;
    }
    var name := buf[off + size..off + size + n];
    assert name == body[..n];
    size := size + n;
    var c := ReadTrailer(buf, off + size, name);
    assert body[n..] == buf[off + size..];
    assert Decode(s) == if c.None? then None else Some((c.value, size + 14));
    if c.None? {
      return None;
    }
    return Some((c.value, size + 14));
  }

  /** Reads the type id, length, table index and flags at `pos` and builds the column. */
  method ReadTrailer(buf: array<byte>, pos: nat, name: seq<byte>) returns (c: Option<Column>)
    requires pos + 14 <= buf.Length
    ensures c == DecodeTrailer(name, buf[pos..])
  {
    ghost var t := buf[pos..];
    var code := ReadU32(buf, pos);
    var typ := TypeOfCode(code);
    if typ.None? {
      return None;
    }
    var len := ReadU32(buf, pos + 4);
    assert t[4..] == buf[pos + 4..];
    var index := ReadU32(buf, pos + 8);
    assert t[8..] == buf[pos + 8..];
    var nullable := DecodeBool(buf[pos + 12]);
    var unique := DecodeBool(buf[pos + 13]);
    if typ.value == Char {
      return Some(NewCharColumn(name, len, index, nullable, unique));
    }
    return Some(NewColumn(name, typ.value, index, nullable, unique));
  }
}
