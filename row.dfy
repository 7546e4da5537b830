/**
 * A row (tuple) and its byte layout: the field count, the null bitmap, then
 * each non-null field's payload in order.  The payload of an INT or FLOAT
 * field is its four bytes; that of a CHAR field its length (a `uint32_t`)
 * followed by its bytes.  A null field writes nothing.
 */
module Rows {
  import opened Common
  import opened ByteBuffers
  import opened NullBitmaps
  import Columns
  import Schemas

  /** A field: its type and its payload, none when the field is null. */
  datatype Field = Field(typ: Columns.TypeId, payload: Option<seq<byte>>)

  datatype Row = Row(fields: seq<Field>)

  /** An INT or FLOAT payload is four bytes; a CHAR length fits its `uint32_t`. */
  predicate FieldOk(f: Field)
  {
    f.payload.Some? ==> if f.typ == Columns.Char then |f.payload.value| < U32_LIMIT else |f.payload.value| == 4
  }

  predicate AllOk(fs: seq<Field>)
  {
    forall i :: 0 <= i < |fs| ==> FieldOk(fs[i])
  }

  /** Every field is well formed and the count fits its `uint32_t`. */
  predicate Fits(r: Row)
  {
    |r.fields| < U32_LIMIT && AllOk(r.fields)
  }

  /** The bytes a field occupies: nothing when null, its payload, and a length for CHAR. */
  function FieldSize(f: Field): nat
  {
    match f.payload
    case None => 0
    case Some(p) => if f.typ == Columns.Char then 4 + |p| else |p|
  }

  /** The field sizes added up, one field after the other. */
  function FieldsSize(fs: seq<Field>): nat
  {
    if fs == [] then 0 else FieldsSize(fs[..|fs| - 1]) + FieldSize(fs[|fs| - 1])
  }

  /** `GetSerializedSize`: the count, the bitmap and the fields. */
  function SerializedSize(r: Row): nat
  {
    4 + BitmapSize(|r.fields|) + FieldsSize(r.fields)
  }

  /** Whether each field is not null: what the bitmap records. */
  function Presence(fs: seq<Field>): (present: seq<bool>)
    ensures |present| == |fs| && forall i :: 0 <= i < |fs| ==> present[i] == fs[i].payload.Some?
  {
    seq(|fs|, i requires 0 <= i < |fs| => fs[i].payload.Some?)
  }

  /** The bytes a field's own `SerializeTo` writes; a CHAR length is a `uint32_t`. */
  function FieldBytes(f: Field): (s: seq<byte>)
    ensures |s| == FieldSize(f)
  {
    match f.payload
    case None => []
    case Some(p) => if f.typ == Columns.Char then EncodeU32(|p| % U32_LIMIT) + p else p
  }

  /** The fields' bytes, one after the other. */
  function FieldsBytes(fs: seq<Field>): (s: seq<byte>)
    ensures |s| == FieldsSize(fs)
  {
    if fs == [] then [] else FieldsBytes(fs[..|fs| - 1]) + FieldBytes(fs[|fs| - 1])
  }

  /** The bytes `SerializeTo` writes. */
  function Encode(r: Row): (s: seq<byte>)
    requires Fits(r)
    ensures |s| == SerializedSize(r)
  {
    EncodeU32(|r.fields|) + Bitmap(Presence(r.fields)) + FieldsBytes(r.fields)
  }

  /**
   * One field of type `typ` read from the front of `t`, and the bytes it
   * takes: a null field (bit clear) takes none; an INT or FLOAT field four;
   * a CHAR field its length and then that many bytes.  None where the
   * engine would read past the buffer.
   */
  function DecodeField(typ: Columns.TypeId, present: bool, t: seq<byte>): (r: Option<(Field, nat)>)
    ensures r.Some? ==> r.value.1 <= |t| && r.value.0.typ == typ && FieldOk(r.value.0)
    ensures r.Some? ==> (r.value.0.payload.Some? <==> present) && r.value.1 == FieldSize(r.value.0)
  {
    if !present then Some((Field(typ, None), 0))
    else if |t| < 4 then None
    else if typ != Columns.Char then Some((Field(typ, Some(t[..4])), 4))
    else
      var len := DecodeU32(t);
      if |t| - 4 < len then None else Some((Field(typ, Some(t[4..4 + len])), 4 + len))
  }

  /**
   * The fields of types `types` read one after the other from the front of
   * `t`, the ones `present` marks with a payload, and the bytes they take.
   */
  function DecodeFields(types: seq<Columns.TypeId>, present: seq<bool>, t: seq<byte>): (r: Option<(seq<Field>, nat)>)
    requires |types| == |present|
    ensures r.Some? ==> r.value.1 <= |t|
    decreases |types|
  {
    if types == [] then Some(([], 0))
    else
      var n := |types| - 1;
      var front := DecodeFields(types[..n], present[..n], t);
      if front.None? then None
      else
        var last := DecodeField(types[n], present[n], t[front.value.1..]);
        if last.None? then None
        else
          Some((front.value.0 + [last.value.0], front.value.1 + last.value.1))
  }

  /** The type of each field. */
  function TypesOf(fs: seq<Field>): (types: seq<Columns.TypeId>)
    ensures |types| == |fs| && forall i :: 0 <= i < |fs| ==> types[i] == fs[i].typ
  {
    seq(|fs|, i requires 0 <= i < |fs| => fs[i].typ)
  }

  /** The types of the first `n` columns of the schema. */
  function Types(s: Schemas.Schema, n: nat): (types: seq<Columns.TypeId>)
    requires n <= |s.columns|
    ensures |types| == n && forall i :: 0 <= i < n ==> types[i] == s.columns[i].typ
  {
    seq(n, i requires 0 <= i < n => s.columns[i].typ)
  }

  /**
   * `DeserializeFrom`: the row read from the front of `s`, field `i` taking
   * its type from column `i` of the schema, and the bytes consumed.  None
   * where the engine would read past the buffer or past the schema's columns.
   */
  function Decode(schema: Schemas.Schema, s: seq<byte>): (r: Option<(Row, nat)>)
    ensures r.Some? ==> r.value.1 <= |s|
  {
    if |s| < 4 then None
    else
      var num := DecodeU32(s);
      if num == 0 then Some((Row([]), 4))
      else if num > |schema.columns| then None
      else DecodeBody(schema, num, s)
  }

  /** What follows a count of `num > 0` fields: the bitmap, then the fields. */
  function DecodeBody(schema: Schemas.Schema, num: nat, s: seq<byte>): (r: Option<(Row, nat)>)
    requires 4 <= |s| && 0 < num <= |schema.columns|
    ensures r.Some? ==> r.value.1 <= |s|
  {
    var size := BitmapSize(num);
    if |s| - 4 < size then None
    else
      var fields := DecodeFields(Types(schema, num), Flags(s[4..4 + size], num), s[4 + size..]);
      if fields.None? then None
      else Some((Row(fields.value.0), 4 + size + fields.value.1))
  }

  /**
   * The fields read are well formed, have the types asked for, and carry a
   * payload exactly where `present` says so.
   */
  lemma {:induction false} DecodedFields(types: seq<Columns.TypeId>, present: seq<bool>, t: seq<byte>)
    requires |types| == |present|
    ensures var r := DecodeFields(types, present, t);
      r.Some? ==>
        |r.value.0| == |types| && r.value.1 == FieldsSize(r.value.0) && AllOk(r.value.0) &&
        forall i :: 0 <= i < |types| ==> r.value.0[i].typ == types[i] && (r.value.0[i].payload.Some? <==> present[i])
    decreases |types|
  {
    var r := DecodeFields(types, present, t);
    if types != [] && r.Some? {
      var n := |types| - 1;
      DecodedFields(types[..n], present[..n], t);
      var front := DecodeFields(types[..n], present[..n], t);
      var fs := r.value.0;
      assert fs == front.value.0 + [fs[|fs| - 1]];
      FrontAndLast(fs);
    }
  }

  /**
   * A row read back is well formed (it can be serialised again), has no
   * more fields than the schema has columns, and each field has the type of
   * its column.
   */
  lemma DecodedRow(schema: Schemas.Schema, s: seq<byte>)
    ensures var r := Decode(schema, s);
      r.Some? ==>
        r.value.1 == SerializedSize(r.value.0) && |r.value.0.fields| <= |schema.columns| && Fits(r.value.0) &&
        forall i :: 0 <= i < |r.value.0.fields| ==> r.value.0.fields[i].typ == schema.columns[i].typ
  {
    var r := Decode(schema, s);
    if r.Some? && |s| >= 4 && DecodeU32(s) > 0 {
      var num := DecodeU32(s);
      var size := BitmapSize(num);
      DecodedFields(Types(schema, num), Flags(s[4..4 + size], num), s[4 + size..]);
    }
  }

  /** A row of no fields is the count alone, four bytes. */
  lemma EmptyRow(r: Row, rest: seq<byte>, schema: Schemas.Schema)
    requires r.fields == []
    ensures Encode(r) == EncodeU32(0) && SerializedSize(r) == 4
    ensures var d := Decode(schema, Encode(r) + rest); d.Some? && d.value.0 == r && d.value.1 == 4
  {
    ReadFront(0, rest);
  }

  /** A field's payload is read back from its bytes, whatever follows them. */
  lemma FieldRoundTrip(f: Field, rest: seq<byte>)
    requires FieldOk(f)
    ensures DecodeField(f.typ, f.payload.Some?, FieldBytes(f) + rest) == Some((f, FieldSize(f)))
  {
    if f.payload.Some? {
      var p := f.payload.value;
      if f.typ == Columns.Char {
        assert |p| % U32_LIMIT == |p|;
        ReadFront(|p|, p + rest);
        assert EncodeU32(|p|) + p + rest == EncodeU32(|p|) + (p + rest);
        assert (p + rest)[..|p|] == p;
      } else {
        assert (p + rest)[..4] == p;
      }
    }
  }

  /** The fields are read back, in order, from their bytes. */
  lemma {:induction false} FieldsRoundTrip(fs: seq<Field>, rest: seq<byte>)
    requires AllOk(fs)
    ensures var r := DecodeFields(TypesOf(fs), Presence(fs), FieldsBytes(fs) + rest);
      r.Some? && r.value.0 == fs && r.value.1 == FieldsSize(fs)
    decreases |fs|
  {
    var types := TypesOf(fs);
    if fs != [] {
      var n := |fs| - 1;
      var front := fs[..n];
      var last := fs[n];
      var tail := FieldBytes(last) + rest;
      var t := FieldsBytes(fs) + rest;
      Regroup(FieldsBytes(front), FieldBytes(last), rest);
      PrefixOfFields(fs, n);
      FieldsRoundTrip(front, tail);
      FieldRoundTrip(last, rest);
      FieldsStep(types, Presence(fs), t, front, FieldsSize(front));
      FrontAndLast(fs);
    }
  }

  /** The types and presence of the first `n` fields are a prefix of those of all. */
  lemma PrefixOfFields(fs: seq<Field>, n: nat)
    requires n <= |fs|
    ensures TypesOf(fs)[..n] == TypesOf(fs[..n]) && Presence(fs)[..n] == Presence(fs[..n])
  {
  }

  /** Slicing a suffix is slicing the whole at the sum of the offsets. */
  lemma Slices<T>(a: seq<T>, off: nat, i: nat, j: nat)
    requires off + i + j <= |a|
    ensures a[off..][i..i + j] == a[off + i..off + i + j] && a[off..][i + j..] == a[off + i + j..]
  {
  }

  /** A non-empty sequence is its front and its last element. */
  lemma FrontAndLast<T>(s: seq<T>)
    requires s != []
    ensures s[..|s| - 1] + [s[|s| - 1]] == s
  {
  }

  /**
   * The last field is read right after the ones before it; the fields cannot
   * be read when it cannot.
   */
  lemma FieldsStep(types: seq<Columns.TypeId>, present: seq<bool>, t: seq<byte>, done: seq<Field>, k: nat)
    requires 0 < |types| == |present|
    requires var n := |types| - 1; var d := DecodeFields(types[..n], present[..n], t);
      d.Some? && d.value.0 == done && d.value.1 == k
    ensures k <= |t|
    ensures var n := |types| - 1; var e := DecodeField(types[n], present[n], t[k..]);
      var d := DecodeFields(types, present, t);
      (e.None? ==> d.None?) && (e.Some? ==> d.Some? && d.value.0 == done + [e.value.0] && d.value.1 == k + e.value.1)
  {
  }

  /** Where the count, the bitmap and the fields sit in the encoding. */
  lemma Layout(r: Row, rest: seq<byte>)
    requires Fits(r)
    ensures |Encode(r) + rest| >= 4 + BitmapSize(|r.fields|)
    ensures DecodeU32(Encode(r) + rest) == |r.fields|
    ensures (Encode(r) + rest)[4..4 + BitmapSize(|r.fields|)] == Bitmap(Presence(r.fields))
    ensures (Encode(r) + rest)[4 + BitmapSize(|r.fields|)..] == FieldsBytes(r.fields) + rest
  {
    var bm := Bitmap(Presence(r.fields));
    var t := EncodeU32(|r.fields|) + (bm + (FieldsBytes(r.fields) + rest));
    assert Encode(r) + rest == t;
    ReadFront(|r.fields|, bm + (FieldsBytes(r.fields) + rest));
  }

  /**
   * The round trip: read back with a schema whose column types are those of
   * the fields, a row comes back unchanged, null fields included, and
   * `DeserializeFrom` consumes exactly `GetSerializedSize` bytes.
   */
  lemma RoundTrip(schema: Schemas.Schema, r: Row, rest: seq<byte>)
    requires Fits(r) && |schema.columns| == |r.fields|
    requires forall i :: 0 <= i < |r.fields| ==> r.fields[i].typ == schema.columns[i].typ
    ensures var d := Decode(schema, Encode(r) + rest); d.Some? && d.value.0 == r && d.value.1 == SerializedSize(r)
  {
    var n := |r.fields|;
    if n == 0 {
      EmptyRow(r, rest, schema);
    } else {
      var s := Encode(r) + rest;
      var size := BitmapSize(n);
      Layout(r, rest);
      FlagsOfBitmap(Presence(r.fields));
      assert Flags(s[4..4 + size], n) == Presence(r.fields);
      assert Types(schema, n) == TypesOf(r.fields);
      FieldsRoundTrip(r.fields, rest);
      DecodeParts(schema, s, r.fields, FieldsSize(r.fields));
    }
  }

  /** `DeserializeFrom` of a row with fields: the count, the bitmap, then the fields. */
  lemma DecodeParts(schema: Schemas.Schema, s: seq<byte>, fields: seq<Field>, k: nat)
    requires |s| >= 4 && 0 < DecodeU32(s) <= |schema.columns| && |s| - 4 >= BitmapSize(DecodeU32(s))
    requires var num := DecodeU32(s); var size := BitmapSize(num);
      var d := DecodeFields(Types(schema, num), Flags(s[4..4 + size], num), s[4 + size..]);
      d.Some? && d.value.0 == fields && d.value.1 == k
    ensures var r := Decode(schema, s); r.Some? && r.value.0 == Row(fields) && r.value.1 == 4 + BitmapSize(DecodeU32(s)) + k
  {
  }

  /** What follows the count, once the fields are read from after the bitmap. */
  lemma BodyOfFields(schema: Schemas.Schema, num: nat, s: seq<byte>, fields: Option<(seq<Field>, nat)>)
    requires 4 <= |s| && 0 < num <= |schema.columns| && |s| - 4 >= BitmapSize(num)
    requires fields == DecodeFields(Types(schema, num), Flags(s[4..4 + BitmapSize(num)], num), s[4 + BitmapSize(num)..])
    ensures fields.None? ==> DecodeBody(schema, num, s).None?
    ensures fields.Some? ==> DecodeBody(schema, num, s) == Some((Row(fields.value.0), 4 + BitmapSize(num) + fields.value.1))
  {
  }

  /**
   * `SerializeTo`: the count; with no fields nothing more; otherwise the
   * bitmap built field by field, then each field through its own
   * `SerializeTo`.  Returns the bytes written.
   */
  method SerializeTo(r: Row, schema: Schemas.Schema, buf: array<byte>, off: nat) returns (n: nat)
    requires Fits(r) && |schema.columns| == |r.fields|
    requires off + SerializedSize(r) <= buf.Length
    modifies buf
    ensures n == SerializedSize(r)
    ensures buf[..] == Written(old(buf[..]), off, Encode(r))
  {
    ghost var start := buf[..];
    var count := |r.fields|;
    Put(buf, off, EncodeU32(count));
    if count == 0 {
      EmptyRow(r, [], schema);
      return 4;
    }
    n := WriteBody(r, buf, start, off);
  }

  /** The rest of `SerializeTo` after the count: the bitmap, then the fields. */
  method WriteBody(r: Row, buf: array<byte>, ghost start: seq<byte>, off: nat) returns (n: nat)
    requires Fits(r) && off + SerializedSize(r) <= buf.Length == |start|
    requires buf[..] == Written(start, off, EncodeU32(|r.fields|))
    modifies buf
    ensures n == SerializedSize(r)
    ensures buf[..] == Written(start, off, Encode(r))
  {
    var present := PresenceOf(r.fields);
    var bm := Build(present);
    var bits := bm[..];
    Append(buf, start, off, EncodeU32(|r.fields|), off + 4, bits);
    var written := WriteFields(r.fields, buf, off + 4 + |bits|);
    WrittenAfter(start, off, EncodeU32(|r.fields|) + bits, FieldsBytes(r.fields));
    n := 4 + |bits| + written;
  }

  /** The non-null test of every field, in order. */
  method PresenceOf(fs: seq<Field>) returns (present: seq<bool>)
    ensures present == Presence(fs)
  {
    present := [];
    var i := 0;
    while i < |fs|
      invariant i <= |fs| && present == Presence(fs[..i])
    {
      present := present + [fs[i].payload.Some?];
      i := i + 1;
    }
    assert fs[..i] == fs;
  }

  /** The second loop of `SerializeTo`: each field's bytes, one after the other. */
  method WriteFields(fs: seq<Field>, buf: array<byte>, off: nat) returns (n: nat)
    requires off + FieldsSize(fs) <= buf.Length
    modifies buf
    ensures n == FieldsSize(fs)
    ensures buf[..] == Written(old(buf[..]), off, FieldsBytes(fs))
  {
    ghost var start := buf[..];
    n := 0;
    var i := 0;
    assert buf[..] == Written(start, off, FieldsBytes(fs[..0]));
    while i < |fs|
      invariant i <= |fs| && |start| == buf.Length
      invariant n == FieldsSize(fs[..i]) && off + n <= buf.Length
      invariant buf[..] == Written(start, off, FieldsBytes(fs[..i]))
    {
      var written := WriteField(fs, i, buf, start, off, n);
      n := n + written;
      i := i + 1;
    }
    assert fs[..i] == fs;
  }

  /**
   * One pass of the second loop of `SerializeTo`: field `i` through its own
   * `SerializeTo`, right after the fields before it.
   */
  method WriteField(fs: seq<Field>, i: nat, buf: array<byte>, ghost start: seq<byte>, off: nat, n: nat) returns (written: nat)
    requires i < |fs| && |start| == buf.Length && off + FieldsSize(fs) <= buf.Length
    requires n == FieldsSize(fs[..i]) && off + n <= buf.Length && buf[..] == Written(start, off, FieldsBytes(fs[..i]))
    modifies buf
    ensures written == FieldSize(fs[i]) && n + written == FieldsSize(fs[..i + 1]) && off + n + written <= buf.Length
    ensures buf[..] == Written(start, off, FieldsBytes(fs[..i + 1]))
  {
    FieldsSnoc(fs, i);
    FieldsSizePrefix(fs, i + 1);
    Put(buf, off + n, FieldBytes(fs[i]));
    WrittenAfter(start, off, FieldsBytes(fs[..i]), FieldBytes(fs[i]));
    written := FieldSize(fs[i]);
  }

  /** The first `i + 1` fields are the first `i` and one more. */
  lemma FieldsSnoc(fs: seq<Field>, i: nat)
    requires i < |fs|
    ensures FieldsSize(fs[..i + 1]) == FieldsSize(fs[..i]) + FieldSize(fs[i])
    ensures FieldsBytes(fs[..i + 1]) == FieldsBytes(fs[..i]) + FieldBytes(fs[i])
  {
    assert fs[..i + 1][..i] == fs[..i];
  }

  /** A prefix of the fields takes no more bytes than all of them. */
  lemma {:induction false} FieldsSizePrefix(fs: seq<Field>, i: nat)
    requires i <= |fs|
    ensures FieldsSize(fs[..i]) <= FieldsSize(fs)
    decreases |fs| - i
  {
    if i < |fs| {
      FieldsSizePrefix(fs[..|fs| - 1], i);
      assert fs[..|fs| - 1][..i] == fs[..i];
    } else {
      assert fs[..i] == fs;
    }
  }

  /**
   * `DeserializeFrom`: the count; with none, an empty row; otherwise a copy
   * of the bitmap, then each field with the type of its column, its payload
   * read only when its bit is set.
   */
  method DeserializeFrom(schema: Schemas.Schema, buf: array<byte>, off: nat) returns (r: Option<(Row, nat)>)
    requires off <= buf.Length
    ensures r == Decode(schema, buf[off..])
  {
    if buf.Length - off < 4 {
      return None;
    }
    var num := ReadU32(buf, off);
    if num == 0 {
      return Some((Row([]), 4));
    }
    if num > |schema.columns| {
      return None;
    }
    r := ReadBody(schema, buf, off, num);
  }

  /** The rest of `DeserializeFrom` once a count of `num > 0` fields is read: the bitmap, then the fields. */
  method ReadBody(schema: Schemas.Schema, buf: array<byte>, off: nat, num: nat) returns (r: Option<(Row, nat)>)
    requires off + 4 <= buf.Length && 0 < num <= |schema.columns|
    ensures r == DecodeBody(schema, num, buf[off..])
  {
    ghost var s := buf[off..];
    var size := BitmapSize(num);
    if buf.Length - off - 4 < size {
      return None;
    }
    var bm := buf[off + 4..off + 4 + size];
    Slices(buf[..], off, 4, size);
    var fields := ReadFields(schema, num, bm, buf, off + 4 + size, s[4..4 + size], s[4 + size..]);
    BodyOfFields(schema, num, s, fields);
    if fields.None? {
      return None;
    }
    return Some((Row(fields.value.0), 4 + size + fields.value.1));
  }

  /** The first `i` fields were read from `t`, as `done`, taking `k` bytes. */
  ghost predicate ReadFirst(types: seq<Columns.TypeId>, present: seq<bool>, t: seq<byte>, i: nat, done: seq<Field>, k: nat)
  {
    i <= |types| == |present| &&
    var d := DecodeFields(types[..i], present[..i], t);
    d.Some? && d.value.0 == done && d.value.1 == k
  }

  /** The loop of `DeserializeFrom`: `num` fields, each with the type of its column. */
  method ReadFields(schema: Schemas.Schema, num: nat, bm: seq<byte>, buf: array<byte>, pos: nat, ghost bits: seq<byte>, ghost t: seq<byte>)
    returns (r: Option<(seq<Field>, nat)>)
    requires num <= |schema.columns| && BitmapSize(num) <= |bm| && bm == bits && pos <= buf.Length && t == buf[pos..]
    ensures r == DecodeFields(Types(schema, num), Flags(bits, num), t)
  {
    ghost var types := Types(schema, num);
    ghost var present := Flags(bm, num);
    var fields: seq<Field> := [];
    var size: nat := 0;
    var i := 0;
    assert types[..0] == [] && present[..0] == [];
    while i < num
      invariant i <= num && pos + size <= buf.Length
      invariant ReadFirst(types, present, t, i, fields, size)
    {
      var f := ReadNextField(schema.columns[i].typ, bm, buf, pos, types, present, t, i, fields, size);
      if f.None? {
        return None;
      }
      fields := fields + [f.value.0];
      size := size + f.value.1;
      i := i + 1;
    }
    assert types[..i] == types && present[..i] == present;
    return Some((fields, size));
  }

  /** One pass of the loop of `DeserializeFrom`: field `i`, after the fields before it. */
  method ReadNextField(typ: Columns.TypeId, bm: seq<byte>, buf: array<byte>, pos: nat, ghost types: seq<Columns.TypeId>, ghost present: seq<bool>,
                       ghost t: seq<byte>, i: nat, ghost done: seq<Field>, size: nat)
    returns (f: Option<(Field, nat)>)
    requires i < |types| == |present| && i / 8 < |bm| && types[i] == typ && present[i] == Present(bm, i)
    requires pos + size <= buf.Length && t == buf[pos..] && ReadFirst(types, present, t, i, done, size)
    ensures f.None? ==> DecodeFields(types, present, t).None?
    ensures f.Some? ==> pos + size + f.value.1 <= buf.Length && ReadFirst(types, present, t, i + 1, done + [f.value.0], size + f.value.1)
  {
    SlotSetIsMask(BvOf(bm[i / 8]), i % 8);
    var isPresent := BvOf(bm[i / 8]) & Mask(i % 8) != 0;
    f := ReadField(buf, pos + size, typ, isPresent);
    assert buf[pos + size..] == t[size..];
    ReadStep(types, present, t, i, done, size);
  }

  /**
   * After the first `i` fields, field `i` is read from the bytes that follow
   * them; when it cannot be, neither can the fields.
   */
  lemma ReadStep(types: seq<Columns.TypeId>, present: seq<bool>, t: seq<byte>, i: nat, done: seq<Field>, k: nat)
    requires i < |types| == |present| && ReadFirst(types, present, t, i, done, k)
    ensures k <= |t|
    ensures var e := DecodeField(types[i], present[i], t[k..]);
      (e.None? ==> DecodeFields(types, present, t).None?) &&
      (e.Some? ==> ReadFirst(types, present, t, i + 1, done + [e.value.0], k + e.value.1))
  {
    assert types[..i + 1][..i] == types[..i] && present[..i + 1][..i] == present[..i];
    FieldsStep(types[..i + 1], present[..i + 1], t, done, k);
    if DecodeField(types[i], present[i], t[k..]).None? {
      PrefixFails(types, present, t, i + 1);
    }
  }

  /** Once a prefix of the fields cannot be read, neither can all of them. */
  lemma {:induction false} PrefixFails(types: seq<Columns.TypeId>, present: seq<bool>, t: seq<byte>, j: nat)
    requires j <= |types| == |present| && DecodeFields(types[..j], present[..j], t).None?
    ensures DecodeFields(types, present, t).None?
    decreases |types| - j
  {
    if j < |types| {
      var n := |types| - 1;
      assert types[..n][..j] == types[..j] && present[..n][..j] == present[..j];
      PrefixFails(types[..n], present[..n], t, j);
    } else {
      assert types[..j] == types && present[..j] == present;
    }
  }

  /** One field's payload, as `Row::DeserializeFrom` reads it for the field's type. */
  method ReadField(buf: array<byte>, pos: nat, typ: Columns.TypeId, present: bool) returns (r: Option<(Field, nat)>)
    requires pos <= buf.Length
    ensures r == DecodeField(typ, present, buf[pos..])
  {
    if !present {
      return Some((Field(typ, None), 0));
    }
    if buf.Length - pos < 4 {
      return None;
    }
    if typ != Columns.Char {
      assert buf[pos..pos + 4] == buf[pos..][..4];
      return Some((Field(typ, Some(buf[pos..pos + 4])), 4));
    }
    var len := ReadU32(buf, pos);
    if buf.Length - pos - 4 < len {
      return None;
    }
    assert buf[pos + 4..pos + 4 + len] == buf[pos..][4..4 + len];
    return Some((Field(typ, Some(buf[pos + 4..pos + 4 + len])), 4 + len));
  }
}
