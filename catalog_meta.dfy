/**
 * The catalog metadata page: the magic number, the number of tables, the
 * number of indexes, then an (id, page id) pair of four bytes each for every
 * table and then for every index, each map in ascending id order (the order
 * in which an ordered map is iterated).
 */
module CatalogMetas {
  import opened Common
  import opened ByteBuffers

  /** `CATALOG_METADATA_MAGIC_NUM`. */
  const CATALOG_METADATA_MAGIC_NUM: nat := 89849

  /** An (id, page id) pair: a `uint32_t` table or index id and an `int32_t` page id. */
  type Entry = (nat, int)

  /** The ids of the tables and of the indexes, each mapped to its meta page. */
  datatype CatalogMeta = CatalogMeta(tables: map<nat, int>, indexes: map<nat, int>)

  /** Every id fits its `uint32_t`, every page id its `int32_t`, and so does the count. */
  predicate MapFits(m: map<nat, int>)
  {
    |m| < U32_LIMIT && forall id :: id in m ==> id < U32_LIMIT && IsI32(m[id])
  }

  predicate Fits(meta: CatalogMeta)
  {
    MapFits(meta.tables) && MapFits(meta.indexes)
  }

  /** `GetSerializedSize`: three counts, then eight bytes per table and per index. */
  function SerializedSize(meta: CatalogMeta): nat
  {
    12 + 8 * (|meta.tables| + |meta.indexes|)
  }

  /** A set holding `x` has a least id, found by descending from `x`. */
  lemma {:induction false} HasLeast(ids: set<nat>, x: nat)
    requires x in ids
    ensures exists id :: id in ids && forall j :: j in ids ==> id <= j
    decreases x
  {
    if !forall j :: j in ids ==> x <= j {
      var j :| j in ids && j < x;
      HasLeast(ids, j);
    }
  }

  /** The least id of a non-empty set. */
  function Least(ids: set<nat>): (id: nat)
    requires ids != {}
    ensures id in ids && forall j :: j in ids ==> id <= j
  {
    var x :| x in ids;
    HasLeast(ids, x);
    var id :| id in ids && forall j :: j in ids ==> id <= j; id
  }

  /** The ids of a set in strictly ascending order, each drawn from the set. */
  function Ascending(ids: set<nat>): (r: seq<nat>)
    ensures |r| == |ids| && forall i :: 0 <= i < |r| ==> r[i] in ids
    ensures forall i, j :: 0 <= i < j < |r| ==> r[i] < r[j]
    decreases |ids|
  {
    if ids == {} then []
    else
      var id := Least(ids);
      var others := Ascending(ids - {id});
      assert forall j :: 0 <= j < |others| ==> id < others[j];
      [id] + others
  }

  /** Every id of the set appears in its ascending order. */
  lemma {:induction false} AscendingCovers(ids: set<nat>, id: nat)
    requires id in ids
    ensures exists i :: 0 <= i < |Ascending(ids)| && Ascending(ids)[i] == id
    decreases |ids|
  {
    var least := Least(ids);
    var others := ids - {least};
    var r := Ascending(ids);
    assert r == [least] + Ascending(others);
    if id == least {
      assert r[0] == id;
    } else {
      AscendingCovers(others, id);
      var i :| 0 <= i < |Ascending(others)| && Ascending(others)[i] == id;
      assert r[i + 1] == id;
    }
  }

  /** The pairs of a map in the order the source iterates it: ascending id. */
  function Entries(m: map<nat, int>): (es: seq<Entry>)
    ensures |es| == |m| && forall i :: 0 <= i < |es| ==> es[i].0 in m && es[i].1 == m[es[i].0]
  {
    var ids := Ascending(m.Keys);
    seq(|ids|, i requires 0 <= i < |ids| => (ids[i], m[ids[i]]))
  }

  /** The pairs of a map cover its ids, in strictly ascending order. */
  lemma EntriesInOrder(m: map<nat, int>)
    ensures forall id :: id in m ==> exists i :: 0 <= i < |Entries(m)| && Entries(m)[i].0 == id
    ensures var es := Entries(m); forall i, j :: 0 <= i < j < |es| ==> es[i].0 < es[j].0
  {
    var es := Entries(m);
    var ids := Ascending(m.Keys);
    assert forall i :: 0 <= i < |es| ==> es[i].0 == ids[i];
    forall id | id in m
      ensures exists i :: 0 <= i < |es| && es[i].0 == id
    {
      AscendingCovers(m.Keys, id);
      var i :| 0 <= i < |ids| && ids[i] == id;
      assert es[i].0 == id;
    }
  }

  predicate EntryFits(e: Entry)
  {
    e.0 < U32_LIMIT && IsI32(e.1)
  }

  /** The eight bytes of a pair: the id, then the page id. */
  function EntryBytes(e: Entry): (s: seq<byte>)
    requires EntryFits(e)
    ensures |s| == 8
  {
    EncodeU32(e.0) + EncodeI32(e.1)
  }

  function Chunks(es: seq<Entry>): (r: seq<seq<byte>>)
    requires forall i :: 0 <= i < |es| ==> EntryFits(es[i])
    ensures |r| == |es| && forall i :: 0 <= i < |es| ==> r[i] == EntryBytes(es[i])
  {
    seq(|es|, i requires 0 <= i < |es| => EntryBytes(es[i]))
  }

  /** Chunks of eight bytes each take eight bytes per chunk. */
  lemma {:induction false} EightEach(chunks: seq<seq<byte>>)
    requires forall i :: 0 <= i < |chunks| ==> |chunks[i]| == 8
    ensures |Flatten(chunks)| == 8 * |chunks|
  {
    if chunks != [] {
      EightEach(chunks[1..]);
    }
  }

  /** The pairs of a map, in ascending id order. */
  function MapBytes(m: map<nat, int>): (s: seq<byte>)
    requires MapFits(m)
    ensures |s| == 8 * |m|
  {
    var es := Entries(m);
    EightEach(Chunks(es));
    Flatten(Chunks(es))
  }

  /** The magic number and the two counts. */
  function Header(meta: CatalogMeta): (s: seq<byte>)
    requires Fits(meta)
    ensures |s| == 12
  {
    EncodeU32(CATALOG_METADATA_MAGIC_NUM) + EncodeU32(|meta.tables|) + EncodeU32(|meta.indexes|)
  }

  /** The bytes `SerializeTo` writes. */
  function Encode(meta: CatalogMeta): (s: seq<byte>)
    requires Fits(meta)
    ensures |s| == SerializedSize(meta)
  {
    Header(meta) + MapBytes(meta.tables) + MapBytes(meta.indexes)
  }

  /** One pair read from the front of `s`; None where it would read past the buffer. */
  function ReadEntry(s: seq<byte>): (r: Option<(Entry, nat)>)
    ensures r.Some? ==> r.value.1 == 8 <= |s|
  {
    if |s| < 8 then None else Some(((DecodeU32(s), DecodeI32(s[4..])), 8))
  }

  /** `emplace`: a pair whose id is already in the map leaves it unchanged. */
  function Emplace(m: map<nat, int>, e: Entry): map<nat, int>
  {
    if e.0 in m then m else m[e.0 := e.1]
  }

  /** The pairs emplaced one after the other. */
  function EmplaceAll(m: map<nat, int>, es: seq<Entry>): map<nat, int>
  {
    if es == [] then m else Emplace(EmplaceAll(m, es[..|es| - 1]), es[|es| - 1])
  }

  /**
   * `DeserializeFrom`: the metadata read from the front of `s`.  None where
   * the magic number is wrong (the source aborts) or where it would read
   * past the buffer.
   */
  function Decode(s: seq<byte>): (r: Option<CatalogMeta>)
    ensures r.Some? ==> |s| >= 12 && DecodeU32(s) == CATALOG_METADATA_MAGIC_NUM
  {
    if |s| < 12 || DecodeU32(s) != CATALOG_METADATA_MAGIC_NUM then None
    else DecodeMaps(s[12..], DecodeU32(s[4..]), DecodeU32(s[8..]))
  }

  /** The two lists of pairs after the counts, each emplaced into its map. */
  function DecodeMaps(body: seq<byte>, tableCount: nat, indexCount: nat): (r: Option<CatalogMeta>)
  {
    EntryReader();
    var tables := ReadMany(ReadEntry, body, tableCount);
    if tables.None? then None
    else
      var indexes := ReadMany(ReadEntry, body[tables.value.1..], indexCount);
      if indexes.None? then None
      else Some(CatalogMeta(EmplaceAll(map[], tables.value.0), EmplaceAll(map[], indexes.value.0)))
  }

  lemma EntryReader()
    ensures Consumes(ReadEntry)
  {
  }

  /** A pair is read back from its bytes, whatever follows. */
  lemma EntryRoundTrip(e: Entry)
    requires EntryFits(e)
    ensures ReadsBack(ReadEntry, EntryBytes(e), e)
  {
    forall rest
      ensures ReadEntry(EntryBytes(e) + rest) == Some((e, 8))
    {
      var t := EntryBytes(e) + rest;
      assert t == EncodeU32(e.0) + (EncodeI32(e.1) + rest);
      ReadFront(e.0, EncodeI32(e.1) + rest);
      DecodeI32At(EncodeU32(e.0), e.1, rest);
    }
  }

  /**
   * `emplace` semantics: the map built holds exactly the ids of the pairs,
   * and an id's page is that of its first pair.
   */
  lemma {:induction false} FirstWins(es: seq<Entry>)
    ensures forall id :: id in EmplaceAll(map[], es) <==> exists i :: 0 <= i < |es| && es[i].0 == id
    ensures forall i :: 0 <= i < |es| && (forall j :: 0 <= j < i ==> es[j].0 != es[i].0) ==> EmplaceAll(map[], es)[es[i].0] == es[i].1
  {
    if es != [] {
      var n := |es| - 1;
      var front := es[..n];
      FirstWins(front);
      var m := EmplaceAll(map[], front);
      assert EmplaceAll(map[], es) == Emplace(m, es[n]);
      forall id
        ensures id in EmplaceAll(map[], es) <==> exists i :: 0 <= i < |es| && es[i].0 == id
      {
        if exists i :: 0 <= i < |es| && es[i].0 == id {
          var i :| 0 <= i < |es| && es[i].0 == id;
          if i < n {
            assert front[i].0 == id;
          }
        }
        if id in m {
          var i :| 0 <= i < |front| && front[i].0 == id;
          assert es[i].0 == id;
        }
      }
      forall i | 0 <= i < |es| && (forall j :: 0 <= j < i ==> es[j].0 != es[i].0)
        ensures EmplaceAll(map[], es)[es[i].0] == es[i].1
      {
        if i < n {
          assert front[i] == es[i];
          assert forall j :: 0 <= j < i ==> front[j].0 != front[i].0;
        }
      }
    }
  }

  /** Emplacing a map's pairs in ascending order rebuilds the map. */
  lemma Rebuilt(m: map<nat, int>)
    ensures EmplaceAll(map[], Entries(m)) == m
  {
    var r := EmplaceAll(map[], Entries(m));
    forall id | id in m
      ensures id in r && r[id] == m[id]
    {
      RebuiltHas(m, id);
    }
    forall id | id in r
      ensures id in m
    {
      RebuiltOnly(m, id);
    }
  }

  lemma RebuiltHas(m: map<nat, int>, id: nat)
    requires id in m
    ensures var r := EmplaceAll(map[], Entries(m)); id in r && r[id] == m[id]
  {
    var es := Entries(m);
    FirstWins(es);
    EntriesInOrder(m);
    var i :| 0 <= i < |es| && es[i].0 == id;
    assert forall j :: 0 <= j < i ==> es[j].0 < es[i].0;
  }

  lemma RebuiltOnly(m: map<nat, int>, id: nat)
    requires id in EmplaceAll(map[], Entries(m))
    ensures id in m
  {
    var es := Entries(m);
    FirstWins(es);
    var i :| 0 <= i < |es| && es[i].0 == id;
  }

  /** The pairs of a map are read back, in ascending order, from its bytes. */
  lemma MapRoundTrip(m: map<nat, int>, rest: seq<byte>)
    requires MapFits(m)
    ensures var r := ReadMany(ReadEntry, MapBytes(m) + rest, |m|);
      r.Some? && r.value.0 == Entries(m) && r.value.1 == 8 * |m|
  {
    var es := Entries(m);
    var chunks := Chunks(es);
    forall i | 0 <= i < |chunks|
      ensures ReadsBack(ReadEntry, chunks[i], es[i])
    {
      EntryRoundTrip(es[i]);
    }
    EntryReader();
    ReadManyFlatten(ReadEntry, chunks, es, rest);
  }

  /** Where the counts and the two lists of pairs sit in the encoding. */
  lemma Layout(meta: CatalogMeta, rest: seq<byte>)
    requires Fits(meta)
    ensures var s := Encode(meta) + rest;
      |s| >= 12 && DecodeU32(s) == CATALOG_METADATA_MAGIC_NUM &&
      DecodeU32(s[4..]) == |meta.tables| && DecodeU32(s[8..]) == |meta.indexes| &&
      s[12..] == MapBytes(meta.tables) + (MapBytes(meta.indexes) + rest)
  {
    var tables := MapBytes(meta.tables);
    var indexes := MapBytes(meta.indexes);
    Regroup(Header(meta), tables, indexes);
    ThreeWords(CATALOG_METADATA_MAGIC_NUM, |meta.tables|, |meta.indexes|, tables + indexes, rest);
    Regroup(tables, indexes, rest);
  }

  /** Both maps are read back from their pairs. */
  lemma MapsRoundTrip(meta: CatalogMeta, rest: seq<byte>)
    requires Fits(meta)
    ensures DecodeMaps(MapBytes(meta.tables) + (MapBytes(meta.indexes) + rest), |meta.tables|, |meta.indexes|) == Some(meta)
  {
    var tables := MapBytes(meta.tables);
    var after := MapBytes(meta.indexes) + rest;
    assert (tables + after)[|tables|..] == after;
    MapRoundTrip(meta.tables, after);
    MapRoundTrip(meta.indexes, rest);
    Rebuilt(meta.tables);
    Rebuilt(meta.indexes);
  }

  /** The round trip: the metadata read back holds the same tables and indexes. */
  lemma RoundTrip(meta: CatalogMeta, rest: seq<byte>)
    requires Fits(meta)
    ensures Decode(Encode(meta) + rest) == Some(meta)
  {
    Layout(meta, rest);
    MapsRoundTrip(meta, rest);
  }

  /** A wrong magic number stops `DeserializeFrom`. */
  lemma WrongMagic(s: seq<byte>)
    requires |s| >= 4 && DecodeU32(s) != CATALOG_METADATA_MAGIC_NUM
    ensures Decode(s).None?
  {
  }

  /**
   * `SerializeTo`: the magic number and the two counts, then the pairs of
   * the tables and of the indexes, each map in ascending id order.  The
   * metadata must fit in a page.
   */
  method SerializeTo(meta: CatalogMeta, buf: array<byte>, off: nat)
    requires Fits(meta) && SerializedSize(meta) <= PAGE_SIZE
    requires off + SerializedSize(meta) <= buf.Length
    modifies buf
    ensures buf[..] == Written(old(buf[..]), off, Encode(meta))
  {
    ghost var start := buf[..];
    WriteHeader(meta, buf, off);
    WriteMap(meta.tables, buf, off + 12);
    WrittenAfter(start, off, Header(meta), MapBytes(meta.tables));
    WriteMap(meta.indexes, buf, off + 12 + 8 * |meta.tables|);
    WrittenAfter(start, off, Header(meta) + MapBytes(meta.tables), MapBytes(meta.indexes));
  }

  /** The first three writes of `SerializeTo`: the magic number and the two counts. */
  method WriteHeader(meta: CatalogMeta, buf: array<byte>, off: nat)
    requires Fits(meta) && off + 12 <= buf.Length
    modifies buf
    ensures buf[..] == Written(old(buf[..]), off, Header(meta))
  {
    ghost var start := buf[..];
    var magic := EncodeU32(CATALOG_METADATA_MAGIC_NUM);
    var tables := EncodeU32(|meta.tables|);
    Put(buf, off, magic);
    Append(buf, start, off, magic, off + 4, tables);
    Append(buf, start, off, magic + tables, off + 8, EncodeU32(|meta.indexes|));
  }

  /** One loop of `SerializeTo`: every pair of the map, in ascending id order. */
  method WriteMap(m: map<nat, int>, buf: array<byte>, off: nat)
    requires MapFits(m) && off + 8 * |m| <= buf.Length
    modifies buf
    ensures buf[..] == Written(old(buf[..]), off, MapBytes(m))
  {
    ghost var start := buf[..];
    var es := Entries(m);
    ghost var chunks := Chunks(es);
    EightEach(chunks);
    var i := 0;
    assert chunks[..0] == [];
    assert buf[..] == Written(start, off, Flatten(chunks[..0]));
    while i < |es|
      invariant i <= |es| && |start| == buf.Length
      invariant |Flatten(chunks[..i])| == 8 * i
      invariant buf[..] == Written(start, off, Flatten(chunks[..i]))
    {
      FlattenSnoc(chunks, i);
      Append(buf, start, off, Flatten(chunks[..i]), off + 8 * i, EntryBytes(es[i]));
      i := i + 1;
    }
    assert chunks[..i] == chunks;
  }

  /**
   * `DeserializeFrom`: checks the magic number, reads the two counts, then
   * emplaces that many table pairs and index pairs.
   */
  method DeserializeFrom(buf: array<byte>, off: nat) returns (r: Option<CatalogMeta>)
    requires off <= buf.Length
    ensures r == Decode(buf[off..])
  {
    ghost var s := buf[off..];
    if buf.Length - off < 12 {
      return None;
    }
    var magic := ReadU32(buf, off);
    if magic != CATALOG_METADATA_MAGIC_NUM {
      return None;
    }
    var tableCount := ReadU32(buf, off + 4);
    var indexCount := ReadU32(buf, off + 8);
    assert s[4..] == buf[off + 4..] && s[8..] == buf[off + 8..] && s[12..] == buf[off + 12..];
    r := ReadMaps(buf, off + 12, tableCount, indexCount);
  }

  /** The two loops of `DeserializeFrom`, one map after the other. */
  method ReadMaps(buf: array<byte>, pos: nat, tableCount: nat, indexCount: nat) returns (r: Option<CatalogMeta>)
    requires pos <= buf.Length
    ensures r == DecodeMaps(buf[pos..], tableCount, indexCount)
  {
    ghost var body := buf[pos..];
    var tables := ReadMap(buf, pos, tableCount, body);
    if tables.None? {
      return None;
    }
    ghost var after := body[tables.value.1..];
    assert after == buf[pos + tables.value.1..];
    var indexes := ReadMap(buf, pos + tables.value.1, indexCount, after);
    if indexes.None? {
      return None;
    }
    return Some(CatalogMeta(tables.value.0, indexes.value.0));
  }

  /** One loop of `DeserializeFrom`: `num` pairs, each emplaced into the map. */
  method ReadMap(buf: array<byte>, pos: nat, num: nat, ghost s: seq<byte>) returns (r: Option<(map<nat, int>, nat)>)
    requires pos <= buf.Length && s == buf[pos..]
    ensures Consumes(ReadEntry)
    ensures var d := ReadMany(ReadEntry, s, num);
      (r.None? <==> d.None?) && (r.Some? ==> r.value.0 == EmplaceAll(map[], d.value.0) && r.value.1 == d.value.1)
  {
    EntryReader();
    ghost var done: seq<Entry> := [];
    var m: map<nat, int> := map[];
    var size: nat := 0;
    var i := 0;
    while i < num
      invariant i <= num && pos + size <= buf.Length
      invariant ReadFirst(ReadEntry, s, i, done, size) && m == EmplaceAll(map[], done)
    {
      var e := ReadPair(buf, pos, s, i, done, size, num);
      if e.None? {
        return None;
      }
      assert (done + [e.value.0])[..|done|] == done;
      done := done + [e.value.0];
      m := Emplace(m, e.value.0);
      size := size + 8;
      i := i + 1;
    }
    return Some((m, size));
  }

  /** One pass of a loop of `DeserializeFrom`: the next pair, after the first `i`. */
  method ReadPair(buf: array<byte>, pos: nat, ghost s: seq<byte>, ghost i: nat, ghost done: seq<Entry>, size: nat, ghost num: nat)
    returns (e: Option<(Entry, nat)>)
    requires pos + size <= buf.Length && s == buf[pos..] && i < num
    requires Consumes(ReadEntry) && ReadFirst(ReadEntry, s, i, done, size)
    ensures e.None? ==> ReadMany(ReadEntry, s, num).None?
    ensures e.Some? ==> e.value.1 == 8 && pos + size + 8 <= buf.Length && ReadFirst(ReadEntry, s, i + 1, done + [e.value.0], size + 8)
  {
    assert buf[pos + size..] == s[size..];
    if buf.Length - pos - size < 8 {
      e := None;
      ReadStop(ReadEntry, s, i, done, size, num);
    } else {
      var id := ReadU32(buf, pos + size);
      var page := ReadI32(buf, pos + size + 4);
      assert buf[pos + size + 4..] == s[size..][4..];
      e := Some(((id, page), 8));
      ReadMore(ReadEntry, s, i, done, size, e);
    }
  }
}
