/** The v2 pack index: building it (src/pack/writer.rs) and looking ids up in it (src/pack/mod.rs). */
module PackIndex {
  import opened Base
  import opened PackFormat
  import opened Tables
  import IdTable
  import Order

  const MAGIC: Bytes := [0xFF, 0x74, 0x4F, 0x63]
  const INLINE_LIMIT: int := 0x8000_0000
  const IDS_START: nat := 1032

  /** One object: its id, its pack offset, and the CRC of its pack bytes. */
  datatype Row = Row(id: Id, offset: nat, crc: nat)

  predicate RowAtMost(a: Row, b: Row) { Order.AtMost(a.id, b.id) }

  lemma RowOrder()
    ensures Order.TotalOrder(RowAtMost)
  {
    forall a, b: Row ensures RowAtMost(a, b) || RowAtMost(b, a) { Order.LessTotal(a.id, b.id); }
    forall a: Row, b: Row, c: Row | RowAtMost(a, b) && RowAtMost(b, c) ensures RowAtMost(a, c) {
      if a.id != b.id && b.id != c.id { Order.LessTransitive(a.id, b.id, c.id); }
    }
  }

  predicate DistinctIds(rows: seq<Row>) {
    forall i, j :: 0 <= i < j < |rows| ==> rows[i].id != rows[j].id
  }

  predicate RowsFit(env: Env, rows: seq<Row>) {
    && |rows| < INLINE_LIMIT
    && forall i :: 0 <= i < |rows| ==>
         |rows[i].id| == env.algo.RawLen() && rows[i].offset < TWO_64 && rows[i].crc < TWO_32
  }

  // ------------------------------------------------------------------ fanout

  /** Counts first bytes, then accumulates in place. */
  method Fanout(ids: seq<Id>) returns (out: Bytes)
    requires IdTable.NonEmpty(ids)
    ensures out == Concat(IdTable.FanoutParts(ids))
  {
    var fanout := seq(256, _ => 0);
    for i := 0 to |ids|
      invariant |fanout| == 256
      invariant forall b :: 0 <= b < 256 ==> fanout[b] == IdTable.CountEqual(ids[..i], b)
    {
      assert ids[..i + 1][..i] == ids[..i];
      var first := ids[i][0];
      fanout := fanout[first := fanout[first] + 1];
    }
    assert ids[..|ids|] == ids;
    var acc := 0;
    IdTable.CountSteps(ids, -1);
    for b := 0 to 256
      invariant |fanout| == 256 && acc == IdTable.CountUpTo(ids, b - 1)
      invariant forall c :: 0 <= c < b ==> fanout[c] == IdTable.CountUpTo(ids, c)
      invariant forall c :: b <= c < 256 ==> fanout[c] == IdTable.CountEqual(ids, c)
    {
      IdTable.CountSteps(ids, b);
      acc := acc + fanout[b];
      fanout := fanout[b := acc];
    }
    out := [];
    ghost var parts := IdTable.FanoutParts(ids);
    for b := 0 to 256
      invariant out == Concat(parts[..b])
    {
      ConcatSnoc(parts[..b], parts[b]);
      assert parts[..b + 1] == parts[..b] + [parts[b]];
      out := out + U32Bytes(fanout[b]);
    }
    assert parts[..256] == parts;
  }

  // ------------------------------------------------------------- offset table

  function LargeParts(rows: seq<Row>): (r: seq<Bytes>)
    ensures Width(r, 8) && |r| <= |rows|
  {
    if rows == [] then []
    else
      var init, last := LargeParts(rows[..|rows| - 1]), rows[|rows| - 1];
      if last.offset < INLINE_LIMIT then init else init + [U64Bytes(last.offset)]
  }

  /** The 4-byte field of row `i`: the offset, or a flagged index into the 8-byte table. */
  function SmallField(rows: seq<Row>, i: nat): (r: nat)
    requires i < |rows|
  {
    if rows[i].offset < INLINE_LIMIT then rows[i].offset
    else INLINE_LIMIT + |LargeParts(rows[..i])|
  }

  function IdParts(rows: seq<Row>): (r: seq<Bytes>)
    ensures |r| == |rows| && forall i :: 0 <= i < |rows| ==> r[i] == rows[i].id
  { seq(|rows|, i requires 0 <= i < |rows| => rows[i].id) }

  function CrcParts(rows: seq<Row>): (r: seq<Bytes>)
    ensures |r| == |rows| && Width(r, 4) && forall i :: 0 <= i < |rows| ==> r[i] == U32Bytes(rows[i].crc)
  { seq(|rows|, i requires 0 <= i < |rows| => U32Bytes(rows[i].crc)) }

  function SmallParts(rows: seq<Row>): (r: seq<Bytes>)
    ensures |r| == |rows| && Width(r, 4) && forall i :: 0 <= i < |rows| ==> r[i] == U32Bytes(SmallField(rows, i))
  { seq(|rows|, i requires 0 <= i < |rows| => U32Bytes(SmallField(rows, i))) }

  /** Row `i`'s entry in the 8-byte table, when it has one. */
  lemma {:induction false} LargePartAt(rows: seq<Row>, i: nat)
    requires i < |rows| && rows[i].offset >= INLINE_LIMIT
    ensures |LargeParts(rows[..i])| < |LargeParts(rows)|
    ensures LargeParts(rows)[|LargeParts(rows[..i])|] == U64Bytes(rows[i].offset)
  {
    var init := rows[..|rows| - 1];
    if i < |rows| - 1 {
      LargePartAt(init, i);
      assert init[..i] == rows[..i];
    }
  }

  // ------------------------------------------------------------------ writing

  /** The index file up to its own trailing hash, for rows already in id order. */
  function Layout(rows: seq<Row>, packHash: Bytes): (r: Bytes)
    requires forall i :: 0 <= i < |rows| ==> rows[i].id != []
  {
    MAGIC + U32Bytes(2) + Concat(IdTable.FanoutParts(IdParts(rows))) + Concat(IdParts(rows)) + Concat(CrcParts(rows))
    + Concat(SmallParts(rows)) + Concat(LargeParts(rows)) + packHash
  }

  function SortedRows(rows: seq<Row>): (r: seq<Row>)
    ensures multiset(r) == multiset(rows) && |r| == |rows| && Order.Sorted(RowAtMost, r)
    ensures forall row :: row in r <==> row in rows
  {
    RowOrder();
    Order.Sort(RowAtMost, rows)
  }

  method BuildIndex(env: Env, meta: seq<Row>, packHash: Bytes) returns (idx: Bytes)
    requires forall row :: row in meta ==> row.id != []
    ensures (forall i :: 0 <= i < |meta| ==> SortedRows(meta)[i].id != [])
    ensures idx == Layout(SortedRows(meta), packHash) + env.digest(Layout(SortedRows(meta), packHash))
  {
    var rows := SortedRows(meta);
    assert forall i :: 0 <= i < |rows| ==> rows[i] in rows;
    idx := MAGIC + U32Bytes(2);
    var fanout := Fanout(IdParts(rows));
    idx := idx + fanout;
    var ids, crcs := IdAndCrcTables(rows);
    idx := idx + ids + crcs;
    var small, large := SmallTable(rows);
    var wide := LargeTable(large, LargeParts(rows));
    idx := idx + small + wide;
    idx := idx + packHash;
    assert idx == Layout(rows, packHash);
    idx := idx + env.digest(idx);
  }

  method IdAndCrcTables(rows: seq<Row>) returns (ids: Bytes, crcs: Bytes)
    ensures ids == Concat(IdParts(rows)) && crcs == Concat(CrcParts(rows))
  {
    ids, crcs := [], [];
    ghost var a, b := IdParts(rows), CrcParts(rows);
    for i := 0 to |rows|
      invariant ids == Concat(a[..i]) && crcs == Concat(b[..i])
    {
      assert a[..i + 1] == a[..i] + [a[i]] && b[..i + 1] == b[..i] + [b[i]];
      ids := ids + rows[i].id;
      crcs := crcs + U32Bytes(rows[i].crc);
    }
    assert a[..|rows|] == a && b[..|rows|] == b;
  }

  /** The 4-byte offset fields; offsets past 31 bits go to `large`. */
  method SmallTable(rows: seq<Row>) returns (small: Bytes, large: seq<nat>)
    ensures small == Concat(SmallParts(rows))
    ensures |large| == |LargeParts(rows)|
    ensures forall k :: 0 <= k < |large| ==> LargeParts(rows)[k] == U64Bytes(large[k])
  {
    hide U32Bytes, U64Bytes;
    small, large := [], [];
    ghost var a := SmallParts(rows);
    for i := 0 to |rows|
      invariant small == Concat(a[..i])
      invariant |large| == |LargeParts(rows[..i])|
      invariant forall k :: 0 <= k < |large| ==> LargeParts(rows[..i])[k] == U64Bytes(large[k])
    {
      assert a[..i + 1] == a[..i] + [a[i]] && rows[..i + 1][..i] == rows[..i];
      if rows[i].offset < INLINE_LIMIT {
        small := small + U32Bytes(rows[i].offset);
      } else {
        small := small + U32Bytes(INLINE_LIMIT + |large|);
        large := large + [rows[i].offset];
      }
    }
    assert a[..|rows|] == a && rows[..|rows|] == rows;
  }

  method LargeTable(large: seq<nat>, ghost parts: seq<Bytes>) returns (wide: Bytes)
    requires |parts| == |large| && forall k :: 0 <= k < |large| ==> parts[k] == U64Bytes(large[k])
    ensures wide == Concat(parts)
  {
    wide := [];
    for k := 0 to |large|
      invariant wide == Concat(parts[..k])
    {
      assert parts[..k + 1] == parts[..k] + [parts[k]];
      wide := wide + U64Bytes(large[k]);
    }
    assert parts[..|large|] == parts;
  }

  // ------------------------------------------------------------------ reading

  /** A parsed index: the id table, the offset table, and the 8-byte table. */
  datatype Index = Index(ids: IdTable.Ids, offsets: Bytes, large: Bytes)

  predicate ValidIndex(ix: Index)
  {
    IdTable.Valid(ix.ids) && |ix.offsets| == ix.ids.count * 4
  }

  function Parse(algo: HashAlgo, data: Bytes): (r: Result<Index>)
    ensures r.Ok? ==> ValidIndex(r.value)
  {
    var idLen := algo.RawLen();
    if |data| < IDS_START || data[..4] != MAGIC || U32At(data, 4) != 2 then Err
    else
      var count := U32At(data, 8 + 255 * 4);
      var crcStart := IDS_START + count * idLen;
      var offStart := crcStart + count * 4;
      var largeStart := offStart + count * 4;
      if largeStart > |data| then Err
      else
        var largeEnd := Max(Max(|data| - 2 * idLen, 0), largeStart);
        Ok(Index(IdTable.Ids(idLen, data[IDS_START..crcStart], count), data[offStart..largeStart],
                 data[largeStart..largeEnd]))
  }

  function OffsetAt(ix: Index, row: nat): (r: Option<nat>)
    requires ValidIndex(ix) && row < ix.ids.count
  {
    RowBounds(row, ix.ids.count, 4);
    var raw := U32At(ix.offsets, row * 4);
    if raw < INLINE_LIMIT then Some(raw)
    else
      var at := (raw - INLINE_LIMIT) * 8;
      if at + 8 > |ix.large| then None else Some(U64At(ix.large, at))
  }

  /** What a lookup should return: the offset of the row with that id, if any. */
  ghost predicate Located(ix: Index, id: Id, r: Option<nat>)
    requires ValidIndex(ix)
  {
    (exists i :: 0 <= i < ix.ids.count && IdTable.Row(ix.ids, i) == id && r == OffsetAt(ix, i))
    || (r.None? && forall i :: 0 <= i < ix.ids.count ==> IdTable.Row(ix.ids, i) != id)
  }

  /** The lookup as a function of the id. */
  ghost function Lookup(ix: Index, id: Id): (r: Option<nat>)
    ensures ValidIndex(ix) ==> Located(ix, id, r)
  {
    if ValidIndex(ix) && exists i :: 0 <= i < ix.ids.count && IdTable.Row(ix.ids, i) == id then
      var i :| 0 <= i < ix.ids.count && IdTable.Row(ix.ids, i) == id;
      OffsetAt(ix, i)
    else None
  }

  method OffsetOf(ix: Index, id: Id) returns (r: Option<nat>)
    requires ValidIndex(ix)
    ensures IdTable.Sorted(ix.ids) ==> Located(ix, id, r)
  {
    var row := IdTable.Search(ix.ids, id);
    if row.None? {
      return None;
    }
    return OffsetAt(ix, row.value);
  }

  // --------------------------------------------------------------- round trip

  /** The parsed form of a built index. */
  function Built(env: Env, rows: seq<Row>): (ix: Index)
  {
    Index(IdTable.TableOf(IdParts(rows), env.algo.RawLen()), Concat(SmallParts(rows)), Concat(LargeParts(rows)))
  }

  lemma LayoutSizes(env: Env, rows: seq<Row>)
    requires RowsFit(env, rows)
    ensures |Concat(IdTable.FanoutParts(IdParts(rows)))| == 1024
    ensures |Concat(IdParts(rows))| == |rows| * env.algo.RawLen()
    ensures |Concat(CrcParts(rows))| == |rows| * 4 && |Concat(SmallParts(rows))| == |rows| * 4
  {
    ConcatWidth(IdTable.FanoutParts(IdParts(rows)), 4);
    ConcatWidth(IdParts(rows), env.algo.RawLen());
    ConcatWidth(CrcParts(rows), 4);
    ConcatWidth(SmallParts(rows), 4);
  }

  /** Where each table of a laid-out index sits. */
  lemma LayoutPieces(env: Env, rows: seq<Row>, packHash: Bytes, data: Bytes)
    requires RowsFit(env, rows) && At(data, 0, Layout(rows, packHash))
    ensures
      var offStart := IDS_START + |Concat(IdParts(rows))| + |Concat(CrcParts(rows))|;
      && At(data, 0, MAGIC) && At(data, 4, U32Bytes(2)) && At(data, 8, Concat(IdTable.FanoutParts(IdParts(rows))))
      && At(data, IDS_START, Concat(IdParts(rows)))
      && At(data, offStart, Concat(SmallParts(rows)))
      && At(data, offStart + |Concat(SmallParts(rows))|, Concat(LargeParts(rows)))
  {
    hide At, Concat, IdTable.FanoutParts, IdParts, CrcParts, SmallParts, LargeParts, U32Bytes;
    LayoutSizes(env, rows);
    var a, b, c := MAGIC, U32Bytes(2), Concat(IdTable.FanoutParts(IdParts(rows)));
    var d, e, f := Concat(IdParts(rows)), Concat(CrcParts(rows)), Concat(SmallParts(rows));
    var g := Concat(LargeParts(rows));
    AtSplit(data, 0, a + b + c + d + e + f + g, packHash);
    AtSplit(data, 0, a + b + c + d + e + f, g);
    AtSplit(data, 0, a + b + c + d + e, f);
    AtSplit(data, 0, a + b + c + d, e);
    AtSplit(data, 0, a + b + c, d);
    AtSplit(data, 0, a + b, c);
    AtSplit(data, 0, a, b);
  }

  /** A built index parses back to its own tables. */
  lemma BuiltParses(env: Env, rows: seq<Row>, packHash: Bytes, trailer: Bytes)
    requires RowsFit(env, rows) && |packHash| == |trailer| == env.algo.RawLen()
    ensures Parse(env.algo, Layout(rows, packHash) + trailer) == Ok(Built(env, rows))
  {
    hide Concat, IdTable.FanoutParts, IdParts, CrcParts, SmallParts, LargeParts, U32Bytes, U32At, Layout;
    var data := Layout(rows, packHash) + trailer;
    assert At(data, 0, Layout(rows, packHash)) by { assert data[..|Layout(rows, packHash)|] == Layout(rows, packHash); }
    LayoutSizes(env, rows);
    LayoutLength(env, rows, packHash);
    LayoutPieces(env, rows, packHash, data);
    IdTable.FanoutTotal(IdParts(rows), data, 8);
    U32RoundTrip(data, 4, 2);
  }

  lemma LayoutLength(env: Env, rows: seq<Row>, packHash: Bytes)
    requires RowsFit(env, rows)
    ensures |Layout(rows, packHash)| ==
      IDS_START + |Concat(IdParts(rows))| + |Concat(CrcParts(rows))| + |Concat(SmallParts(rows))|
      + |Concat(LargeParts(rows))| + |packHash|
  {
    hide Concat, IdTable.FanoutParts, IdParts, CrcParts, SmallParts, LargeParts;
    LayoutSizes(env, rows);
  }

  /** Every row of a built index reads back its id and its offset, inline or large. */
  lemma BuiltRow(env: Env, rows: seq<Row>, i: nat)
    requires RowsFit(env, rows) && i < |rows|
    ensures ValidIndex(Built(env, rows))
    ensures IdTable.Row(Built(env, rows).ids, i) == rows[i].id
    ensures OffsetAt(Built(env, rows), i) == Some(rows[i].offset)
  {
    hide Concat;
    IdTable.TableRows(IdParts(rows), env.algo.RawLen());
    LayoutSizes(env, rows);
    assert At(Concat(SmallParts(rows)), 0, Concat(SmallParts(rows)));
    RowAt(Concat(SmallParts(rows)), 0, SmallParts(rows), 4, i);
    BuiltOffset(rows, i);
  }

  lemma BuiltOffset(rows: seq<Row>, i: nat)
    requires i < |rows| < INLINE_LIMIT && rows[i].offset < TWO_64
    requires At(Concat(SmallParts(rows)), i * 4, U32Bytes(SmallField(rows, i)))
    ensures
      var raw := U32At(Concat(SmallParts(rows)), i * 4);
      var large := Concat(LargeParts(rows));
      && raw == SmallField(rows, i)
      && (raw >= INLINE_LIMIT ==>
            && (raw - INLINE_LIMIT) * 8 + 8 <= |large|
            && U64At(large, (raw - INLINE_LIMIT) * 8) == rows[i].offset)
  {
    hide Concat, U32At, U64At, U32Bytes, U64Bytes, SmallParts, LargeParts;
    U32RoundTrip(Concat(SmallParts(rows)), i * 4, SmallField(rows, i));
    if rows[i].offset >= INLINE_LIMIT {
      var k := |LargeParts(rows[..i])|;
      LargePartAt(rows, i);
      var large := Concat(LargeParts(rows));
      RowAt(large, 0, LargeParts(rows), 8, k);
      U64RoundTrip(large, k * 8, rows[i].offset);
    }
  }

  lemma BuiltSorted(env: Env, rows: seq<Row>)
    requires RowsFit(env, rows) && Order.Sorted(RowAtMost, rows) && DistinctIds(rows)
    ensures ValidIndex(Built(env, rows)) && IdTable.Sorted(Built(env, rows).ids)
  {
    LayoutSizes(env, rows);
    var ids := IdParts(rows);
    forall i, j | 0 <= i < j < |ids| ensures Order.Less(ids[i], ids[j]) {
      assert RowAtMost(rows[i], rows[j]);
    }
    IdTable.TableSorted(ids, env.algo.RawLen());
  }

  /** Distinctness survives the sort. */
  lemma SortedDistinct(meta: seq<Row>)
    requires DistinctIds(meta)
    ensures DistinctIds(SortedRows(meta))
  {
    var rows := SortedRows(meta);
    forall i, j | 0 <= i < j < |rows| ensures rows[i].id != rows[j].id {
      assert rows[i] in meta && rows[j] in meta;
      if rows[i].id == rows[j].id {
        SameIdOnce(meta, rows, i, j);
      }
    }
  }

  lemma SameIdOnce(meta: seq<Row>, rows: seq<Row>, i: nat, j: nat)
    requires DistinctIds(meta) && multiset(rows) == multiset(meta) && i < j < |rows|
    ensures rows[i].id != rows[j].id
  {
    var x, y := rows[i], rows[j];
    assert x in multiset(rows) && y in multiset(rows);
    var k :| 0 <= k < |meta| && meta[k] == x;
    var l :| 0 <= l < |meta| && meta[l] == y;
    if x == y {
      Order.TwiceCounts(rows, i, j);
      Order.OnceCounts(meta, k);
    }
  }

  /** The built index maps each id to its offset and no other id to anything. */
  lemma IndexFindsExactly(env: Env, meta: seq<Row>, packHash: Bytes, id: Id, r: Option<nat>)
    requires env.Lawful() && DistinctIds(meta) && RowsFit(env, meta) && |packHash| == env.algo.RawLen()
    ensures RowsFit(env, SortedRows(meta))
    ensures
      var file := Layout(SortedRows(meta), packHash);
      var ix := Parse(env.algo, file + env.digest(file));
      && ix.Ok? && IdTable.Sorted(ix.value.ids)
      && (Located(ix.value, id, r) ==>
            && (forall row :: row in meta && row.id == id ==> r == Some(row.offset))
            && ((forall row :: row in meta ==> row.id != id) ==> r.None?))
  {
    var rows := SortedRows(meta);
    assert RowsFit(env, rows) by {
      forall i | 0 <= i < |rows|
        ensures |rows[i].id| == env.algo.RawLen() && rows[i].offset < TWO_64 && rows[i].crc < TWO_32
      { assert rows[i] in meta; }
    }
    SortedDistinct(meta);
    BuiltParses(env, rows, packHash, env.digest(Layout(rows, packHash)));
    BuiltSorted(env, rows);
    if Located(Built(env, rows), id, r) {
      LocatedRow(env, rows, id, r);
    }
  }

  lemma LocatedRow(env: Env, rows: seq<Row>, id: Id, r: Option<nat>)
    requires RowsFit(env, rows) && DistinctIds(rows)
    requires ValidIndex(Built(env, rows)) && Located(Built(env, rows), id, r)
    ensures forall row :: row in rows && row.id == id ==> r == Some(row.offset)
    ensures (forall row :: row in rows ==> row.id != id) ==> r.None?
  {
    var ix := Built(env, rows);
    forall i | 0 <= i < ix.ids.count
      ensures IdTable.Row(ix.ids, i) == rows[i].id && OffsetAt(ix, i) == Some(rows[i].offset)
    {
      BuiltRow(env, rows, i);
    }
    forall row | row in rows && row.id == id ensures r == Some(row.offset) {
      var k :| 0 <= k < |rows| && rows[k] == row;
      assert IdTable.Row(ix.ids, k) == id;
    }
    if forall row :: row in rows ==> row.id != id {
      assert forall i :: 0 <= i < ix.ids.count ==> rows[i] in rows;
    }
  }
}
