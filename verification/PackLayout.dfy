/** What the bytes of a packfile and of its index are (src/pack/writer.rs, src/pack/mod.rs). */
module PackLayout {
  import opened Base
  import opened Tables
  import opened PackFormat
  import opened PackReader
  import Delta
  import IdTable
  import PackIndex
  import PackWriter

  // ------------------------------------------------------------------ entries

  /** A type in the high bits and a size: four bits in the first byte, then seven a byte. */
  function TypedSize(ty: nat, size: nat): (r: Bytes)
    requires ty <= 0x70 && ty % 0x10 == 0
  { if size < 0x10 then [ty + size] else [0x80 + ty + size % 0x10] + Delta.VarintBytes(size / 0x10) }

  /** Commits are 1, trees 2, blobs 3, tags 4, deltas on an offset 6, deltas on an id 7. */
  lemma FrameMeans(env: Env, s: Bytes, rel: nat, id: Id)
    ensures FrameBytes(env, Full(Commit), s) == TypedSize(0x10, |s|) + env.zlib.deflate(s)
    ensures FrameBytes(env, Full(Tree), s) == TypedSize(0x20, |s|) + env.zlib.deflate(s)
    ensures FrameBytes(env, Full(Blob), s) == TypedSize(0x30, |s|) + env.zlib.deflate(s)
    ensures FrameBytes(env, Full(Tag), s) == TypedSize(0x40, |s|) + env.zlib.deflate(s)
    ensures FrameBytes(env, OfsDelta(rel), s) == TypedSize(0x60, |s|) + OfsBytes(rel) + env.zlib.deflate(s)
    ensures FrameBytes(env, RefDelta(id), s) == TypedSize(0x70, |s|) + id + env.zlib.deflate(s)
  {
    hide Delta.VarintBytes, OfsBytes;
  }

  /** A distance in base 128, most significant digit first, every digit before the last counting
      one more than it shows. */
  lemma OfsForm(a: nat, b: nat, c: nat)
    requires a < 0x80 && b < 0x80 && c < 0x80
    ensures OfsBytes(a) == [a]
    ensures OfsBytes((a + 1) * 0x80 + b) == [0x80 + a, b]
    ensures OfsBytes(((a + 1) * 0x80 + b + 1) * 0x80 + c) == [0x80 + a, 0x80 + b, c]
  {
    hide OfsBytes, OfsPrefix;
    PrefixForm(a, 0);
    PrefixForm(b, a + 1);
    OfsStep(a, 0);
    OfsStep(b, a + 1);
    OfsStep(c, (a + 1) * 0x80 + b + 1);
  }

  lemma OfsStep(d: nat, n: nat)
    requires d < 0x80
    ensures OfsBytes(n * 0x80 + d) == if n == 0 then [d] else OfsPrefix(n - 1) + [d]
  {
    assert (n * 0x80 + d) / 0x80 == n && (n * 0x80 + d) % 0x80 == d;
  }

  lemma PrefixForm(d: nat, n: nat)
    requires d < 0x80
    ensures OfsPrefix(n * 0x80 + d) == if n == 0 then [0x80 + d] else OfsPrefix(n - 1) + [0x80 + d]
  {
    assert (n * 0x80 + d) / 0x80 == n && (n * 0x80 + d) % 0x80 == d;
  }

  // -------------------------------------------------------------------- index

  function FirstByte(id: Id): (r: int) { if id == [] then 0x100 else id[0] }

  lemma {:induction false} CountMeans(ids: seq<Id>, b: int)
    requires IdTable.NonEmpty(ids)
    ensures IdTable.CountUpTo(ids, b) == |set i | 0 <= i < |ids| && FirstByte(ids[i]) <= b|
  {
    var all := set i | 0 <= i < |ids| && FirstByte(ids[i]) <= b;
    if ids == [] {
      assert all == {};
    } else {
      var n := |ids| - 1;
      var init := ids[..n];
      CountMeans(init, b);
      var few := set i | 0 <= i < |init| && FirstByte(init[i]) <= b;
      forall i ensures i in all <==> i in few || (i == n && FirstByte(ids[n]) <= b) {
        if 0 <= i < n { assert init[i] == ids[i]; }
      }
      assert all == if FirstByte(ids[n]) <= b then few + {n} else few;
    }
  }

  /** Magic and version 2, for each byte the number of ids that start with it or a smaller one, the
      ids, the CRCs, the offsets and the digest of the packfile. */
  lemma IndexMeans(env: Env, rows: seq<PackIndex.Row>, packHash: Bytes, data: Bytes, crcs: nat)
    requires crcs == 1032 + |rows| * env.algo.RawLen()
    requires PackIndex.RowsFit(env, rows) && At(data, 0, PackIndex.Layout(rows, packHash))
    ensures |data| >= 1032 && data[..8] == [0xFF, 0x74, 0x4F, 0x63, 0, 0, 0, 2]
    ensures forall b :: 0 <= b < 256 ==>
      U32At(data, 8 + b * 4) == |set i | 0 <= i < |rows| && FirstByte(rows[i].id) <= b|
    ensures RowsMean(data, rows, env.algo.RawLen(), crcs)
    ensures
      var wide := |set i | 0 <= i < |rows| && rows[i].offset >= 0x8000_0000|;
      At(data, crcs + |rows| * 8 + wide * 8, packHash)
  {
    hide PackIndex.IdParts, PackIndex.CrcParts, PackIndex.SmallParts, PackIndex.LargeParts;
    hide At, Concat, U32Bytes, U32At, IdTable.FanoutParts, PackIndex.Layout, IdTable.CountUpTo;
    var n, ids := env.algo.RawLen(), PackIndex.IdParts(rows);
    IndexPieces(env, rows, packHash, data, crcs);
    MagicMeans(data);
    forall b | 0 <= b < 256
      ensures U32At(data, 8 + b * 4) == |set i | 0 <= i < |rows| && FirstByte(rows[i].id) <= b|
    {
      FanoutMeans(rows, data, b);
    }
    forall i | 0 <= i < |rows| ensures RowMeans(data, rows, n, crcs, i) { RowIs(rows, data, n, crcs, i); }
    WideMeans(rows);
  }

  lemma MagicMeans(data: Bytes)
    requires At(data, 0, [0xFF, 0x74, 0x4F, 0x63] + U32Bytes(2))
    ensures data[..8] == [0xFF, 0x74, 0x4F, 0x63, 0, 0, 0, 2]
  {
    PackWriter.SmallWord();
    assert data[0..8] == [0xFF, 0x74, 0x4F, 0x63] + [0, 0, 0, 2];
  }

  /** Where each table starts. */
  lemma IndexPieces(env: Env, rows: seq<PackIndex.Row>, packHash: Bytes, data: Bytes, crcs: nat)
    requires crcs == 1032 + |rows| * env.algo.RawLen()
    requires PackIndex.RowsFit(env, rows) && At(data, 0, PackIndex.Layout(rows, packHash))
    ensures
      var small := crcs + |rows| * 4;
      var large := small + |rows| * 4;
      && |data| >= 1032 && At(data, 0, [0xFF, 0x74, 0x4F, 0x63] + U32Bytes(2))
      && At(data, 8, Concat(IdTable.FanoutParts(PackIndex.IdParts(rows))))
      && At(data, 1032, Concat(PackIndex.IdParts(rows))) && At(data, crcs, Concat(PackIndex.CrcParts(rows)))
      && At(data, small, Concat(PackIndex.SmallParts(rows))) && At(data, large, Concat(PackIndex.LargeParts(rows)))
      && At(data, large + |PackIndex.LargeParts(rows)| * 8, packHash)
  {
    hide PackIndex.IdParts, PackIndex.CrcParts, PackIndex.SmallParts, PackIndex.LargeParts;
    hide At, Concat, U32Bytes, IdTable.FanoutParts;
    PackIndex.LayoutSizes(env, rows);
    ConcatWidth(PackIndex.LargeParts(rows), 8);
    var b, c := PackIndex.MAGIC + U32Bytes(2), Concat(IdTable.FanoutParts(PackIndex.IdParts(rows)));
    var d, e := Concat(PackIndex.IdParts(rows)), Concat(PackIndex.CrcParts(rows));
    var f, g := Concat(PackIndex.SmallParts(rows)), Concat(PackIndex.LargeParts(rows));
    AtSplit(data, 0, b + c + d + e + f + g, packHash);
    AtSplit(data, 0, b + c + d + e + f, g);
    AtSplit(data, 0, b + c + d + e, f);
    AtSplit(data, 0, b + c + d, e);
    AtSplit(data, 0, b + c, d);
    AtSplit(data, 0, b, c);
    AtEnds(data, 1032, d);
  }

  lemma AtEnds(data: Bytes, pos: nat, piece: Bytes)
    requires At(data, pos, piece)
    ensures pos + |piece| <= |data|
  {}

  lemma FanoutMeans(rows: seq<PackIndex.Row>, data: Bytes, b: nat)
    requires b < 256 && |rows| < 0x8000_0000 && IdTable.NonEmpty(PackIndex.IdParts(rows))
    requires At(data, 8, Concat(IdTable.FanoutParts(PackIndex.IdParts(rows))))
    ensures 12 + b * 4 <= |data|
    ensures U32At(data, 8 + b * 4) == |set i | 0 <= i < |rows| && FirstByte(rows[i].id) <= b|
  {
    hide Concat, U32Bytes, U32At, IdTable.CountUpTo;
    var ids := PackIndex.IdParts(rows);
    RowAt(data, 8, IdTable.FanoutParts(ids), 4, b);
    U32RoundTrip(data, 8 + b * 4, IdTable.CountUpTo(ids, b));
    CountMeans(ids, b);
    assert (set i | 0 <= i < |ids| && FirstByte(ids[i]) <= b)
        == set i | 0 <= i < |rows| && FirstByte(rows[i].id) <= b;
  }

  lemma {:induction false} WideMeans(rows: seq<PackIndex.Row>)
    ensures |PackIndex.LargeParts(rows)| == |set i | 0 <= i < |rows| && rows[i].offset >= 0x8000_0000|
  {
    var all := set i | 0 <= i < |rows| && rows[i].offset >= 0x8000_0000;
    if rows == [] {
      assert all == {};
    } else {
      var n := |rows| - 1;
      var init := rows[..n];
      WideMeans(init);
      var few := set i | 0 <= i < |init| && init[i].offset >= 0x8000_0000;
      assert all == if rows[n].offset >= 0x8000_0000 then few + {n} else few;
    }
  }

  /** Row `i`'s id, CRC and offset, with ids of `n` bytes and the CRCs from `crcs` on. */
  predicate RowMeans(data: Bytes, rows: seq<PackIndex.Row>, n: nat, crcs: nat, i: nat)
    requires i < |rows|
  {
    var small := crcs + |rows| * 4;
    var large := small + |rows| * 4;
    && i * n >= 0 && small + i * 4 + 4 <= |data|
    && At(data, 1032 + i * n, rows[i].id) && At(data, crcs + i * 4, U32Bytes(rows[i].crc))
    && var field := U32At(data, small + i * 4);
       if rows[i].offset < 0x8000_0000 then field == rows[i].offset
       else field >= 0x8000_0000 && At(data, large + (field - 0x8000_0000) * 8, U64Bytes(rows[i].offset))
  }

  predicate RowsMean(data: Bytes, rows: seq<PackIndex.Row>, n: nat, crcs: nat)
  { forall i :: 0 <= i < |rows| ==> RowMeans(data, rows, n, crcs, i) }

  lemma RowIs(rows: seq<PackIndex.Row>, data: Bytes, n: nat, crcs: nat, i: nat)
    requires i < |rows| < 0x8000_0000 && rows[i].offset < TWO_64 && Width(PackIndex.IdParts(rows), n)
    requires
      var small := crcs + |rows| * 4;
      var large := small + |rows| * 4;
      && At(data, 1032, Concat(PackIndex.IdParts(rows))) && At(data, crcs, Concat(PackIndex.CrcParts(rows)))
      && At(data, small, Concat(PackIndex.SmallParts(rows))) && At(data, large, Concat(PackIndex.LargeParts(rows)))
    ensures RowMeans(data, rows, n, crcs, i)
  {
    hide Concat, U32Bytes, U32At, U64Bytes, PackIndex.LargeParts, PackIndex.SmallParts, At;
    hide Width, PackIndex.IdParts, PackIndex.CrcParts;
    var small := crcs + |rows| * 4;
    IdIs(rows, data, n, i);
    CrcIs(rows, data, crcs, i);
    OffsetIs(rows, data, small, small + |rows| * 4, i);
  }

  lemma IdIs(rows: seq<PackIndex.Row>, data: Bytes, n: nat, i: nat)
    requires i < |rows| && Width(PackIndex.IdParts(rows), n) && At(data, 1032, Concat(PackIndex.IdParts(rows)))
    ensures i * n >= 0 && At(data, 1032 + i * n, rows[i].id)
  {
    hide Concat, At;
    RowAt(data, 1032, PackIndex.IdParts(rows), n, i);
  }

  lemma CrcIs(rows: seq<PackIndex.Row>, data: Bytes, crcs: nat, i: nat)
    requires i < |rows| && At(data, crcs, Concat(PackIndex.CrcParts(rows)))
    ensures At(data, crcs + i * 4, U32Bytes(rows[i].crc))
  {
    hide Concat, At, U32Bytes;
    RowAt(data, crcs, PackIndex.CrcParts(rows), 4, i);
  }

  lemma OffsetIs(rows: seq<PackIndex.Row>, data: Bytes, small: nat, large: nat, i: nat)
    requires i < |rows| < 0x8000_0000 && rows[i].offset < TWO_64
    requires At(data, small, Concat(PackIndex.SmallParts(rows))) && At(data, large, Concat(PackIndex.LargeParts(rows)))
    ensures small + i * 4 + 4 <= |data|
    ensures
      var field := U32At(data, small + i * 4);
      if rows[i].offset < 0x8000_0000 then field == rows[i].offset
      else field >= 0x8000_0000 && At(data, large + (field - 0x8000_0000) * 8, U64Bytes(rows[i].offset))
  {
    hide Concat, U32Bytes, U32At, U64Bytes, PackIndex.LargeParts, At;
    RowAt(data, small, PackIndex.SmallParts(rows), 4, i);
    U32RoundTrip(data, small + i * 4, PackIndex.SmallField(rows, i));
    if rows[i].offset >= 0x8000_0000 {
      PackIndex.LargePartAt(rows, i);
      RowAt(data, large, PackIndex.LargeParts(rows), 8, |PackIndex.LargeParts(rows[..i])|);
    }
  }
}
