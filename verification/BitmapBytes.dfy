/** What the bytes of bitmap and reverse-index files are (src/pack/bitmap.rs, src/pack/ewah.rs). */
module BitmapBytes {
  import opened Base
  import opened Tables
  import opened Ewah
  import opened Bitmap
  import opened Walk
  import PackFormat

  // ------------------------------------------------------------------ bitmaps

  /** Bit `p` is bit `p % 64` of word `p / 64`, counted from the least significant. */
  lemma SetMeans(words: seq<nat>, p: nat)
    ensures IsSet(words, p) <==> p / 64 < |words| && words[p / 64] / Pow2(p % 64) % 2 == 1
  {
    if p / 64 < |words| { BitMeans(words[p / 64], p % 64); }
  }

  lemma {:induction false} BitMeans(w: nat, b: nat)
    ensures HasBit(w, b) <==> w / Pow2(b) % 2 == 1
    decreases b
  {
    if b > 0 {
      BitMeans(w / 2, b - 1);
      Halve(w, Pow2(b - 1));
    }
  }

  lemma Halve(w: nat, n: nat)
    requires n > 0
    ensures w / 2 / n == w / (2 * n)
  {
    var q := w / (2 * n);
    var r := w - q * (2 * n);
    assert w == q * (2 * n) + r && 0 <= r < 2 * n;
    assert w == 2 * (q * n) + r;
    assert w / 2 == q * n + r / 2;
    assert 0 <= r / 2 < n;
    Unique(w / 2, n, q, r / 2);
  }

  lemma Unique(w: nat, n: nat, q: nat, r: nat)
    requires n > 0 && r < n && w == q * n + r
    ensures w / n == q
  {
    if w / n < q { Below(n, w / n + 1, q); }
    if w / n > q { Below(n, q + 1, w / n); }
  }

  lemma Below(n: nat, a: nat, b: nat)
    requires a <= b
    ensures a * n <= b * n
  {}

  /** A run word stands for as many words of zeros or, with its lowest bit set, of ones as its
      next 32 bits say, and for as many of the words behind it as its upper 31 bits say. */
  lemma RunMeans(words: seq<nat>, ones: bool, run: nat, literals: nat)
    requires words != [] && run < 0x1_0000_0000 && literals < 0x8000_0000 && literals < |words|
    requires words[0] == Bit(ones) + 2 * run + 0x2_0000_0000 * literals
    ensures DecodeFrom(words, 0) ==
      seq(run, _ => if ones then 0xFFFF_FFFF_FFFF_FFFF else 0) + words[1..literals + 1]
      + DecodeFrom(words, literals + 1)
  {
    SplitRunWord(ones, run, literals);
    DecodeStep(words, 0);
  }

  function Bit(b: bool): (r: nat) { if b then 1 else 0 }

  /** Size in bits, number of words, the words and the position of the last run word. */
  lemma StoredMeans(data: Bytes, pos: nat, e: Ewah)
    requires Storable(e) && At(data, pos, ToBytes(e))
    ensures
      var n := |e.words|;
      && pos + 12 + n * 8 <= |data| && |ToBytes(e)| == 12 + n * 8
      && U32At(data, pos) == e.bitSize && U32At(data, pos + 4) == n && U32At(data, pos + 8 + n * 8) == e.lastRun
      && forall i :: 0 <= i < n ==> WordAt(data, pos + 8, i) == e.words[i]
  {
    hide U32Bytes, U64Bytes, U32At, U64At, Concat;
    var a, b, c, d := U32Bytes(e.bitSize), U32Bytes(|e.words|), Concat(WordBytes(e.words)), U32Bytes(e.lastRun);
    ConcatWidth(WordBytes(e.words), 8);
    AtSplit(data, pos, a + b + c, d);
    AtSplit(data, pos, a + b, c);
    AtSplit(data, pos, a, b);
    U32RoundTrip(data, pos, e.bitSize);
    U32RoundTrip(data, pos + 4, |e.words|);
    U32RoundTrip(data, pos + 8 + |c|, e.lastRun);
    WordsRead(data, pos + 8, e.words);
    forall i | 0 <= i < |e.words| ensures WordAt(data, pos + 8, i) == e.words[i] {
      assert WordsAt(data, pos + 8, |e.words|)[i] == e.words[i];
    }
  }

  function WordAt(data: Bytes, pos: nat, i: int): (r: nat)
  { if i >= 0 && pos + i * 8 + 8 <= |data| then U64At(data, pos + i * 8) else 0 }

  // -------------------------------------------------------------------- files

  /** The type bitmaps are those of the commits, the trees, the blobs and the tags, in this order. */
  lemma TypesMean(store: Store, rows: seq<Row>, order: seq<nat>, types: seq<Ewah>, p: nat)
    requires AllStored(store, rows) && forall k :: 0 <= k < |order| ==> order[k] < |rows|
    requires TypesSplit(store, rows, order, types) && p < |order|
    ensures
      var n := store[rows[order[p]].id];
      && (Marks(types[0], p) <==> n.Commit? || n.BadCommit?) && (Marks(types[1], p) <==> n.Tree? || n.BadTree?)
      && (Marks(types[2], p) <==> n.Blob?) && (Marks(types[3], p) <==> n.Tag? || n.BadTag?)
  {
    hide Marks;
    var id := rows[order[p]].id;
    assert forall t :: 0 <= t < 4 ==> HasKind(store, IdAt(rows, order, p), t) == (KindOf(store[id]) == t);
    assert Marks(types[0], p) <==> HasKind(store, IdAt(rows, order, p), 0);
    assert Marks(types[1], p) <==> HasKind(store, IdAt(rows, order, p), 1);
    assert Marks(types[2], p) <==> HasKind(store, IdAt(rows, order, p), 2);
    assert Marks(types[3], p) <==> HasKind(store, IdAt(rows, order, p), 3);
  }

  /** `BITM`, version 1, flag 1, a count, the digest of the packfile, the four type bitmaps, then for each
      entry its row, two zeros and its bitmap, and a digest of all that. */
  lemma BitmapMeans(env: PackFormat.Env, packHash: Bytes, count: nat, plan: Plan)
    requires PlanFits(plan) && count < 0x1_0000_0000 && env.Lawful()
    ensures
      var file, n := File(env, packHash, count, plan), env.algo.RawLen();
      && |file| >= 12 + n && file[..8] == [0x42, 0x49, 0x54, 0x4D, 0, 1, 0, 1] && U32At(file, 8) == count
      && file[|file| - n..] == env.digest(file[..|file| - n])
      && At(file, 12, packHash + ToBytes(plan.types[0]) + ToBytes(plan.types[1]) + ToBytes(plan.types[2])
                      + ToBytes(plan.types[3]) + Entries(plan.entries))
  {
    hide Concat, ToBytes, U32At, U32Bytes, Storable;
    var body := Body(packHash, count, plan);
    var file, n := File(env, packHash, count, plan), env.algo.RawLen();
    assert |env.digest(body)| == n;
    assert file[..|body|] == body && file[|body|..] == env.digest(body);
    var types, rest := Concat(TypeParts(plan.types)), Concat(EntryParts(plan.entries));
    FourParts(TypeParts(plan.types));
    EntriesAre(plan.entries);
    var head := SIGNATURE + U16Bytes(1) + U16Bytes(1);
    assert head == [0x42, 0x49, 0x54, 0x4D, 0, 1, 0, 1];
    assert body == head + U32Bytes(count) + (packHash + types + rest);
    AtSplit(file, 0, head + U32Bytes(count), packHash + types + rest);
    AtSplit(file, 0, head, U32Bytes(count));
    assert file[0..8] == head;
    U32RoundTrip(file, 8, count);
    var e := plan.types;
    Chain(packHash, ToBytes(e[0]), ToBytes(e[1]), ToBytes(e[2]), ToBytes(e[3]), rest);
  }

  function Entries(entries: seq<(nat, Ewah)>): (r: Bytes)
  {
    if entries == [] then []
    else
      var n := |entries| - 1;
      Entries(entries[..n]) + U32Bytes(entries[n].0) + [0, 0] + ToBytes(entries[n].1)
  }

  lemma {:induction false} EntriesAre(entries: seq<(nat, Ewah)>)
    ensures Concat(EntryParts(entries)) == Entries(entries)
  {
    hide ToBytes, U32Bytes;
    if entries != [] {
      var n := |entries| - 1;
      EntriesAre(entries[..n]);
      assert EntryParts(entries)[..n] == EntryParts(entries[..n]);
      var all := Entries(entries[..n]);
      assert all + (U32Bytes(entries[n].0) + [0, 0] + ToBytes(entries[n].1))
          == all + U32Bytes(entries[n].0) + [0, 0] + ToBytes(entries[n].1);
    }
  }

  lemma LastPart(parts: seq<Bytes>, i: nat)
    requires i < |parts|
    ensures Concat(parts[..i + 1]) == Concat(parts[..i]) + parts[i]
  {
    ConcatSnoc(parts[..i], parts[i]);
    assert parts[..i + 1] == parts[..i] + [parts[i]];
  }

  lemma FourParts(parts: seq<Bytes>)
    requires |parts| == 4
    ensures Concat(parts) == parts[0] + parts[1] + parts[2] + parts[3]
  {
    hide Concat;
    NoParts();
    LastPart(parts, 0);
    LastPart(parts, 1);
    LastPart(parts, 2);
    LastPart(parts, 3);
    assert parts[..4] == parts && parts[..0] == [];
  }

  lemma Chain(h: Bytes, a: Bytes, b: Bytes, c: Bytes, d: Bytes, rest: Bytes)
    ensures h + (a + b + c + d) + rest == h + a + b + c + d + rest
  {}

  /** `RIDX`, version 1, hash 1 for SHA-1 and 2 for SHA-256, the rows in pack order, the digest of the
      packfile. */
  lemma ReverseMeans(algo: PackFormat.HashAlgo, order: seq<nat>, packHash: Bytes)
    ensures
      var body := ReverseBody(algo, order, packHash);
      && |body| == 12 + |order| * 4 + |packHash|
      && body[..12] == [0x52, 0x49, 0x44, 0x58, 0, 0, 0, 1, 0, 0, 0, if algo == PackFormat.Sha1 then 1 else 2]
      && body[12 + |order| * 4..] == packHash
  {
    hide Concat;
    ConcatWidth(WordParts(order), 4);
    assert U32Bytes(1) == [0, 0, 0, 1] && U32Bytes(2) == [0, 0, 0, 2];
    var body := ReverseBody(algo, order, packHash);
    var head := [0x52, 0x49, 0x44, 0x58] + U32Bytes(1) + U32Bytes(if algo.Sha1? then 1 else 2);
    assert body == head + Concat(WordParts(order)) + packHash;
    assert body[..12] == head;
  }
}
