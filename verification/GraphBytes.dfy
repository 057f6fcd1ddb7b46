/** What the bytes of a commit-graph file are (src/commit_graph.rs). */
module GraphBytes {
  import opened Base
  import opened Tables
  import opened PackFormat
  import opened CommitGraph
  import IdTable

  /** How many words the octopus merges of `recs` add: all parents but the first. */
  function Spilled(recs: seq<Rec>): (r: nat)
  {
    if recs == [] then 0
    else
      var n := |recs| - 1;
      Spilled(recs[..n]) + if |recs[n].parents| > 2 then |recs[n].parents| - 1 else 0
  }

  lemma {:induction false} SpilledMeans(recs: seq<Rec>)
    ensures |EdgeWords(recs)| == Spilled(recs)
  {
    hide Extra;
    if recs != [] {
      SpilledMeans(recs[..|recs| - 1]);
      ExtraSize(recs[|recs| - 1]);
    }
  }

  lemma ExtraSize(rec: Rec)
    ensures |Extra(rec)| == if |rec.parents| > 2 then |rec.parents| - 1 else 0
  {}

  /** A row is the tree, two parent slots, the generation above the two high bits of the date and the low
      bits of the date. A slot without a parent is 0x70000000; with more than two parents the second has
      its high bit set and says which edge word the others start at. */
  lemma RowMeans(env: Env, ids: seq<Id>, recs: seq<Rec>, i: nat)
    requires Fits(env, ids, recs) && i < |recs|
    ensures
      var row, w, rec := Row(recs, i), env.algo.RawLen(), recs[i];
      var date := if rec.time < 0 then 0 else rec.time;
      && |row| == w + 16 && row[..w] == rec.tree
      && U32At(row, w) == (if rec.parents == [] then 0x7000_0000 else rec.parents[0])
      && (|rec.parents| <= 1 ==> U32At(row, w + 4) == 0x7000_0000)
      && (|rec.parents| == 2 ==> U32At(row, w + 4) == rec.parents[1])
      && (|rec.parents| > 2 ==> U32At(row, w + 4) == 0x8000_0000 + Spilled(recs[..i]))
      && U32At(row, w + 8) == rec.gen * 4 + date / 0x1_0000_0000 % 4
      && U32At(row, w + 12) == date % 0x1_0000_0000
  {
    hide EdgeWords, U32At, Row;
    RowWords(env, ids, recs, i);
    SpilledMeans(recs[..i]);
  }

  /** The edge words of a row: its parents from the second on, the last with its high bit set. */
  lemma EdgeMeans(env: Env, ids: seq<Id>, recs: seq<Rec>, i: nat, k: nat)
    requires Fits(env, ids, recs) && i < |recs| && |recs[i].parents| > 2 && 1 <= k < |recs[i].parents|
    ensures
      var edge, at := Concat(WordParts(EdgeWords(recs))), (Spilled(recs[..i]) + k - 1) * 4;
      && 0 <= at && at + 4 <= |edge|
      && U32At(edge, at) == recs[i].parents[k] + (if k + 1 == |recs[i].parents| then 0x8000_0000 else 0)
  {
    hide EdgeWords, U32At, Concat, WordParts;
    EdgeEntry(env, ids, recs, i, k - 1);
    SpilledMeans(recs[..i]);
  }

  /** The head of a file made of these chunks, and its digest. */
  lemma HeadMeans(env: Env, chunks: seq<Chunk>, file: Bytes)
    requires |chunks| < 256 && env.Lawful() && file == Body(env.algo, chunks) + env.digest(Body(env.algo, chunks))
    ensures
      var n := env.algo.RawLen();
      && |file| >= 20 + |chunks| * 12 + n
      && file[..8] == [0x43, 0x47, 0x50, 0x48, 1, if env.algo == Sha1 then 1 else 2, |chunks|, 0]
      && |file| == ChunkStart(chunks, |chunks|) + n && file[|file| - n..] == env.digest(file[..|file| - n])
  {
    hide Concat, TableParts, ChunkBytes, ChunkStart;
    var body := Body(env.algo, chunks);
    assert |env.digest(body)| == env.algo.RawLen();
    assert file[..|body|] == body && file[|body|..] == env.digest(body);
    BodyPieces(env.algo, chunks, file);
    ConcatWidth(TableParts(chunks), 12);
    var head := SIGNATURE + [1, if env.algo.Sha256? then 2 else 1, |chunks|, 0];
    assert file[..8] == head;
  }

  /** Entry `i` of the chunk table names chunk `i` and where it starts; it ends where the next starts. */
  lemma ChunkMeans(env: Env, chunks: seq<Chunk>, file: Bytes, i: nat)
    requires |chunks| < 256 && env.Lawful() && file == Body(env.algo, chunks) + env.digest(Body(env.algo, chunks))
    requires (forall k :: 0 <= k < |chunks| ==> chunks[k].tag < TWO_32) && |file| < TWO_64 && i <= |chunks|
    ensures 20 + i * 12 <= |file| && U64At(file, 12 + i * 12) == ChunkStart(chunks, i)
    ensures U32At(file, 8 + i * 12) == if i < |chunks| then chunks[i].tag else 0
    ensures i < |chunks| ==>
      ChunkStart(chunks, i) <= ChunkStart(chunks, i + 1) <= |file|
      && file[ChunkStart(chunks, i)..ChunkStart(chunks, i + 1)] == chunks[i].bytes
  {
    hide Concat, TableParts, ChunkBytes, ChunkStart, Body, U32At, U64At, TableEnd;
    var body := Body(env.algo, chunks);
    assert file[..|body|] == body;
    BodyPieces(env.algo, chunks, file);
    StartGrows(chunks, i, |chunks|);
    EntryReads(file, chunks, i);
    if i < |chunks| { ChunkReads(file, chunks, i); }
  }

  lemma ChunkList(ids: seq<Id>, recs: seq<Rec>)
    requires IdTable.NonEmpty(ids)
    ensures
      var c := Chunks(ids, recs);
      && |c| == (if Spilled(recs) == 0 then 3 else 4)
      && c[0] == Chunk(0x4F49_4446, Concat(IdTable.FanoutParts(ids))) && c[1] == Chunk(0x4F49_444C, Concat(ids))
      && c[2] == Chunk(0x4344_4154, Concat(RowParts(recs)))
      && (Spilled(recs) > 0 ==> c[3] == Chunk(0x4544_4745, Concat(WordParts(EdgeWords(recs)))))
  {
    hide Concat, RowParts, WordParts, EdgeWords, IdTable.FanoutParts;
    SpilledMeans(recs);
  }

  /** `CGPH`, version 1, hash 1 for SHA-1 and 2 for SHA-256, the number of chunks, no base graphs, the
      chunk table with `OIDF`, `OIDL`, `CDAT` and, if a merge has more than two parents, `EDGE`, the
      chunks, and a digest of all that. */
  lemma FileMeans(env: Env, ids: seq<Id>, recs: seq<Rec>)
    requires env.Lawful() && IdTable.NonEmpty(ids) && |File(env, ids, recs)| < 0x1_0000_0000_0000_0000
    ensures
      var file, n, chunks := File(env, ids, recs), env.algo.RawLen(), if Spilled(recs) == 0 then 3 else 4;
      && |file| >= 20 + chunks * 12 + n
      && file[..8] == [0x43, 0x47, 0x50, 0x48, 1, if env.algo == Sha1 then 1 else 2, chunks, 0]
      && file[|file| - n..] == env.digest(file[..|file| - n])
      && U32At(file, 8) == 0x4F49_4446 && U32At(file, 20) == 0x4F49_444C && U32At(file, 32) == 0x4344_4154
      && (if chunks == 3 then U32At(file, 44) == 0 else U32At(file, 44) == 0x4544_4745 && U32At(file, 56) == 0)
  {
    hide Chunks, Body, U32At, Concat, RowParts, WordParts, EdgeWords, IdTable.FanoutParts, ChunkStart, Spilled, U64At;
    var chunks, file := Chunks(ids, recs), File(env, ids, recs);
    ChunkList(ids, recs);
    HeadMeans(env, chunks, file);
    assert forall k :: 0 <= k < |chunks| ==> chunks[k].tag < TWO_32;
    ChunkMeans(env, chunks, file, 0);
    ChunkMeans(env, chunks, file, 1);
    ChunkMeans(env, chunks, file, 2);
    ChunkMeans(env, chunks, file, 3);
    if |chunks| == 4 { ChunkMeans(env, chunks, file, 4); }
  }

  /** What each chunk holds. */
  lemma ChunksMean(env: Env, ids: seq<Id>, recs: seq<Rec>)
    requires env.Lawful() && IdTable.NonEmpty(ids) && |File(env, ids, recs)| < 0x1_0000_0000_0000_0000
    ensures
      var file, chunks := File(env, ids, recs), if Spilled(recs) == 0 then 3 else 4;
      && |file| >= 20 + chunks * 12
      && var a, b, c, d := U64At(file, 12), U64At(file, 24), U64At(file, 36), U64At(file, 48);
         && a == 20 + chunks * 12 && a <= b <= c <= d <= |file|
         && file[a..b] == Concat(IdTable.FanoutParts(ids)) && file[b..c] == Concat(ids)
         && file[c..d] == Concat(RowParts(recs))
         && (chunks == 3 ==> |file| == d + env.algo.RawLen())
         && (chunks == 4 ==>
               var e := U64At(file, 60);
               && d <= e <= |file| && |file| == e + env.algo.RawLen()
               && file[d..e] == Concat(WordParts(EdgeWords(recs))))
  {
    hide Chunks, Body, U32At, Concat, RowParts, WordParts, EdgeWords, IdTable.FanoutParts, ChunkStart, Spilled, U64At;
    var chunks, file := Chunks(ids, recs), File(env, ids, recs);
    ChunkList(ids, recs);
    HeadMeans(env, chunks, file);
    assert forall k :: 0 <= k < |chunks| ==> chunks[k].tag < TWO_32;
    FirstStart(chunks);
    ChunkMeans(env, chunks, file, 0);
    ChunkMeans(env, chunks, file, 1);
    ChunkMeans(env, chunks, file, 2);
    ChunkMeans(env, chunks, file, 3);
    if |chunks| == 4 { ChunkMeans(env, chunks, file, 4); }
  }
}
