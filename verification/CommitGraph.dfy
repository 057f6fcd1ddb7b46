/** The commit-graph file of src/commit_graph.rs. */
module CommitGraph {
  import opened Base
  import opened Tables
  import opened PackFormat
  import IdTable
  import Order
  import Generations

  const SIGNATURE: Bytes := [0x43, 0x47, 0x50, 0x48]
  const OIDF: nat := 0x4f49_4446
  const OIDL: nat := 0x4f49_444c
  const CDAT: nat := 0x4344_4154
  const EDGE: nat := 0x4544_4745
  /** A parent slot with no parent. */
  const PARENT_NONE: nat := 0x7000_0000
  /** Second slot: the rest are in the edge table. Edge word: last parent. */
  const EDGE_LAST: nat := 0x8000_0000
  const MAX_COMMITS: nat := 0x4000_0000

  /** A commit as the database holds it. */
  datatype Commit = Commit(tree: Id, parents: seq<Id>, time: int)

  /** One row: tree, parent rows, generation, committer time. */
  datatype Rec = Rec(tree: Id, parents: seq<nat>, gen: nat, time: int)

  // ------------------------------------------------------------- commit data

  function FirstSlot(rec: Rec): (r: nat) { if rec.parents == [] then PARENT_NONE else rec.parents[0] }

  /** The words an octopus merge adds to the edge table: parents from the second on, the last flagged. */
  function Extra(rec: Rec): (r: seq<nat>)
    ensures |r| == if |rec.parents| <= 2 then 0 else |rec.parents| - 1
  {
    if |rec.parents| <= 2 then []
    else
      seq(|rec.parents| - 1, k requires 0 <= k < |rec.parents| - 1 =>
        rec.parents[k + 1] + (if k + 2 == |rec.parents| then EDGE_LAST else 0))
  }

  function EdgeWords(recs: seq<Rec>): (r: seq<nat>)
  {
    if recs == [] then [] else EdgeWords(recs[..|recs| - 1]) + Extra(recs[|recs| - 1])
  }

  function SecondSlot(rec: Rec, edgeStart: nat): (r: nat)
  {
    if |rec.parents| <= 1 then PARENT_NONE
    else if |rec.parents| == 2 then rec.parents[1]
    else EDGE_LAST + edgeStart
  }

  function Date(rec: Rec): (r: nat) { if rec.time < 0 then 0 else rec.time }

  /** Thirty bits of generation over the two high bits of the date. */
  function GenWord(rec: Rec): (r: nat) { rec.gen % MAX_COMMITS * 4 + Date(rec) / TWO_32 % 4 }

  function Row(recs: seq<Rec>, i: nat): (r: Bytes)
    requires i < |recs|
  {
    var rec := recs[i];
    rec.tree + U32Bytes(FirstSlot(rec)) + U32Bytes(SecondSlot(rec, |EdgeWords(recs[..i])|))
    + U32Bytes(GenWord(rec)) + U32Bytes(Date(rec) % TWO_32)
  }

  function RowParts(recs: seq<Rec>): (r: seq<Bytes>)
    ensures |r| == |recs| && forall i :: 0 <= i < |recs| ==> r[i] == Row(recs, i)
  { seq(|recs|, i requires 0 <= i < |recs| => Row(recs, i)) }

  // ------------------------------------------------------------------ layout

  /** A chunk: its tag and its bytes. */
  datatype Chunk = Chunk(tag: nat, bytes: Bytes)

  function ChunkBytes(chunks: seq<Chunk>): (r: seq<Bytes>)
    ensures |r| == |chunks| && forall i :: 0 <= i < |chunks| ==> r[i] == chunks[i].bytes
  { seq(|chunks|, i requires 0 <= i < |chunks| => chunks[i].bytes) }

  /** Where the first chunk starts: after the header and the chunk table. */
  function TableEnd(n: nat): (r: nat) { 8 + (n + 1) * 12 }

  function ChunkStart(chunks: seq<Chunk>, i: nat): (r: nat)
    requires i <= |chunks|
  {
    TableEnd(|chunks|) + |Concat(ChunkBytes(chunks[..i]))|
  }

  /** The chunk table: tag and offset of each chunk, then a zero tag with the end. */
  function TableParts(chunks: seq<Chunk>): (r: seq<Bytes>)
    ensures |r| == |chunks| + 1 && Width(r, 12)
    ensures forall i :: 0 <= i <= |chunks| ==>
      r[i] == U32Bytes(if i < |chunks| then chunks[i].tag else 0) + U64Bytes(ChunkStart(chunks, i))
  {
    seq(|chunks| + 1, i requires 0 <= i <= |chunks| =>
      U32Bytes(if i < |chunks| then chunks[i].tag else 0) + U64Bytes(ChunkStart(chunks, i)))
  }

  function Body(algo: HashAlgo, chunks: seq<Chunk>): (r: Bytes)
    requires |chunks| < 256
  {
    SIGNATURE + [1, if algo.Sha256? then 2 else 1, |chunks|, 0]
    + Concat(TableParts(chunks)) + Concat(ChunkBytes(chunks))
  }

  function Chunks(ids: seq<Id>, recs: seq<Rec>): (r: seq<Chunk>)
    requires IdTable.NonEmpty(ids)
    ensures 3 <= |r| <= 4
  {
    [Chunk(OIDF, Concat(IdTable.FanoutParts(ids))), Chunk(OIDL, Concat(ids)), Chunk(CDAT, Concat(RowParts(recs)))]
    + (if EdgeWords(recs) == [] then [] else [Chunk(EDGE, Concat(WordParts(EdgeWords(recs))))])
  }

  function File(env: Env, ids: seq<Id>, recs: seq<Rec>): (r: Bytes)
    requires IdTable.NonEmpty(ids)
  {
    var body := Body(env.algo, Chunks(ids, recs));
    body + env.digest(body)
  }

  // ------------------------------------------------------------------ parsing

  datatype Graph = Graph(ids: IdTable.Ids, cdat: Bytes, edge: Bytes)

  predicate ValidGraph(g: Graph)
  {
    IdTable.Valid(g.ids) && |g.cdat| == g.ids.count * (g.ids.width + 16)
  }

  function Entry(data: Bytes, i: nat): (r: (nat, nat))
    requires 8 + i * 12 + 12 <= |data|
  {
    (U32At(data, 8 + i * 12), U64At(data, 8 + i * 12 + 4))
  }

  /** The extents named by the first `k` table entries. */
  function Extents(data: Bytes, bodyLen: nat, k: nat): (r: Result<map<nat, (nat, nat)>>)
    requires 8 + k * 12 + 12 <= |data|
    ensures r.Ok? ==> forall t :: t in r.value ==> r.value[t].0 <= r.value[t].1 <= bodyLen
    decreases k
  {
    if k == 0 then Ok(map[])
    else
      var before :- Extents(data, bodyLen, k - 1);
      var (tag, start) := Entry(data, k - 1);
      var end := Entry(data, k).1;
      if start > bodyLen || end > bodyLen || end < start then Err else Ok(before[tag := (start, end)])
  }

  function Slice(data: Bytes, extent: (nat, nat)): (r: Bytes)
    requires extent.0 <= extent.1 <= |data|
  { data[extent.0..extent.1] }

  lemma WholeRows(len: nat, width: nat)
    requires width > 0
    ensures 0 <= len / width * width <= len
  {}

  /** The graph made of an id table, its commit data and an edge table. */
  function Assemble(width: nat, ids: Bytes, cdat: Bytes, edge: Bytes): (r: Result<Graph>)
    requires width > 0
    ensures r.Ok? ==> ValidGraph(r.value)
  {
    var count := |ids| / width;
    WholeRows(|ids|, width);
    if count * (width + 16) != |cdat| then Err else Ok(Graph(IdTable.Ids(width, ids, count), cdat, edge))
  }

  function Parse(env: Env, data: Bytes): (r: Result<Graph>)
    ensures r.Ok? ==> ValidGraph(r.value)
  {
    var h := env.algo.RawLen();
    if |data| < 8 + h || data[..4] != SIGNATURE || data[4] != 1 then Err
    else
      var bodyLen := |data| - h;
      if env.digest(data[..bodyLen]) != data[bodyLen..] || TableEnd(data[6]) > bodyLen then Err
      else
        var extents :- Extents(data, bodyLen, data[6]);
        if OIDL !in extents || CDAT !in extents then Err
        else
          Assemble(h, Slice(data, extents[OIDL]), Slice(data, extents[CDAT]),
                   if EDGE in extents then Slice(data, extents[EDGE]) else [])
  }

  // ------------------------------------------------------------------ lookups

  /** The id at a row, if there is such a row. */
  function IdAt(g: Graph, row: nat): (r: seq<Id>)
    requires ValidGraph(g)
  {
    if row < g.ids.count then [IdTable.Row(g.ids, row)] else []
  }

  function Record(g: Graph, pos: nat): (r: Bytes)
    requires ValidGraph(g) && pos < g.ids.count
    ensures |r| == g.ids.width + 16
  {
    var size := g.ids.width + 16;
    RowBounds(pos, g.ids.count, size);
    g.cdat[pos * size..pos * size + size]
  }

  function TreeAt(g: Graph, pos: nat): (r: Id)
    requires ValidGraph(g) && pos < g.ids.count
  { Record(g, pos)[..g.ids.width] }

  function GenerationAt(g: Graph, pos: nat): (r: nat)
    requires ValidGraph(g) && pos < g.ids.count
  { U32At(Record(g, pos), g.ids.width + 8) / 4 }

  function TimeAt(g: Graph, pos: nat): (r: nat)
    requires ValidGraph(g) && pos < g.ids.count
    ensures r < 4 * TWO_32
  { U32At(Record(g, pos), g.ids.width + 8) % 4 * TWO_32 + U32At(Record(g, pos), g.ids.width + 12) }

  /** The parents listed in the edge table from word `i` on. */
  function EdgeWalk(g: Graph, i: nat): (r: seq<Id>)
    requires ValidGraph(g)
    decreases |g.edge| - i * 4
  {
    if i * 4 + 4 > |g.edge| then []
    else
      var v := U32At(g.edge, i * 4);
      if v >= EDGE_LAST then IdAt(g, v - EDGE_LAST) else IdAt(g, v) + EdgeWalk(g, i + 1)
  }

  function ParentsAt(g: Graph, pos: nat): (r: seq<Id>)
    requires ValidGraph(g) && pos < g.ids.count
  {
    var first, second := U32At(Record(g, pos), g.ids.width), U32At(Record(g, pos), g.ids.width + 4);
    if first == PARENT_NONE then []
    else if second == PARENT_NONE then IdAt(g, first)
    else if second < EDGE_LAST then IdAt(g, first) + IdAt(g, second)
    else IdAt(g, first) + EdgeWalk(g, second - EDGE_LAST)
  }

  lemma WalkStep(g: Graph, i: nat, out: seq<Id>)
    requires ValidGraph(g)
    ensures i * 4 + 4 > |g.edge| ==> out + EdgeWalk(g, i) == out
    ensures i * 4 + 4 <= |g.edge| ==>
      var v := U32At(g.edge, i * 4);
      out + EdgeWalk(g, i) ==
        if v >= EDGE_LAST then out + IdAt(g, v - EDGE_LAST) else out + IdAt(g, v) + EdgeWalk(g, i + 1)
  {
    hide IdAt, U32At;
    if i * 4 + 4 > |g.edge| { assert out + [] == out; }
  }

  method ReadParents(g: Graph, pos: nat) returns (out: seq<Id>)
    requires ValidGraph(g) && pos < g.ids.count
    ensures out == ParentsAt(g, pos)
  {
    hide Record, IdAt, U32At, EdgeWalk, ValidGraph;
    var first, second := U32At(Record(g, pos), g.ids.width), U32At(Record(g, pos), g.ids.width + 4);
    if first == PARENT_NONE {
      return [];
    }
    out := IdAt(g, first);
    if second == PARENT_NONE {
      return;
    }
    if second < EDGE_LAST {
      out := out + IdAt(g, second);
      return;
    }
    var i: nat := second - EDGE_LAST;
    while i * 4 + 4 <= |g.edge|
      invariant out + EdgeWalk(g, i) == ParentsAt(g, pos)
      decreases |g.edge| - i * 4
    {
      WalkStep(g, i, out);
      var v := U32At(g.edge, i * 4);
      out := out + IdAt(g, if v >= EDGE_LAST then v - EDGE_LAST else v);
      if v >= EDGE_LAST {
        return;
      }
      i := i + 1;
    }
    WalkStep(g, i, out);
  }

  // --------------------------------------------------------- the file reads back

  predicate Fits(env: Env, ids: seq<Id>, recs: seq<Rec>)
  {
    && |ids| == |recs| < MAX_COMMITS && Order.StrictlyIncreasing(ids) && Width(ids, env.algo.RawLen())
    && |EdgeWords(recs)| < EDGE_LAST
    && forall i :: 0 <= i < |recs| ==>
         && |recs[i].tree| == env.algo.RawLen() && recs[i].gen < MAX_COMMITS
         && forall k :: 0 <= k < |recs[i].parents| ==> recs[i].parents[k] < |recs|
  }

  lemma FitsIds(env: Env, ids: seq<Id>, recs: seq<Rec>)
    requires Fits(env, ids, recs)
    ensures IdTable.NonEmpty(ids) && |Concat(ids)| == |ids| * env.algo.RawLen()
    ensures Width(RowParts(recs), env.algo.RawLen() + 16)
    ensures |Concat(RowParts(recs))| == |recs| * (env.algo.RawLen() + 16)
  {
    ConcatWidth(ids, env.algo.RawLen());
    ConcatWidth(RowParts(recs), env.algo.RawLen() + 16);
  }

  /** Table entry `i` names chunk `i` and its start. */
  lemma EntryReads(data: Bytes, chunks: seq<Chunk>, i: nat)
    requires i <= |chunks| && At(data, 8, Concat(TableParts(chunks)))
    requires (forall k :: 0 <= k < |chunks| ==> chunks[k].tag < TWO_32) && ChunkStart(chunks, i) < TWO_64
    ensures 8 + i * 12 + 12 <= |data|
    ensures Entry(data, i) == (if i < |chunks| then chunks[i].tag else 0, ChunkStart(chunks, i))
  {
    hide ChunkStart, U32Bytes, U64Bytes, U32At, U64At, Concat;
    RowAt(data, 8, TableParts(chunks), 12, i);
    var tag := if i < |chunks| then chunks[i].tag else 0;
    AtSplit(data, 8 + i * 12, U32Bytes(tag), U64Bytes(ChunkStart(chunks, i)));
    U32RoundTrip(data, 8 + i * 12, tag);
    U64RoundTrip(data, 8 + i * 12 + 4, ChunkStart(chunks, i));
  }

  lemma StartSnoc(chunks: seq<Chunk>, i: nat)
    requires i < |chunks|
    ensures ChunkStart(chunks, i + 1) == ChunkStart(chunks, i) + |chunks[i].bytes|
  {
    assert ChunkBytes(chunks[..i + 1]) == ChunkBytes(chunks[..i]) + [chunks[i].bytes];
    ConcatSnoc(ChunkBytes(chunks[..i]), chunks[i].bytes);
  }

  lemma {:induction false} StartGrows(chunks: seq<Chunk>, i: nat, j: nat)
    requires i <= j <= |chunks|
    ensures ChunkStart(chunks, i) <= ChunkStart(chunks, j)
  {
    hide ChunkStart;
    if i < j {
      StartGrows(chunks, i, j - 1);
      StartSnoc(chunks, j - 1);
    }
  }

  predicate DistinctTags(chunks: seq<Chunk>) {
    forall i, j :: 0 <= i < j < |chunks| ==> chunks[i].tag != chunks[j].tag
  }

  /** What `Extents` should find for the first `k` chunks. */
  ghost predicate Found(chunks: seq<Chunk>, k: nat, m: map<nat, (nat, nat)>)
    requires k <= |chunks|
  {
    && (forall i :: 0 <= i < k ==>
          chunks[i].tag in m && m[chunks[i].tag] == (ChunkStart(chunks, i), ChunkStart(chunks, i + 1)))
    && (forall t :: t in m ==> exists i :: 0 <= i < k && chunks[i].tag == t)
  }

  lemma FoundSnoc(chunks: seq<Chunk>, k: nat, m: map<nat, (nat, nat)>)
    requires k < |chunks| && DistinctTags(chunks) && Found(chunks, k, m)
    ensures Found(chunks, k + 1, m[chunks[k].tag := (ChunkStart(chunks, k), ChunkStart(chunks, k + 1))])
  {
    hide ChunkStart;
    var m' := m[chunks[k].tag := (ChunkStart(chunks, k), ChunkStart(chunks, k + 1))];
    forall t | t in m' ensures exists i :: 0 <= i < k + 1 && chunks[i].tag == t {
      if t in m {
        var i :| 0 <= i < k && chunks[i].tag == t;
      } else {
        assert chunks[k].tag == t;
      }
    }
  }

  lemma NoExtents(data: Bytes, bodyLen: nat, chunks: seq<Chunk>)
    ensures 20 <= |data| ==> Extents(data, bodyLen, 0) == Ok(map[])
    ensures Found(chunks, 0, map[])
  {}

  lemma ExtentsStep(data: Bytes, bodyLen: nat, k: nat)
    requires k > 0 && 8 + k * 12 + 12 <= |data| && Extents(data, bodyLen, k - 1).Ok?
    requires Entry(data, k - 1).1 <= Entry(data, k).1 <= bodyLen
    ensures Extents(data, bodyLen, k) ==
      Ok(Extents(data, bodyLen, k - 1).value[Entry(data, k - 1).0 := (Entry(data, k - 1).1, Entry(data, k).1)])
  {
    hide Entry;
  }

  lemma {:induction false} ExtentsRead(data: Bytes, bodyLen: nat, chunks: seq<Chunk>, k: nat)
    requires k <= |chunks| && At(data, 8, Concat(TableParts(chunks))) && DistinctTags(chunks)
    requires forall i :: 0 <= i < |chunks| ==> chunks[i].tag < TWO_32
    requires ChunkStart(chunks, |chunks|) <= bodyLen < TWO_64
    ensures 8 + k * 12 + 12 <= |data|
    ensures Extents(data, bodyLen, k).Ok? && Found(chunks, k, Extents(data, bodyLen, k).value)
    decreases k
  {
    hide ChunkStart, Entry, At, Concat, TableParts, DistinctTags, Extents, Found;
    StartGrows(chunks, k, |chunks|);
    EntryReads(data, chunks, k);
    NoExtents(data, bodyLen, chunks);
    if k > 0 {
      ExtentsRead(data, bodyLen, chunks, k - 1);
      StartGrows(chunks, k - 1, k);
      EntryReads(data, chunks, k - 1);
      ExtentsStep(data, bodyLen, k);
      FoundSnoc(chunks, k - 1, Extents(data, bodyLen, k - 1).value);
    }
  }

  lemma ChunkReads(data: Bytes, chunks: seq<Chunk>, i: nat)
    requires i < |chunks| && At(data, TableEnd(|chunks|), Concat(ChunkBytes(chunks)))
    ensures ChunkStart(chunks, i) <= ChunkStart(chunks, i + 1) <= |data|
    ensures data[ChunkStart(chunks, i)..ChunkStart(chunks, i + 1)] == chunks[i].bytes
  {
    PartAt(data, TableEnd(|chunks|), ChunkBytes(chunks), i);
    assert ChunkBytes(chunks)[..i] == ChunkBytes(chunks[..i]);
    StartSnoc(chunks, i);
  }

  lemma BodyPieces(algo: HashAlgo, chunks: seq<Chunk>, data: Bytes)
    requires |chunks| < 256 && At(data, 0, Body(algo, chunks))
    ensures |data| >= 8 && data[..4] == SIGNATURE && data[4] == 1 && data[6] == |chunks|
    ensures At(data, 8, Concat(TableParts(chunks))) && At(data, TableEnd(|chunks|), Concat(ChunkBytes(chunks)))
    ensures |Body(algo, chunks)| == ChunkStart(chunks, |chunks|)
  {
    hide Concat, TableParts, ChunkBytes;
    var head := [1, if algo.Sha256? then 2 else 1, |chunks|, 0];
    var table, rest := Concat(TableParts(chunks)), Concat(ChunkBytes(chunks));
    ConcatWidth(TableParts(chunks), 12);
    AtSplit(data, 0, SIGNATURE + head + table, rest);
    AtSplit(data, 0, SIGNATURE + head, table);
    AtSplit(data, 0, SIGNATURE, head);
    var h := data[4..8];
    assert data[4] == h[0] && data[6] == h[2];
    assert chunks[..|chunks|] == chunks;
  }

  /** The graph a written file parses to. */
  function Written(env: Env, ids: seq<Id>, recs: seq<Rec>): (g: Graph)
  {
    Graph(IdTable.TableOf(ids, env.algo.RawLen()), Concat(RowParts(recs)), Concat(WordParts(EdgeWords(recs))))
  }

  lemma ChunkTags(ids: seq<Id>, recs: seq<Rec>)
    requires IdTable.NonEmpty(ids)
    ensures
      var c := Chunks(ids, recs);
      && DistinctTags(c) && (forall i :: 0 <= i < |c| ==> c[i].tag < TWO_32)
      && c[1] == Chunk(OIDL, Concat(ids)) && c[2] == Chunk(CDAT, Concat(RowParts(recs)))
      && (if EdgeWords(recs) == [] then |c| == 3 && Concat(WordParts(EdgeWords(recs))) == []
          else |c| == 4 && c[3] == Chunk(EDGE, Concat(WordParts(EdgeWords(recs)))))
      && c[0].tag == OIDF
  {
    hide Concat, RowParts, WordParts, EdgeWords;
    var c := Chunks(ids, recs);
    assert c[0].tag == OIDF && c[1].tag == OIDL && c[2].tag == CDAT;
    if EdgeWords(recs) != [] {
      assert c[3].tag == EDGE;
    } else {
      assert WordParts(EdgeWords(recs)) == [];
      NoParts();
    }
  }

  lemma FoundTags(chunks: seq<Chunk>, m: map<nat, (nat, nat)>)
    requires 3 <= |chunks| <= 4 && Found(chunks, |chunks|, m)
    requires chunks[0].tag == OIDF && chunks[1].tag == OIDL && chunks[2].tag == CDAT
    requires |chunks| == 4 ==> chunks[3].tag == EDGE
    ensures OIDL in m && m[OIDL] == (ChunkStart(chunks, 1), ChunkStart(chunks, 2))
    ensures CDAT in m && m[CDAT] == (ChunkStart(chunks, 2), ChunkStart(chunks, 3))
    ensures EDGE in m <==> |chunks| == 4
    ensures |chunks| == 4 ==> m[EDGE] == (ChunkStart(chunks, 3), ChunkStart(chunks, 4))
  {
    hide ChunkStart;
    assert chunks[1].tag in m && chunks[2].tag in m;
    if |chunks| == 4 { assert chunks[3].tag in m; }
  }

  /** The reader gets past the header and the chunk table, and finds every chunk. */
  ghost predicate TableFound(chunks: seq<Chunk>, file: Bytes, bodyLen: nat)
  {
    && |file| >= 8 + |chunks| * 12 + 12 && file[..4] == SIGNATURE && file[4] == 1 && file[6] == |chunks|
    && TableEnd(|chunks|) <= bodyLen
    && Extents(file, bodyLen, |chunks|).Ok? && Found(chunks, |chunks|, Extents(file, bodyLen, |chunks|).value)
    && At(file, TableEnd(|chunks|), Concat(ChunkBytes(chunks)))
  }

  lemma FileFound(env: Env, chunks: seq<Chunk>, file: Bytes)
    requires |chunks| < 256 && file == Body(env.algo, chunks) + env.digest(Body(env.algo, chunks))
    requires DistinctTags(chunks) && (forall i :: 0 <= i < |chunks| ==> chunks[i].tag < TWO_32) && |file| < TWO_64
    ensures TableFound(chunks, file, |Body(env.algo, chunks)|)
  {
    hide Extents, Found, TableParts, ChunkBytes, Concat, DistinctTags, Body;
    var body := Body(env.algo, chunks);
    assert file[..|body|] == body && file[|body|..] == env.digest(body);
    BodyPieces(env.algo, chunks, file);
    ExtentsRead(file, |body|, chunks, |chunks|);
  }

  /** The three chunks the reader uses, as it slices them out of a written file. */
  lemma FileSlices(env: Env, ids: seq<Id>, recs: seq<Rec>)
    requires env.Lawful() && IdTable.NonEmpty(ids) && |File(env, ids, recs)| < TWO_64
    ensures Parse(env, File(env, ids, recs)) ==
      Assemble(env.algo.RawLen(), Concat(ids), Concat(RowParts(recs)), Concat(WordParts(EdgeWords(recs))))
  {
    hide Extents, Found, ChunkBytes, Concat, Body, Chunks, RowParts, WordParts, EdgeWords, ChunkStart, Assemble,
      DistinctTags;
    var chunks, file := Chunks(ids, recs), File(env, ids, recs);
    ChunkTags(ids, recs);
    var body := Body(env.algo, chunks);
    FileFound(env, chunks, file);
    assert |env.digest(body)| == env.algo.RawLen() && file[..|body|] == body && file[|body|..] == env.digest(body);
    FoundTags(chunks, Extents(file, |body|, |chunks|).value);
    ChunkReads(file, chunks, 1);
    ChunkReads(file, chunks, 2);
    if |chunks| == 4 { ChunkReads(file, chunks, 3); }
  }

  /** A written file parses back to its own tables. */
  lemma FileParses(env: Env, ids: seq<Id>, recs: seq<Rec>)
    requires env.Lawful() && Fits(env, ids, recs) && IdTable.NonEmpty(ids) && |File(env, ids, recs)| < TWO_64
    ensures Parse(env, File(env, ids, recs)) == Ok(Written(env, ids, recs))
  {
    hide File, Parse, Concat, RowParts, WordParts, EdgeWords;
    FileSlices(env, ids, recs);
    FitsIds(env, ids, recs);
    CountRows(|ids|, env.algo);
  }

  lemma CountRows(n: nat, algo: HashAlgo)
    ensures n * algo.RawLen() / algo.RawLen() == n
  {
    if algo.Sha1? {
      assert n * 20 / 20 == n;
    } else {
      assert n * 32 / 32 == n;
    }
  }

  // ------------------------------------------------------------ rows read back

  lemma WrittenValid(env: Env, ids: seq<Id>, recs: seq<Rec>)
    requires Fits(env, ids, recs)
    ensures ValidGraph(Written(env, ids, recs))
    ensures forall i :: 0 <= i < |ids| ==> IdTable.Row(Written(env, ids, recs).ids, i) == ids[i]
    ensures IdTable.Sorted(Written(env, ids, recs).ids)
  {
    FitsIds(env, ids, recs);
    IdTable.TableRows(ids, env.algo.RawLen());
    IdTable.TableSorted(ids, env.algo.RawLen());
  }

  lemma RowReads(env: Env, ids: seq<Id>, recs: seq<Rec>, i: nat)
    requires Fits(env, ids, recs) && i < |recs|
    ensures ValidGraph(Written(env, ids, recs)) && Record(Written(env, ids, recs), i) == Row(recs, i)
  {
    hide Row, EdgeWords, Concat;
    WrittenValid(env, ids, recs);
    FitsIds(env, ids, recs);
    var cdat := Concat(RowParts(recs));
    assert At(cdat, 0, cdat);
    RowAt(cdat, 0, RowParts(recs), env.algo.RawLen() + 16, i);
  }

  /** The four words of a row. */
  lemma RowWords(env: Env, ids: seq<Id>, recs: seq<Rec>, i: nat)
    requires Fits(env, ids, recs) && i < |recs|
    ensures
      var row, w := Row(recs, i), env.algo.RawLen();
      && |row| == w + 16 && row[..w] == recs[i].tree
      && U32At(row, w) == FirstSlot(recs[i]) && U32At(row, w + 4) == SecondSlot(recs[i], |EdgeWords(recs[..i])|)
      && U32At(row, w + 8) == GenWord(recs[i]) && U32At(row, w + 12) == Date(recs[i]) % TWO_32
  {
    EdgePrefix(recs, i);
    hide EdgeWords, U32Bytes, U32At;
    var rec, w, row := recs[i], env.algo.RawLen(), Row(recs, i);
    var second := SecondSlot(rec, |EdgeWords(recs[..i])|);
    var a, b, c, d := U32Bytes(FirstSlot(rec)), U32Bytes(second), U32Bytes(GenWord(rec)), U32Bytes(Date(rec) % TWO_32);
    assert At(row, 0, row);
    AtSplit(row, 0, rec.tree + a + b + c, d);
    AtSplit(row, 0, rec.tree + a + b, c);
    AtSplit(row, 0, rec.tree + a, b);
    AtSplit(row, 0, rec.tree, a);
    U32RoundTrip(row, w, FirstSlot(rec));
    U32RoundTrip(row, w + 4, second);
    U32RoundTrip(row, w + 8, GenWord(rec));
    U32RoundTrip(row, w + 12, Date(rec) % TWO_32);
  }

  /** Row `i`'s edge words sit where its second slot says. */
  lemma {:induction false} EdgePrefix(recs: seq<Rec>, i: nat)
    requires i < |recs|
    ensures |EdgeWords(recs[..i])| + |Extra(recs[i])| <= |EdgeWords(recs)|
    ensures forall k :: 0 <= k < |Extra(recs[i])| ==> EdgeWords(recs)[|EdgeWords(recs[..i])| + k] == Extra(recs[i])[k]
  {
    hide Extra;
    var init := recs[..|recs| - 1];
    if i < |recs| - 1 {
      EdgePrefix(init, i);
      assert init[..i] == recs[..i];
    }
  }

  function IdsOf(ids: seq<Id>, rows: seq<nat>): (r: seq<Id>)
    requires forall k :: 0 <= k < |rows| ==> rows[k] < |ids|
    ensures |r| == |rows| && forall k :: 0 <= k < |rows| ==> r[k] == ids[rows[k]]
  { seq(|rows|, k requires 0 <= k < |rows| => ids[rows[k]]) }

  lemma EdgeWordAt(env: Env, ids: seq<Id>, recs: seq<Rec>, j: nat)
    requires Fits(env, ids, recs) && j < |EdgeWords(recs)| && EdgeWords(recs)[j] < TWO_32
    ensures
      var edge := Written(env, ids, recs).edge;
      j * 4 + 4 <= |edge| && U32At(edge, j * 4) == EdgeWords(recs)[j]
  {
    hide EdgeWords, U32At, U32Bytes, Concat;
    var parts := WordParts(EdgeWords(recs));
    var edge := Concat(parts);
    ConcatWidth(parts, 4);
    assert At(edge, 0, edge);
    RowAt(edge, 0, parts, 4, j);
    U32RoundTrip(edge, j * 4, EdgeWords(recs)[j]);
  }

  lemma EdgeEntry(env: Env, ids: seq<Id>, recs: seq<Rec>, i: nat, k: nat)
    requires Fits(env, ids, recs) && i < |recs| && |recs[i].parents| > 2 && k < |recs[i].parents| - 1
    ensures
      var edge, at := Written(env, ids, recs).edge, |EdgeWords(recs[..i])| + k;
      && recs[i].parents[k + 1] < |ids| && at * 4 + 4 <= |edge|
      && U32At(edge, at * 4) == recs[i].parents[k + 1] + (if k + 2 == |recs[i].parents| then EDGE_LAST else 0)
  {
    hide EdgeWords, U32At, Written;
    EdgePrefix(recs, i);
    var at := |EdgeWords(recs[..i])| + k;
    assert EdgeWords(recs)[at] == Extra(recs[i])[k];
    assert recs[i].parents[k + 1] < |recs|;
    EdgeWordAt(env, ids, recs, at);
  }

  /** Walking the edge table from word `k` of a row lists its parents from `k + 1` on. */
  lemma {:induction false} EdgeWalkReads(env: Env, ids: seq<Id>, recs: seq<Rec>, i: nat, k: nat)
    requires Fits(env, ids, recs) && i < |recs| && |recs[i].parents| > 2 && k < |recs[i].parents| - 1
    ensures ValidGraph(Written(env, ids, recs))
    ensures EdgeWalk(Written(env, ids, recs), |EdgeWords(recs[..i])| + k) == IdsOf(ids, recs[i].parents[k + 1..])
    decreases |recs[i].parents| - k
  {
    hide EdgeWords, U32At, Written, ValidGraph, EdgeWalk, IdsOf, Fits;
    WrittenValid(env, ids, recs);
    var ps := recs[i].parents;
    var at := |EdgeWords(recs[..i])| + k;
    EdgeEntry(env, ids, recs, i, k);
    EdgeStep(env, ids, recs, at, ps[k + 1], k + 2 == |ps|);
    RowsFit(env, ids, recs, i);
    IdsStep(ids, ps, k + 1);
    if k + 2 < |ps| {
      EdgeWalkReads(env, ids, recs, i, k + 1);
    }
  }

  lemma RowsFit(env: Env, ids: seq<Id>, recs: seq<Rec>, i: nat)
    requires Fits(env, ids, recs) && i < |recs|
    ensures forall k :: 0 <= k < |recs[i].parents| ==> recs[i].parents[k] < |ids|
  {}

  lemma IdsStep(ids: seq<Id>, rows: seq<nat>, k: nat)
    requires k < |rows| && forall j :: 0 <= j < |rows| ==> rows[j] < |ids|
    ensures IdsOf(ids, rows[k..]) == [ids[rows[k]]] + IdsOf(ids, rows[k + 1..])
    ensures k + 1 == |rows| ==> IdsOf(ids, rows[k..]) == [ids[rows[k]]]
  {}

  lemma EdgeStep(env: Env, ids: seq<Id>, recs: seq<Rec>, at: nat, row: nat, last: bool)
    requires Fits(env, ids, recs) && row < |ids|
    requires
      var edge := Written(env, ids, recs).edge;
      at * 4 + 4 <= |edge| && U32At(edge, at * 4) == row + (if last then EDGE_LAST else 0)
    ensures ValidGraph(Written(env, ids, recs))
    ensures EdgeWalk(Written(env, ids, recs), at) ==
      if last then [ids[row]] else [ids[row]] + EdgeWalk(Written(env, ids, recs), at + 1)
  {
    hide U32At, EdgeWords, Concat, RowParts, WordParts;
    WrittenValid(env, ids, recs);
  }

  /** Every lookup in the parsed file returns what the commit says. */
  lemma GraphAgrees(env: Env, ids: seq<Id>, recs: seq<Rec>, i: nat)
    requires Fits(env, ids, recs) && i < |recs|
    ensures ValidGraph(Written(env, ids, recs))
    ensures
      var g := Written(env, ids, recs);
      && TreeAt(g, i) == recs[i].tree
      && ParentsAt(g, i) == IdsOf(ids, recs[i].parents)
      && GenerationAt(g, i) == recs[i].gen
      && (TimeAt(g, i) == recs[i].time <==> 0 <= recs[i].time < 4 * TWO_32)
  {
    hide EdgeWords, Row, Concat, ParentsAt, GenWord, RowParts, WordParts;
    WrittenValid(env, ids, recs);
    RowReads(env, ids, recs, i);
    RowWords(env, ids, recs, i);
    GenDate(recs[i]);
    ParentsAgree(env, ids, recs, i);
  }

  /** The shape of a written graph, and the words of a row as the reader sees them. */
  lemma SlotsRead(env: Env, ids: seq<Id>, recs: seq<Rec>, i: nat)
    requires Fits(env, ids, recs) && i < |recs|
    ensures
      var g := Written(env, ids, recs);
      && ValidGraph(g) && g.ids.count == |ids| && g.ids.width == env.algo.RawLen()
      && U32At(Record(g, i), g.ids.width) == FirstSlot(recs[i])
      && U32At(Record(g, i), g.ids.width + 4) == SecondSlot(recs[i], |EdgeWords(recs[..i])|)
  {
    hide EdgeWords, Row, Concat, U32At, RowParts, WordParts;
    WrittenValid(env, ids, recs);
    RowReads(env, ids, recs, i);
    RowWords(env, ids, recs, i);
  }

  lemma IdReads(env: Env, ids: seq<Id>, recs: seq<Rec>, row: nat)
    requires Fits(env, ids, recs) && row < |ids|
    ensures ValidGraph(Written(env, ids, recs)) && IdAt(Written(env, ids, recs), row) == [ids[row]]
  {
    hide EdgeWords, Concat, RowParts, WordParts;
    WrittenValid(env, ids, recs);
  }

  lemma ParentsFit(env: Env, ids: seq<Id>, recs: seq<Rec>, i: nat)
    requires Fits(env, ids, recs) && i < |recs|
    ensures |recs| == |ids| < MAX_COMMITS && forall k :: 0 <= k < |recs[i].parents| ==> recs[i].parents[k] < |ids|
  {}

  /** The first parent, then whatever the second slot stands for. */
  lemma ParentsFromSlots(g: Graph, pos: nat, first: nat, second: nat)
    requires ValidGraph(g) && pos < g.ids.count
    requires U32At(Record(g, pos), g.ids.width) == first && U32At(Record(g, pos), g.ids.width + 4) == second
    ensures ParentsAt(g, pos) ==
      if first == PARENT_NONE then []
      else IdAt(g, first)
           + (if second == PARENT_NONE then []
              else if second < EDGE_LAST then IdAt(g, second)
              else EdgeWalk(g, second - EDGE_LAST))
  {
    hide EdgeWalk, Record, U32At, IdAt, ValidGraph;
  }

  lemma ParentsAgree(env: Env, ids: seq<Id>, recs: seq<Rec>, i: nat)
    requires Fits(env, ids, recs) && i < |recs|
    ensures ValidGraph(Written(env, ids, recs)) && i < Written(env, ids, recs).ids.count
    ensures ParentsAt(Written(env, ids, recs), i) == IdsOf(ids, recs[i].parents)
  {
    hide EdgeWords, EdgeWalk, Record, U32At, Written, IdAt, ValidGraph, Fits, ParentsAt, IdsOf, Extra;
    SlotsRead(env, ids, recs, i);
    ParentsFit(env, ids, recs, i);
    var g, ps, at := Written(env, ids, recs), recs[i].parents, |EdgeWords(recs[..i])|;
    IdsOfSteps(ids, ps);
    if |ps| == 0 {
      ParentsFromSlots(g, i, PARENT_NONE, PARENT_NONE);
    } else if |ps| == 1 {
      IdReads(env, ids, recs, ps[0]);
      ParentsFromSlots(g, i, ps[0], PARENT_NONE);
    } else if |ps| == 2 {
      IdReads(env, ids, recs, ps[0]);
      IdReads(env, ids, recs, ps[1]);
      ParentsFromSlots(g, i, ps[0], ps[1]);
    } else {
      IdReads(env, ids, recs, ps[0]);
      EdgeWalkReads(env, ids, recs, i, 0);
      ParentsFromSlots(g, i, ps[0], EDGE_LAST + at);
    }
  }

  lemma IdsOfSteps(ids: seq<Id>, ps: seq<nat>)
    requires forall k :: 0 <= k < |ps| ==> ps[k] < |ids|
    ensures |ps| == 0 ==> IdsOf(ids, ps) == []
    ensures |ps| == 1 ==> IdsOf(ids, ps) == [ids[ps[0]]] + []
    ensures |ps| == 2 ==> IdsOf(ids, ps) == [ids[ps[0]]] + [ids[ps[1]]]
    ensures |ps| > 2 ==> IdsOf(ids, ps) == [ids[ps[0]]] + IdsOf(ids, ps[1..])
  {}

  lemma GenDate(rec: Rec)
    requires rec.gen < MAX_COMMITS
    ensures GenWord(rec) / 4 == rec.gen
    ensures 0 <= rec.time < 4 * TWO_32 ==> GenWord(rec) % 4 * TWO_32 + Date(rec) % TWO_32 == rec.time
  {
    var d := Date(rec);
    var q: nat := d / TWO_32;
    var low: nat := d % TWO_32;
    assert d == q * TWO_32 + low;
    WordSplits(rec.gen, q % 4);
    if rec.time < 4 * TWO_32 { assert q < 4; }
  }

  lemma WordSplits(gen: nat, hi: nat)
    requires hi < 4
    ensures (gen * 4 + hi) / 4 == gen && (gen * 4 + hi) % 4 == hi
  {}

  // ------------------------------------------------------------------- writing

  /** Every selected commit is in the database with all its parents selected too. */
  predicate ParentClosed(db: map<Id, Commit>, commits: set<Id>)
  {
    forall c :: c in commits ==> c in db && forall k :: 0 <= k < |db[c].parents| ==> db[c].parents[k] in commits
  }

  /** `positions[i]` are the rows of the parents of commit `ids[i]`, in order. */
  predicate Resolves(db: map<Id, Commit>, ids: seq<Id>, positions: Generations.Parents)
  {
    && |positions| <= |ids|
    && forall i :: 0 <= i < |positions| ==>
         && ids[i] in db && |positions[i]| == |db[ids[i]].parents|
         && forall k :: 0 <= k < |positions[i]| ==>
              positions[i][k] < |ids| && ids[positions[i][k]] == db[ids[i]].parents[k]
  }

  /** Id -> row, for ids in table order. */
  method RowsOf(ids: seq<Id>) returns (posOf: map<Id, nat>)
    ensures forall id :: id in posOf <==> id in ids
    ensures forall id :: id in posOf ==> posOf[id] < |ids| && ids[posOf[id]] == id
  {
    posOf := map[];
    for i := 0 to |ids|
      invariant forall id :: id in posOf <==> id in ids[..i]
      invariant forall id :: id in posOf ==> posOf[id] < i && ids[posOf[id]] == id
    {
      assert ids[..i + 1] == ids[..i] + [ids[i]];
      posOf := posOf[ids[i] := i];
    }
    assert ids[..|ids|] == ids;
  }

  method ResolveParents(db: map<Id, Commit>, ids: seq<Id>) returns (r: Result<Generations.Parents>)
    ensures r.Ok? ==> |r.value| == |ids| && Resolves(db, ids, r.value)
    ensures r.Err? ==> !ParentClosed(db, set c | c in ids)
  {
    var posOf := RowsOf(ids);
    var all: Generations.Parents := [];
    for i := 0 to |ids|
      invariant |all| == i && Resolves(db, ids, all)
    {
      assert ids[i] in ids;
      if ids[i] !in db {
        return Err;
      }
      var ps := db[ids[i]].parents;
      var row: seq<nat> := [];
      for k := 0 to |ps|
        invariant |row| == k && forall j :: 0 <= j < k ==> row[j] < |ids| && ids[row[j]] == ps[j]
      {
        if ps[k] !in posOf {
          return Err;
        }
        row := row + [posOf[ps[k]]];
      }
      all := all + [row];
    }
    return Ok(all);
  }

  /** Cumulative counts, one pass over the ids per byte. */
  method FanoutTable(ids: seq<Id>) returns (out: Bytes)
    requires IdTable.NonEmpty(ids)
    ensures out == Concat(IdTable.FanoutParts(ids))
  {
    ghost var parts := IdTable.FanoutParts(ids);
    out := [];
    var acc: nat := 0;
    IdTable.CountSteps(ids, -1);
    for b := 0 to 256
      invariant acc == IdTable.CountUpTo(ids, b - 1) && out == Concat(parts[..b])
    {
      var n: nat := 0;
      for i := 0 to |ids|
        invariant n == IdTable.CountEqual(ids[..i], b)
      {
        assert ids[..i + 1][..i] == ids[..i];
        if ids[i][0] == b {
          n := n + 1;
        }
      }
      assert ids[..|ids|] == ids;
      IdTable.CountSteps(ids, b);
      acc := acc + n;
      assert parts[..b + 1] == parts[..b] + [parts[b]];
      ConcatSnoc(parts[..b], parts[b]);
      out := out + U32Bytes(acc);
    }
    assert parts[..256] == parts;
  }

  /** The commit data, and the edge words of the octopus merges met on the way. */
  method DataTables(recs: seq<Rec>) returns (cdat: Bytes, edge: Bytes, words: nat)
    ensures cdat == Concat(RowParts(recs)) && edge == Concat(WordParts(EdgeWords(recs)))
    ensures words == |EdgeWords(recs)|
  {
    hide U32Bytes, GenWord, Date, Row, Concat, Extra;
    cdat, edge, words := [], [], 0;
    ghost var rows := RowParts(recs);
    NothingYet();
    for i := 0 to |recs|
      invariant cdat == Concat(rows[..i])
      invariant words == |EdgeWords(recs[..i])| && edge == Concat(WordParts(EdgeWords(recs[..i])))
    {
      var row := RowBytes(recs, i, words);
      assert rows[..i + 1] == rows[..i] + [rows[i]];
      ConcatSnoc(rows[..i], rows[i]);
      cdat := cdat + row;
      assert recs[..i + 1][..i] == recs[..i];
      ghost var before := EdgeWords(recs[..i]);
      var extra := ExtraBytes(recs[i]);
      assert WordParts(before + Extra(recs[i])) == WordParts(before) + WordParts(Extra(recs[i]));
      ConcatAppend(WordParts(before), WordParts(Extra(recs[i])));
      edge := edge + extra;
      words := words + |Extra(recs[i])|;
    }
    assert rows[..|recs|] == rows && recs[..|recs|] == recs;
  }

  lemma NothingYet()
    ensures Concat([]) == [] && EdgeWords([]) == [] && Concat(WordParts([])) == []
  {}

  method RowBytes(recs: seq<Rec>, i: nat, edgeStart: nat) returns (row: Bytes)
    requires i < |recs| && edgeStart == |EdgeWords(recs[..i])|
    ensures row == Row(recs, i)
  {
    hide EdgeWords, U32Bytes;
    var rec := recs[i];
    row := rec.tree;
    row := row + U32Bytes(FirstSlot(rec));
    row := row + U32Bytes(SecondSlot(rec, edgeStart));
    row := row + U32Bytes(GenWord(rec));
    row := row + U32Bytes(Date(rec) % TWO_32);
  }

  method ExtraBytes(rec: Rec) returns (out: Bytes)
    ensures out == Concat(WordParts(Extra(rec)))
  {
    hide U32Bytes;
    out := [];
    ghost var parts := WordParts(Extra(rec));
    if |rec.parents| > 2 {
      for k := 0 to |rec.parents| - 1
        invariant out == Concat(parts[..k])
      {
        assert parts[..k + 1] == parts[..k] + [parts[k]];
        var v := rec.parents[k + 1];
        if k + 2 == |rec.parents| {
          v := v + EDGE_LAST;
        }
        out := out + U32Bytes(v);
      }
      assert parts[..|rec.parents| - 1] == parts;
    }
  }

  /** Header, chunk table with running offsets, chunks, checksum. */
  method AssembleFile(env: Env, chunks: seq<Chunk>) returns (out: Bytes)
    requires |chunks| < 256
    ensures out == Body(env.algo, chunks) + env.digest(Body(env.algo, chunks))
  {
    hide Concat, ChunkStart, U32Bytes, U64Bytes;
    out := SIGNATURE + [1, if env.algo.Sha256? then 2 else 1, |chunks|, 0];
    ghost var head := out;
    ghost var table := TableParts(chunks);
    var offset: nat := TableEnd(|chunks|);
    FirstStart(chunks);
    for i := 0 to |chunks|
      invariant out == head + Concat(table[..i]) && offset == ChunkStart(chunks, i)
    {
      assert table[..i + 1] == table[..i] + [table[i]];
      ConcatSnoc(table[..i], table[i]);
      StartSnoc(chunks, i);
      out := out + (U32Bytes(chunks[i].tag) + U64Bytes(offset));
      offset := offset + |chunks[i].bytes|;
    }
    assert table == table[..|chunks|] + [table[|chunks|]];
    ConcatSnoc(table[..|chunks|], table[|chunks|]);
    out := out + (U32Bytes(0) + U64Bytes(offset));
    ghost var parts := ChunkBytes(chunks);
    for i := 0 to |chunks|
      invariant out == head + Concat(table) + Concat(parts[..i])
    {
      assert parts[..i + 1] == parts[..i] + [parts[i]];
      ConcatSnoc(parts[..i], parts[i]);
      out := out + chunks[i].bytes;
    }
    assert parts[..|chunks|] == parts;
    out := out + env.digest(out);
  }

  lemma FirstStart(chunks: seq<Chunk>)
    ensures ChunkStart(chunks, 0) == TableEnd(|chunks|) && Concat([]) == []
  {
    assert chunks[..0] == [];
  }

  /** The rows the file holds for the given commits. */
  predicate Describes(db: map<Id, Commit>, ids: seq<Id>, recs: seq<Rec>)
  {
    && |recs| == |ids|
    && forall i :: 0 <= i < |recs| ==>
         && ids[i] in db && recs[i].tree == db[ids[i]].tree && recs[i].time == db[ids[i]].time
         && (forall k :: 0 <= k < |recs[i].parents| ==> recs[i].parents[k] < |ids|)
         && IdsOf(ids, recs[i].parents) == db[ids[i]].parents
  }

  function ParentRows(recs: seq<Rec>): (r: Generations.Parents)
    ensures |r| == |recs| && forall i :: 0 <= i < |recs| ==> r[i] == recs[i].parents
  { seq(|recs|, i requires 0 <= i < |recs| => recs[i].parents) }

  /** The parent relation among the listed commits has a cycle. */
  ghost predicate Cyclic(db: map<Id, Commit>, ids: seq<Id>)
  {
    exists p :: Resolves(db, ids, p) && |p| == |ids| && Generations.WellFormed(p) && !Generations.Acyclic(p)
  }

  method WriteFile(env: Env, ids: seq<Id>, recs: seq<Rec>) returns (file: Bytes)
    requires IdTable.NonEmpty(ids)
    ensures file == File(env, ids, recs)
  {
    hide Concat, Chunks, Body;
    var oidf := FanoutTable(ids);
    var oidl := JoinIds(ids);
    var cdat, edge, words := DataTables(recs);
    var chunks := [Chunk(OIDF, oidf), Chunk(OIDL, oidl), Chunk(CDAT, cdat)];
    if words != 0 {
      chunks := chunks + [Chunk(EDGE, edge)];
    }
    ChunksAre(ids, recs);
    assert chunks == Chunks(ids, recs);
    file := AssembleFile(env, chunks);
  }

  /** Writes the graph of a set of commits, given in any order and with repeats. It fails
      exactly when the set is not parent-closed or its parent relation has a cycle. */
  method WriteCommitGraph(env: Env, db: map<Id, Commit>, commits: seq<Id>)
    returns (r: Result<Bytes>, ghost ids: seq<Id>, ghost recs: seq<Rec>)
    requires forall c :: c in commits ==> c != []
    ensures Order.StrictlyIncreasing(ids) && (forall id :: id in ids <==> id in commits)
    ensures r.Ok? ==> ParentClosed(db, set c | c in commits)
    ensures r.Ok? ==> IdTable.NonEmpty(ids)
    ensures r.Ok? ==> Describes(db, ids, recs) && r.value == File(env, ids, recs)
    ensures r.Ok? ==> Generations.Acyclic(ParentRows(recs)) && forall i :: 0 <= i < |recs| ==>
      Generations.Longest(ParentRows(recs), i, recs[i].gen) && recs[i].gen <= |recs|
    ensures r.Err? ==> !ParentClosed(db, set c | c in commits) || Cyclic(db, ids)
  {
    hide Generations.Acyclic, Generations.Longest, Generations.Fixed, File, Resolves, ParentClosed, Describes;
    var sorted := Order.Ascending(set c | c in commits);
    ids, recs := sorted, [];
    assert (set c | c in sorted) == (set c | c in commits);
    assert forall i :: 0 <= i < |sorted| ==> sorted[i] in sorted;
    var positions := ResolveParents(db, sorted);
    if positions.Err? {
      return Err, ids, recs;
    }
    var parents := positions.value;
    ResolvedFit(db, sorted, parents);
    var gens := Generations.Relax(parents);
    if gens.Err? {
      return Err, ids, recs;
    }
    var rows := seq(|sorted|, i requires 0 <= i < |sorted| =>
      Rec(db[sorted[i]].tree, parents[i], gens.value[i], db[sorted[i]].time));
    recs := rows;
    assert ParentRows(recs) == parents;
    RowsDescribe(db, sorted, rows, parents);
    var file := WriteFile(env, sorted, rows);
    return Ok(file), ids, recs;
  }

  lemma ResolvedFit(db: map<Id, Commit>, ids: seq<Id>, parents: Generations.Parents)
    requires |parents| == |ids| && Resolves(db, ids, parents)
    ensures Generations.WellFormed(parents) && forall i :: 0 <= i < |ids| ==> ids[i] in db
  {}

  lemma ChunksAre(ids: seq<Id>, recs: seq<Rec>)
    requires IdTable.NonEmpty(ids)
    ensures Chunks(ids, recs) ==
      [Chunk(OIDF, Concat(IdTable.FanoutParts(ids))), Chunk(OIDL, Concat(ids)), Chunk(CDAT, Concat(RowParts(recs)))]
      + (if |EdgeWords(recs)| == 0 then [] else [Chunk(EDGE, Concat(WordParts(EdgeWords(recs))))])
  {}

  method JoinIds(ids: seq<Id>) returns (out: Bytes)
    ensures out == Concat(ids)
  {
    out := [];
    for i := 0 to |ids|
      invariant out == Concat(ids[..i])
    {
      assert ids[..i + 1] == ids[..i] + [ids[i]];
      out := out + ids[i];
    }
    assert ids[..|ids|] == ids;
  }

  lemma RowsDescribe(db: map<Id, Commit>, ids: seq<Id>, recs: seq<Rec>, parents: Generations.Parents)
    requires |ids| == |recs| == |parents| && Resolves(db, ids, parents) && forall i :: 0 <= i < |ids| ==> ids[i] in db
    requires forall i :: 0 <= i < |recs| ==>
      recs[i].tree == db[ids[i]].tree && recs[i].time == db[ids[i]].time && recs[i].parents == parents[i]
    ensures Describes(db, ids, recs) && ParentClosed(db, set c | c in ids)
  {
    forall i | 0 <= i < |recs|
      ensures (forall k :: 0 <= k < |recs[i].parents| ==> recs[i].parents[k] < |ids|)
              && IdsOf(ids, recs[i].parents) == db[ids[i]].parents
    {}
    forall c | c in ids
      ensures c in db && forall k :: 0 <= k < |db[c].parents| ==> db[c].parents[k] in ids
    {
      var i :| 0 <= i < |ids| && ids[i] == c;
      forall k | 0 <= k < |db[c].parents| ensures db[c].parents[k] in ids {
        assert ids[parents[i][k]] == db[c].parents[k];
      }
    }
  }

  /** For commits that fit the format, the written file parses, its id table holds exactly the
      selected commits, and every lookup returns what the database says about the commit. */
  lemma AgreesWithCommits(env: Env, db: map<Id, Commit>, ids: seq<Id>, recs: seq<Rec>, i: nat)
    requires env.Lawful() && Fits(env, ids, recs) && IdTable.NonEmpty(ids) && Describes(db, ids, recs)
    requires |File(env, ids, recs)| < TWO_64 && i < |ids|
    ensures
      var parsed := Parse(env, File(env, ids, recs));
      && parsed.Ok? && parsed.value.ids.count == |ids| && IdTable.Sorted(parsed.value.ids)
      && (forall k :: 0 <= k < |ids| ==> IdTable.Row(parsed.value.ids, k) == ids[k])
      && TreeAt(parsed.value, i) == db[ids[i]].tree && ParentsAt(parsed.value, i) == db[ids[i]].parents
      && GenerationAt(parsed.value, i) == recs[i].gen
      && (TimeAt(parsed.value, i) == db[ids[i]].time <==> 0 <= db[ids[i]].time < 4 * TWO_32)
  {
    hide File, Parse, Fits, TreeAt, ParentsAt, GenerationAt, TimeAt, IdTable.Sorted, IdsOf, ValidGraph, IdTable.Row;
    FileParses(env, ids, recs);
    WrittenValid(env, ids, recs);
    GraphAgrees(env, ids, recs, i);
  }
}
