/** The staging-index file: entries, extensions and checksum (src/index.rs). */
module Index {
  import opened Base
  import opened IndexEntry
  import PackFormat
  import Order

  const SIGNATURE: Bytes := [0x44, 0x49, 0x52, 0x43]
  const LINK: Bytes := [0x6C, 0x69, 0x6E, 0x6B]
  const REUC: Bytes := [0x52, 0x45, 0x55, 0x43]

  /** `parsed` is the version and entry block of the file the index came from. */
  datatype Index = Index(version: nat, entries: seq<Entry>, extensions: Bytes, parsed: Option<(nat, Bytes)>)

  // ------------------------------------------------------------------------- order

  predicate Before(a: Entry, b: Entry) { Order.Less(a.path, b.path) || (a.path == b.path && a.stage <= b.stage) }

  function ByPathStage(): (Entry, Entry) -> bool { (a: Entry, b: Entry) => Before(a, b) }

  lemma ByPathStageTotal()
    ensures Order.TotalOrder(ByPathStage())
  {
    forall a: Entry, b: Entry ensures ByPathStage()(a, b) || ByPathStage()(b, a) {
      Order.LessTotal(a.path, b.path);
    }
    forall a: Entry, b: Entry, c: Entry | ByPathStage()(a, b) && ByPathStage()(b, c) ensures ByPathStage()(a, c) {
      if Order.Less(a.path, b.path) && Order.Less(b.path, c.path) { Order.LessTransitive(a.path, b.path, c.path); }
    }
  }

  /** Entries by path, then stage. */
  function Arranged(es: seq<Entry>): (r: seq<Entry>)
    ensures Order.Sorted(ByPathStage(), r) && multiset(r) == multiset(es) && |r| == |es|
    ensures forall e :: e in r <==> e in es
  {
    ByPathStageTotal();
    Order.Sort(ByPathStage(), es)
  }

  lemma ArrangedAlready(es: seq<Entry>)
    ensures Arranged(Arranged(es)) == Arranged(es)
  {
    ByPathStageTotal();
    Order.SortSorted(ByPathStage(), Arranged(es));
  }

  // ------------------------------------------------------------------- entry block

  function EncodeAll(version: nat, prev: Bytes, es: seq<Entry>): (r: Bytes)
    decreases |es|
  { if es == [] then [] else EncodeEntry(version, prev, es[0]) + EncodeAll(version, es[0].path, es[1..]) }

  function ParseAll(idLen: nat, data: Bytes, pos: nat, version: nat, prev: Bytes,
                    count: nat): (r: Result<(seq<Entry>, nat)>)
    requires pos <= |data|
    ensures r.Ok? ==> pos <= r.value.1 <= |data| && |r.value.0| == count
    decreases count
  {
    if count == 0 then Ok(([], pos))
    else
      var e :- ParseEntry(idLen, data, pos, version, prev);
      var rest :- ParseAll(idLen, data, e.1, version, e.0.path, count - 1);
      Ok(([e.0] + rest.0, rest.1))
  }

  predicate AllFit(idLen: nat, version: nat, es: seq<Entry>)
  {
    forall i :: 0 <= i < |es| ==> Fits(idLen, es[i]) && (es[i].extendedFlags != 0 ==> version >= 3)
  }

  lemma BlockRoundTrip(idLen: nat, data: Bytes, pos: nat, version: nat, prev: Bytes, es: seq<Entry>)
    requires AllFit(idLen, version, es) && 2 <= version <= 4 && |prev| < TWO_64
    requires pos <= |data| && At(data, pos, EncodeAll(version, prev, es))
    ensures ParseAll(idLen, data, pos, version, prev, |es|) == Ok((es, pos + |EncodeAll(version, prev, es)|))
  {
    hide EncodeAll, ParseAll, Sized, SafePath;
    forall i | 0 <= i < |es| ensures 0 !in es[i].path { SafeIsWellFormed(es[i].path); }
    BlockReads(idLen, data, pos, version, prev, es);
  }

  /** Entries whose fields fit and whose paths hold no NUL. */
  predicate AllSized(idLen: nat, version: nat, es: seq<Entry>)
  {
    forall i :: 0 <= i < |es| ==> Sized(idLen, es[i]) && 0 !in es[i].path && (es[i].extendedFlags != 0 ==> version >= 3)
  }

  predicate AllSafe(es: seq<Entry>) { forall i :: 0 <= i < |es| ==> SafePath(es[i].path) }

  lemma AllSafeCons(es: seq<Entry>)
    requires es != []
    ensures AllSafe(es) <==> SafePath(es[0].path) && AllSafe(es[1..])
  {
    hide SafePath;
    assert forall i :: 1 <= i < |es| ==> es[i] == es[1..][i - 1];
  }

  /** A written block is read back if every path is safe and refused otherwise. */
  lemma {:induction false} BlockReads(idLen: nat, data: Bytes, pos: nat, version: nat, prev: Bytes, es: seq<Entry>)
    requires AllSized(idLen, version, es) && 2 <= version <= 4 && |prev| < TWO_64
    requires pos <= |data| && At(data, pos, EncodeAll(version, prev, es))
    ensures ParseAll(idLen, data, pos, version, prev, |es|) ==
      if AllSafe(es) then Ok((es, pos + |EncodeAll(version, prev, es)|)) else Err
    decreases |es|
  {
    hide EncodeEntry, ParseEntry, Sized, At, SafePath;
    if es != [] {
      ShortPath(idLen, es[0]);
      var first := EncodeEntry(version, prev, es[0]);
      AtSplit(data, pos, first, EncodeAll(version, es[0].path, es[1..]));
      EntryReads(idLen, data, pos, version, prev, es[0]);
      AllSafeCons(es);
      if SafePath(es[0].path) { BlockReads(idLen, data, pos + |first|, version, es[0].path, es[1..]); }
      assert es == [es[0]] + es[1..];
    }
  }

  lemma ShortPath(idLen: nat, e: Entry)
    requires Sized(idLen, e)
    ensures |e.path| < TWO_64
  {}

  lemma {:induction false} BlockFits(idLen: nat, data: Bytes, pos: nat, version: nat, prev: Bytes, count: nat)
    requires pos <= |data| && ParseAll(idLen, data, pos, version, prev, count).Ok? && |prev| <= pos && |data| < TWO_64
    ensures AllFit(idLen, version, ParseAll(idLen, data, pos, version, prev, count).value.0)
    decreases count
  {
    hide ParseEntry, Fits;
    if count > 0 {
      ParsedFits(idLen, data, pos, version, prev);
      var e := ParseEntry(idLen, data, pos, version, prev).value;
      BlockFits(idLen, data, e.1, version, e.0.path, count - 1);
    }
  }

  // -------------------------------------------------------------------- extensions

  /** Signature and whole block of each extension, up to the first malformed one. */
  function Blocks(data: Bytes): (r: seq<(Bytes, Bytes)>)
    decreases |data|
  {
    if |data| < 8 || U32At(data, 4) + 8 > |data| then []
    else
      var end := U32At(data, 4) + 8;
      [(data[..4], data[..end])] + Blocks(data[end..])
  }

  predicate HasLink(data: Bytes) { exists i :: 0 <= i < |Blocks(data)| && Blocks(data)[i].0 == LINK }

  function KeepReuc(blocks: seq<(Bytes, Bytes)>): (r: Bytes)
  { if blocks == [] then [] else (if blocks[0].0 == REUC then blocks[0].1 else []) + KeepReuc(blocks[1..]) }

  lemma BlockAhead(data: Bytes, rest: Bytes)
    requires 8 <= |data| && |data| == U32At(data, 4) + 8
    ensures Blocks(data + rest) == [(data[..4], data)] + Blocks(rest)
  {
    var all := data + rest;
    assert all[4..8] == data[4..8];
    assert U32At(all, 4) == U32At(data, 4);
    assert all[..|data|] == data && all[|data|..] == rest && all[..4] == data[..4];
  }

  /** What is kept of stale extensions is `REUC` blocks only, and all of them. */
  lemma {:induction false} KeptBlocks(data: Bytes)
    ensures
      var kept := Blocks(KeepReuc(Blocks(data)));
      && (forall i :: 0 <= i < |kept| ==> kept[i].0 == [0x52, 0x45, 0x55, 0x43])
      && (forall b :: b in kept <==> b in Blocks(data) && b.0 == [0x52, 0x45, 0x55, 0x43])
    ensures !HasLink(KeepReuc(Blocks(data)))
    decreases |data|
  {
    hide U32At;
    var blocks := Blocks(data);
    if blocks != [] {
      var end := U32At(data, 4) + 8;
      var first, tail := data[..end], data[end..];
      KeptBlocks(tail);
      assert blocks[1..] == Blocks(tail);
      if blocks[0].0 == REUC {
        BlockStands(data);
        BlockAhead(first, KeepReuc(Blocks(tail)));
        assert first[..4] == data[..4];
      } else {
        assert KeepReuc(blocks) == KeepReuc(Blocks(tail));
      }
    }
  }

  lemma BlockStands(data: Bytes)
    requires |data| >= 8 && U32At(data, 4) + 8 <= |data|
    ensures U32At(data[..U32At(data, 4) + 8], 4) == U32At(data, 4)
  {}

  // -------------------------------------------------------------------------- file

  predicate NeedsExtended(es: seq<Entry>) { exists i :: 0 <= i < |es| && es[i].extendedFlags != 0 }

  /** Version 4 is kept; otherwise 3 exactly when an entry has extended flags. */
  function Chosen(idx: Index): (r: nat)
    ensures 2 <= r <= 4
  { if idx.version == 4 then 4 else if NeedsExtended(idx.entries) then 3 else 2 }

  function Body(idx: Index): (r: Bytes) { EncodeAll(Chosen(idx), [], Arranged(idx.entries)) }

  predicate Unchanged(idx: Index) { idx.parsed == Some((Chosen(idx), Body(idx))) }

  /** Extensions stay verbatim while entries and version do, else only `REUC` blocks stay. */
  function Kept(idx: Index): (r: Bytes)
  { if Unchanged(idx) then idx.extensions else KeepReuc(Blocks(idx.extensions)) }

  function Content(idx: Index): (r: Bytes)
  { SIGNATURE + U32Bytes(Chosen(idx)) + U32Bytes(|idx.entries|) + Body(idx) + Kept(idx) }

  function Serialize(env: PackFormat.Env, idx: Index): (r: Bytes) { Content(idx) + env.digest(Content(idx)) }

  /** An all-zero trailer means no checksum was computed. */
  predicate ChecksumOk(env: PackFormat.Env, body: Bytes, stored: Bytes)
  { (forall i :: 0 <= i < |stored| ==> stored[i] == 0) || stored == env.digest(body) }

  function Parse(env: PackFormat.Env, data: Bytes): (r: Result<Index>)
  {
    var n := env.algo.RawLen();
    if |data| < 12 + n then Err
    else
      var body, stored := data[..|data| - n], data[|data| - n..];
      if !ChecksumOk(env, body, stored) || data[..4] != SIGNATURE || !(2 <= U32At(data, 4) <= 4) then Err
      else
        var all :- ParseAll(n, body, 12, U32At(data, 4), [], U32At(data, 8));
        if HasLink(body[all.1..]) then Err
        else Ok(Index(U32At(data, 4), all.0, body[all.1..], Some((U32At(data, 4), body[12..all.1]))))
  }

  /** Entries the format can hold; extensions only ever come from a parse, which refuses `link`. */
  predicate Valid(idLen: nat, idx: Index)
  {
    && (forall i :: 0 <= i < |idx.entries| ==> Fits(idLen, idx.entries[i]))
    && |idx.entries| < TWO_32 && !HasLink(idx.extensions)
  }

  /** What a written index reads back as. */
  function Settled(idx: Index): (r: Index)
  { Index(Chosen(idx), Arranged(idx.entries), Kept(idx), Some((Chosen(idx), Body(idx)))) }

  lemma ArrangedSized(idLen: nat, idx: Index)
    requires forall e :: e in idx.entries ==> Sized(idLen, e) && 0 !in e.path
    ensures AllSized(idLen, Chosen(idx), Arranged(idx.entries))
    ensures AllSafe(Arranged(idx.entries)) <==> forall e :: e in idx.entries ==> SafePath(e.path)
  {
    hide Sized, HasLink, SafePath, Arranged;
    var es := Arranged(idx.entries);
    forall i | 0 <= i < |es|
      ensures Sized(idLen, es[i]) && 0 !in es[i].path && (es[i].extendedFlags != 0 ==> Chosen(idx) >= 3)
    {
      assert es[i] in idx.entries;
    }
    if AllSafe(es) {
      forall e | e in idx.entries ensures SafePath(e.path) {
        var i :| 0 <= i < |es| && es[i] == e;
      }
    }
    forall i | 0 <= i < |es| ensures es[i] in idx.entries {}
  }

  lemma ContentPieces(idx: Index, data: Bytes)
    requires At(data, 0, Content(idx)) && |idx.entries| < TWO_32
    ensures 12 + |Body(idx)| <= |data| && data[..4] == SIGNATURE
    ensures U32At(data, 4) == Chosen(idx) && U32At(data, 8) == |idx.entries| && At(data, 12, Body(idx))
    ensures |Content(idx)| == 12 + |Body(idx)| + |Kept(idx)| && At(data, 12 + |Body(idx)|, Kept(idx))
  {
    hide Body, Kept, U32At, U32Bytes, Chosen;
    var a, b, c := SIGNATURE, U32Bytes(Chosen(idx)), U32Bytes(|idx.entries|);
    AtSplit(data, 0, a + b + c + Body(idx), Kept(idx));
    AtSplit(data, 0, a + b + c, Body(idx));
    AtSplit(data, 0, a + b, c);
    AtSplit(data, 0, a, b);
    U32RoundTrip(data, 4, Chosen(idx));
    U32RoundTrip(data, 8, |idx.entries|);
  }

  lemma KeptHasNoLink(idx: Index)
    requires !HasLink(idx.extensions)
    ensures !HasLink(Kept(idx))
  {
    KeptBlocks(idx.extensions);
  }

  /** Reading a written index gives its entries in order and the extensions that were kept. */
  lemma IndexRoundTrip(env: PackFormat.Env, idx: Index)
    requires env.Lawful() && Valid(env.algo.RawLen(), idx)
    ensures Parse(env, Serialize(env, idx)) == Ok(Settled(idx))
  {
    hide Parse, Serialize, Settled, HasLink, SafePath, Sized;
    forall e | e in idx.entries ensures 0 !in e.path && SafePath(e.path) {
      var i :| 0 <= i < |idx.entries| && idx.entries[i] == e;
      assert Fits(env.algo.RawLen(), idx.entries[i]);
      SafeIsWellFormed(e.path);
    }
    IndexReads(env, idx);
  }

  /** A written index is read back if every path in it is safe and refused otherwise. */
  lemma IndexReads(env: PackFormat.Env, idx: Index)
    requires env.Lawful() && |idx.entries| < TWO_32 && !HasLink(idx.extensions)
    requires forall e :: e in idx.entries ==> Sized(env.algo.RawLen(), e) && 0 !in e.path
    ensures Parse(env, Serialize(env, idx)) ==
      if forall e :: e in idx.entries ==> SafePath(e.path) then Ok(Settled(idx)) else Err
  {
    hide Content, Body, Kept, HasLink, ParseAll, Sized, U32At, Chosen, Arranged, SafePath, AllSafe, AllSized, Parse, At;
    var n, content := env.algo.RawLen(), Content(idx);
    ContentParts(idx);
    ArrangedSized(n, idx);
    KeptHasNoLink(idx);
    BodyIs(idx);
    BlockReads(n, content, 12, Chosen(idx), [], Arranged(idx.entries));
    ParseWritten(env, content);
  }

  lemma ContentParts(idx: Index)
    requires |idx.entries| < TWO_32
    ensures
      var content, end := Content(idx), 12 + |Body(idx)|;
      && end <= |content| && content[..4] == SIGNATURE && At(content, 12, Body(idx))
      && U32At(content, 4) == Chosen(idx) && U32At(content, 8) == |idx.entries|
      && content[12..end] == Body(idx) && content[end..] == Kept(idx)
  {
    hide Content, Body, Kept, U32At, Chosen;
    var content, end := Content(idx), 12 + |Body(idx)|;
    assert content[0..|content|] == content;
    ContentPieces(idx, content);
    assert content[end..] == content[end..end + |Kept(idx)|];
  }

  /** Reading what stands before its own digest. */
  lemma ParseWritten(env: PackFormat.Env, content: Bytes)
    requires env.Lawful() && |content| >= 12 && content[..4] == SIGNATURE && 2 <= U32At(content, 4) <= 4
    ensures
      var version := U32At(content, 4);
      var all := ParseAll(env.algo.RawLen(), content, 12, version, [], U32At(content, 8));
      Parse(env, content + env.digest(content)) ==
        if all.Err? || HasLink(content[all.value.1..]) then Err
        else Ok(Index(version, all.value.0, content[all.value.1..], Some((version, content[12..all.value.1]))))
  {
    hide ParseAll, HasLink, U32At;
    var n, data := env.algo.RawLen(), content + env.digest(content);
    assert |env.digest(content)| == n;
    assert data[..|data| - n] == content && data[|data| - n..] == env.digest(content);
    assert data[..4] == content[..4];
    SameWord(content, env.digest(content), 4);
    SameWord(content, env.digest(content), 8);
  }

  lemma SameWord(a: Bytes, b: Bytes, pos: nat)
    requires pos + 4 <= |a|
    ensures U32At(a + b, pos) == U32At(a, pos)
  {}

  lemma BodyIs(idx: Index)
    ensures Body(idx) == EncodeAll(Chosen(idx), [], Arranged(idx.entries)) && 2 <= Chosen(idx) <= 4
  {}

  lemma ContentPiecesOuter(env: PackFormat.Env, idx: Index)
    requires |idx.entries| < TWO_32
    ensures
      var data := Serialize(env, idx);
      |data| >= 12 && data[..4] == SIGNATURE && U32At(data, 4) == Chosen(idx) && U32At(data, 8) == |idx.entries|
  {
    hide Content, U32At, Chosen, Body, Kept;
    var data := Serialize(env, idx);
    assert data[0..|Content(idx)|] == Content(idx);
    ContentPieces(idx, data);
  }

  /** What was read back counts as unchanged, so writing it again gives the same bytes. */
  lemma SerializeAgain(env: PackFormat.Env, idx: Index)
    ensures Unchanged(Settled(idx)) && Serialize(env, Settled(idx)) == Serialize(env, idx)
  {
    hide EncodeAll, Arranged, Blocks, KeepReuc;
    var s := Settled(idx);
    ArrangedAlready(idx.entries);
    SameNeeds(idx.entries);
  }

  lemma SameNeeds(es: seq<Entry>)
    ensures NeedsExtended(Arranged(es)) == NeedsExtended(es)
  {
    hide Arranged;
    var s := Arranged(es);
    if NeedsExtended(es) {
      var i :| 0 <= i < |es| && es[i].extendedFlags != 0;
      assert es[i] in s;
    }
    if NeedsExtended(s) {
      var i :| 0 <= i < |s| && s[i].extendedFlags != 0;
      assert s[i] in es;
    }
  }

  /** A file that parses is reproduced byte for byte exactly when its entry block is the
      one the writer makes of its entries and it carries a real checksum. */
  lemma ByteIdentical(env: PackFormat.Env, data: Bytes)
    requires env.Lawful() && |data| < TWO_64 && Parse(env, data).Ok?
    ensures
      var idx, n := Parse(env, data).value, env.algo.RawLen();
      Serialize(env, idx) == data <==> Unchanged(idx) && data[|data| - n..] == env.digest(data[..|data| - n])
  {
    hide Unchanged, ParseAll, HasLink, U32At, U32Bytes, Serialize, Settled, Fits;
    var idx, n := Parse(env, data).value, env.algo.RawLen();
    var body := data[..|data| - n];
    ParsedValid(env, data);
    if Serialize(env, idx) == data {
      IndexRoundTrip(env, idx);
      SerializeAgain(env, idx);
      SerializeEnds(env, idx);
    }
    if Unchanged(idx) {
      ContentOfParsed(env, data);
      SerializeEnds(env, idx);
      assert data == body + data[|data| - n..];
    }
  }

  lemma SerializeEnds(env: PackFormat.Env, idx: Index)
    requires env.Lawful()
    ensures
      var data, n := Serialize(env, idx), env.algo.RawLen();
      && |data| >= n && data[..|data| - n] == Content(idx) && data[|data| - n..] == env.digest(Content(idx))
      && data == Content(idx) + env.digest(Content(idx))
  {
    hide Content;
    assert |env.digest(Content(idx))| == env.algo.RawLen();
  }

  lemma ParsedValid(env: PackFormat.Env, data: Bytes)
    requires |data| < TWO_64 && Parse(env, data).Ok?
    ensures Valid(env.algo.RawLen(), Parse(env, data).value)
  {
    hide ParseAll, HasLink, Fits, U32At;
    var n := env.algo.RawLen();
    BlockFits(n, data[..|data| - n], 12, U32At(data, 4), [], U32At(data, 8));
  }

  lemma U32Stands(data: Bytes, pos: nat)
    requires pos + 4 <= |data|
    ensures U32Bytes(U32At(data, pos)) == data[pos..pos + 4]
  {
    U16Stands(data, pos);
    U16Stands(data, pos + 2);
    var hi, lo := U16At(data, pos), U16At(data, pos + 2);
    assert (hi * 0x1_0000 + lo) / 0x1_0000 == hi;
    U16Wraps(hi, lo);
    assert data[pos..pos + 4] == data[pos..pos + 2] + data[pos + 2..pos + 4];
  }

  lemma U16Wraps(hi: nat, lo: nat)
    requires lo < 0x1_0000
    ensures U16Bytes(hi * 0x1_0000 + lo) == U16Bytes(lo)
  {
    var n := hi * 0x1_0000 + lo;
    assert n == lo + 0x100 * (0x100 * hi);
    assert n / 0x100 == lo / 0x100 + 0x100 * hi;
  }

  lemma U16Stands(data: Bytes, pos: nat)
    requires pos + 2 <= |data|
    ensures U16Bytes(U16At(data, pos)) == data[pos..pos + 2]
  {}

  lemma ContentOfParsed(env: PackFormat.Env, data: Bytes)
    requires Parse(env, data).Ok? && Unchanged(Parse(env, data).value)
    ensures Content(Parse(env, data).value) == data[..|data| - env.algo.RawLen()]
  {
    hide ParseAll, HasLink, U32At, U32Bytes, Body, Chosen;
    var n := env.algo.RawLen();
    var idx, body := Parse(env, data).value, data[..|data| - n];
    var all := ParseAll(n, body, 12, U32At(data, 4), [], U32At(data, 8)).value;
    U32Stands(data, 4);
    U32Stands(data, 8);
    Cut(data, |data| - n, 0, 4);
    Cut(data, |data| - n, 4, 8);
    Cut(data, |data| - n, 8, 12);
    assert data[..4] == data[0..4];
    assert body == body[0..4] + body[4..8] + body[8..12] + body[12..all.1] + body[all.1..];
  }

  lemma Cut(data: Bytes, n: nat, i: nat, j: nat)
    requires i <= j <= n <= |data|
    ensures data[..n][i..j] == data[i..j]
  {}

  // ------------------------------------------------------------------- the methods

  lemma BlockStep(version: nat, prev: Bytes, es: seq<Entry>, i: nat)
    requires i < |es|
    ensures EncodeAll(version, prev, es[i..]) ==
      EncodeEntry(version, prev, es[i]) + EncodeAll(version, es[i].path, es[i + 1..])
  {
    assert es[i..][1..] == es[i + 1..];
  }

  lemma BlockNothing(version: nat, prev: Bytes)
    ensures EncodeAll(version, prev, []) == []
  {}

  /** The entry block, one entry after another, each relative to the path before it. */
  method WriteBlock(version: nat, es: seq<Entry>) returns (body: Bytes)
    requires forall i :: 0 <= i < |es| ==> |es[i].path| < TWO_64
    ensures body == EncodeAll(version, [], es)
  {
    hide EncodeAll, EncodeEntry;
    var prev: Bytes := [];
    body := [];
    assert es[0..] == es;
    for i := 0 to |es|
      invariant |prev| < TWO_64 && body + EncodeAll(version, prev, es[i..]) == EncodeAll(version, [], es)
    {
      BlockStep(version, prev, es, i);
      body := WriteEntry(body, es[i], version, prev);
      prev := es[i].path;
    }
    assert es[|es|..] == [];
    BlockNothing(version, prev);
  }

  method ExtensionBlocks(data0: Bytes) returns (out: seq<(Bytes, Bytes)>)
    ensures out == Blocks(data0)
  {
    hide U32At;
    var data := data0;
    out := [];
    while |data| >= 8
      invariant out + Blocks(data) == Blocks(data0)
      decreases |data|
    {
      var end := U32At(data, 4) + 8;
      if end > |data| { break; }
      out := out + [(data[..4], data[..end])];
      data := data[end..];
    }
  }

  method SerializeIndex(env: PackFormat.Env, idx: Index) returns (out: Bytes)
    requires forall i :: 0 <= i < |idx.entries| ==> |idx.entries[i].path| < TWO_64
    ensures out == Serialize(env, idx)
  {
    hide Arranged, EncodeAll, U32Bytes, Blocks;
    var sorted := Arranged(idx.entries);
    forall i | 0 <= i < |sorted| ensures |sorted[i].path| < TWO_64 {
      assert sorted[i] in idx.entries;
    }
    var extended := false;
    for i := 0 to |sorted|
      invariant extended <==> exists k :: 0 <= k < i && sorted[k].extendedFlags != 0
    {
      if sorted[i].extendedFlags != 0 { extended := true; }
    }
    SameNeeds(idx.entries);
    var version := if idx.version == 4 then 4 else if extended then 3 else 2;
    var body := WriteBlock(version, sorted);
    out := SIGNATURE + U32Bytes(version) + U32Bytes(|sorted|) + body;
    var kept := KeptExtensions(idx.extensions, idx.parsed == Some((version, body)));
    out := out + kept;
    out := out + env.digest(out);
  }

  method KeptExtensions(extensions: Bytes, same: bool) returns (out: Bytes)
    ensures out == if same then extensions else KeepReuc(Blocks(extensions))
  {
    hide Blocks;
    if same { return extensions; }
    var blocks := ExtensionBlocks(extensions);
    out := [];
    assert blocks[0..] == blocks;
    for i := 0 to |blocks|
      invariant out + KeepReuc(blocks[i..]) == KeepReuc(blocks)
    {
      assert blocks[i..][1..] == blocks[i + 1..];
      if blocks[i].0 == REUC { out := out + blocks[i].1; }
    }
    assert blocks[|blocks|..] == [];
  }

  lemma ParseStep(idLen: nat, body: Bytes, pos: nat, version: nat, prev: Bytes, count: nat, es: seq<Entry>)
    requires pos <= |body|
    ensures Behind([], ParseAll(idLen, body, pos, version, prev, count)) ==
      ParseAll(idLen, body, pos, version, prev, count)
    ensures count == 0 ==> Behind(es, ParseAll(idLen, body, pos, version, prev, count)) == Ok((es, pos))
    ensures count > 0 ==>
      var e := ParseEntry(idLen, body, pos, version, prev);
      Behind(es, ParseAll(idLen, body, pos, version, prev, count)) ==
        if e.Err? then Err
        else Behind(es + [e.value.0], ParseAll(idLen, body, e.value.1, version, e.value.0.path, count - 1))
  {
    hide ParseEntry;
    var r := ParseAll(idLen, body, pos, version, prev, count);
    if r.Ok? { assert [] + r.value.0 == r.value.0; }
    assert es + [] == es;
    if count > 0 && ParseEntry(idLen, body, pos, version, prev).Ok? {
      var e := ParseEntry(idLen, body, pos, version, prev).value;
      var rest := ParseAll(idLen, body, e.1, version, e.0.path, count - 1);
      if rest.Ok? { assert es + ([e.0] + rest.value.0) == es + [e.0] + rest.value.0; }
    }
  }

  function Behind(es: seq<Entry>, r: Result<(seq<Entry>, nat)>): Result<(seq<Entry>, nat)>
  { if r.Err? then Err else Ok((es + r.value.0, r.value.1)) }

  method ParseIndex(env: PackFormat.Env, data: Bytes) returns (r: Result<Index>)
    ensures r == Parse(env, data)
  {
    hide ParseAll, ParseEntry, Behind, Blocks, U32At;
    var n := env.algo.RawLen();
    if |data| < 12 + n { return Err; }
    var body, stored := data[..|data| - n], data[|data| - n..];
    if !ChecksumOk(env, body, stored) || data[..4] != SIGNATURE { return Err; }
    var version, count := U32At(data, 4), U32At(data, 8);
    if !(2 <= version <= 4) { return Err; }
    var pos: nat, prev, entries: seq<Entry>, i: nat := 12, [], [], 0;
    ParseStep(n, body, 12, version, [], count, []);
    while i < count
      invariant i <= count && pos <= |body|
      invariant Behind(entries, ParseAll(n, body, pos, version, prev, count - i)) ==
        ParseAll(n, body, 12, version, [], count)
    {
      ParseStep(n, body, pos, version, prev, count - i, entries);
      var e := ParseEntry(n, body, pos, version, prev);
      if e.Err? { return Err; }
      prev, entries, pos, i := e.value.0.path, entries + [e.value.0], e.value.1, i + 1;
    }
    ParseStep(n, body, pos, version, prev, 0, entries);
    var extensions := body[pos..];
    var blocks := ExtensionBlocks(extensions);
    for k := 0 to |blocks|
      invariant forall j :: 0 <= j < k ==> blocks[j].0 != LINK
    {
      if blocks[k].0 == LINK { return Err; }
    }
    return Ok(Index(version, entries, extensions, Some((version, body[12..pos]))));
  }
}
