/** Writing packs (src/pack/writer.rs) and reading them back. */
module PackWriter {
  import opened Base
  import opened PackFormat
  import opened PackReader
  import opened Tables
  import Delta
  import PackAgreement
  import IdTable
  import PackIndex

  const MAX_DELTA_SIZE: nat := 0x10_0000
  const DELTA_WINDOW: nat := 10
  const EXTERNAL_WINDOW: nat := 16

  /** A queued object with its id. */
  datatype Queued = Queued(id: Id, obj: Obj)

  /** Objects under their own, pairwise distinct ids. */
  ghost predicate Queue(env: Env, q: seq<Queued>)
  {
    && (forall i :: 0 <= i < |q| ==> q[i].id == env.hash(q[i].obj) && |q[i].obj.bytes| < TWO_64)
    && (forall i, j :: 0 <= i < j < |q| ==> q[i].id != q[j].id)
  }

  /** Queues an object unless its id is already there. */
  function Enqueue(env: Env, q: seq<Queued>, obj: Obj): (r: seq<Queued>)
    requires Queue(env, q) && |obj.bytes| < TWO_64
    ensures Queue(env, r) && q <= r
  {
    var id := env.hash(obj);
    if exists i :: 0 <= i < |q| && q[i].id == id then q else q + [Queued(id, obj)]
  }

  // ------------------------------------------------------------------ frames

  /** What one pack entry stores. */
  datatype Frame = Frame(kind: Kind, stream: Bytes)

  function FrameParts(env: Env, frames: seq<Frame>): (r: seq<Bytes>)
    ensures |r| == |frames|
    ensures forall i :: 0 <= i < |frames| ==> r[i] == FrameBytes(env, frames[i].kind, frames[i].stream)
  {
    seq(|frames|, i requires 0 <= i < |frames| => FrameBytes(env, frames[i].kind, frames[i].stream))
  }

  /** The pack offset just after these frames. */
  function Start(env: Env, frames: seq<Frame>): (r: nat) { 12 + |Concat(FrameParts(env, frames))| }

  function PackBody(env: Env, frames: seq<Frame>): (r: Bytes)
  {
    SIGNATURE + U32Bytes(2) + U32Bytes(|frames|) + Concat(FrameParts(env, frames))
  }

  function PackBytes(env: Env, frames: seq<Frame>): (r: Bytes)
  {
    PackBody(env, frames) + env.digest(PackBody(env, frames))
  }

  /** Frame `f`, written after `before`, stores the next queued object: in full, as a
      delta on an earlier full entry, or as a delta on an object the receiver has. */
  ghost predicate Encodes(env: Env, before: seq<Frame>, f: Frame, entries: seq<Queued>, externals: seq<Queued>)
  {
    && |before| < |entries| && |f.stream| < TWO_64
    && match f.kind
       case Full(ty) => entries[|before|].obj == Obj(ty, f.stream)
       case OfsDelta(rel) =>
         exists i :: 0 <= i < |before| && OfsEncodes(env, before, i, rel, f.stream, entries)
       case RefDelta(id) =>
         exists b :: 0 <= b < |externals| && externals[b].id == id
                     && OnBase(externals[b].obj, f.stream) == Ok(entries[|before|].obj)
  }

  ghost predicate OfsEncodes(env: Env, before: seq<Frame>, i: nat, rel: nat, delta: Bytes, entries: seq<Queued>)
    requires i < |before| < |entries|
  {
    && before[i].kind.Full?
    && 0 < rel == Start(env, before) - Start(env, before[..i])
    && OnBase(entries[i].obj, delta) == Ok(entries[|before|].obj)
  }

  ghost predicate WellWritten(env: Env, frames: seq<Frame>, entries: seq<Queued>, externals: seq<Queued>)
  {
    && |frames| <= |entries|
    && forall k :: 0 <= k < |frames| ==> Encodes(env, frames[..k], frames[k], entries, externals)
  }

  lemma WellWrittenSnoc(env: Env, frames: seq<Frame>, f: Frame, entries: seq<Queued>, externals: seq<Queued>)
    requires WellWritten(env, frames, entries, externals) && Encodes(env, frames, f, entries, externals)
    ensures WellWritten(env, frames + [f], entries, externals)
  {
    hide Encodes;
    var all := frames + [f];
    assert |frames| < |entries| by { EncodesRoom(env, frames, f, entries, externals); }
    forall k | 0 <= k < |all| ensures Encodes(env, all[..k], all[k], entries, externals) {
      assert all[..k] == frames[..k];
      assert frames[..|frames|] == frames;
    }
  }

  lemma EncodesRoom(env: Env, before: seq<Frame>, f: Frame, entries: seq<Queued>, externals: seq<Queued>)
    requires Encodes(env, before, f, entries, externals)
    ensures |before| < |entries|
  {}

  /** Frames start one after another. */
  lemma StartSnoc(env: Env, frames: seq<Frame>, f: Frame)
    ensures Start(env, frames + [f]) == Start(env, frames) + |FrameBytes(env, f.kind, f.stream)|
    ensures Concat(FrameParts(env, frames + [f])) ==
            Concat(FrameParts(env, frames)) + FrameBytes(env, f.kind, f.stream)
  {
    assert FrameParts(env, frames + [f]) == FrameParts(env, frames) + [FrameBytes(env, f.kind, f.stream)];
    ConcatSnoc(FrameParts(env, frames), FrameBytes(env, f.kind, f.stream));
  }

  lemma {:induction false} StartGrows(env: Env, frames: seq<Frame>, i: nat)
    requires i <= |frames|
    ensures Start(env, frames[..i]) <= Start(env, frames)
    ensures i < |frames| ==> Start(env, frames[..i]) < Start(env, frames)
  {
    if i < |frames| {
      var init, last := frames[..|frames| - 1], frames[|frames| - 1];
      assert frames == init + [last] && init[..i] == frames[..i];
      StartSnoc(env, init, last);
      StartGrows(env, init, i);
    } else {
      assert frames[..i] == frames;
    }
  }

  // ------------------------------------------------------------------ reading back

  function Results(entries: seq<Queued>): (r: seq<(Id, Obj)>)
    ensures |r| == |entries| && forall i :: 0 <= i < |r| ==> r[i] == (entries[i].id, entries[i].obj)
  { seq(|entries|, i requires 0 <= i < |entries| => (entries[i].id, entries[i].obj)) }

  /** The receiver has every external base. */
  ghost predicate Answers(resolve: Resolver, externals: seq<Queued>)
  {
    forall b :: 0 <= b < |externals| ==> resolve(externals[b].id) == Ok(externals[b].obj)
  }

  /** No queued object shares an id with a different external base. */
  ghost predicate NoClash(entries: seq<Queued>, externals: seq<Queued>)
  {
    forall e, b :: 0 <= e < |entries| && 0 <= b < |externals| && entries[e].id == externals[b].id ==>
      entries[e].obj == externals[b].obj
  }

  /** The reader stands after the first `k` frames with the first `k` objects. */
  ghost predicate Tracks(env: Env, frames: seq<Frame>, entries: seq<Queued>, st: State, k: nat)
  {
    && k <= |frames| <= |entries|
    && st.offset == Start(env, frames[..k])
    && |st.results| == |st.offsets| == k
    && (forall i :: 0 <= i < k ==> st.results[i] == (entries[i].id, entries[i].obj))
    && (forall i :: 0 <= i < k ==> st.offsets[i] == Start(env, frames[..i]))
  }

  lemma OfsFrameDecodes(env: Env, resolve: Resolver, frames: seq<Frame>, entries: seq<Queued>,
                        st: State, k: nat, i: nat, rel: nat, next: nat)
    requires i < k < |frames| && Tracks(env, frames, entries, st, k) && PackAgreement.OffsetTable(st)
    requires OfsEncodes(env, frames[..k], i, rel, frames[k].stream, entries)
    ensures Decode(resolve, Entry(OfsDelta(rel), frames[k].stream, next), st) == Ok(entries[k].obj)
  {
    hide OnBase, Start;
    assert frames[..k][..i] == frames[..i];
    assert st.offset - rel == st.offsets[i];
  }

  lemma RefFrameDecodes(env: Env, resolve: Resolver, entries: seq<Queued>, externals: seq<Queued>,
                        st: State, k: nat, b: nat, delta: Bytes, next: nat)
    requires k < |entries| && |st.results| == k && PackAgreement.IdTable(env, st)
    requires forall i :: 0 <= i < k ==> st.results[i] == (entries[i].id, entries[i].obj)
    requires Answers(resolve, externals) && NoClash(entries, externals)
    requires b < |externals| && OnBase(externals[b].obj, delta) == Ok(entries[k].obj)
    ensures Decode(resolve, Entry(RefDelta(externals[b].id), delta, next), st) == Ok(entries[k].obj)
  {
    hide OnBase;
    var id := externals[b].id;
    if id in st.byId {
      var i := PackAgreement.FindId(env, st, id);
      assert st.byId[id] == entries[i].obj;
    }
  }

  lemma FrameDecodes(env: Env, resolve: Resolver, frames: seq<Frame>, entries: seq<Queued>,
                     externals: seq<Queued>, st: State, k: nat, next: nat)
    requires k < |frames| && Tracks(env, frames, entries, st, k)
    requires Encodes(env, frames[..k], frames[k], entries, externals)
    requires PackAgreement.OffsetTable(st) && PackAgreement.IdTable(env, st)
    requires Answers(resolve, externals) && NoClash(entries, externals)
    ensures Decode(resolve, Entry(frames[k].kind, frames[k].stream, next), st) == Ok(entries[k].obj)
  {
    hide OnBase, Start, PackAgreement.OffsetTable, PackAgreement.IdTable, OfsEncodes, Answers, NoClash;
    var f := frames[k];
    match f.kind
    case Full(_) =>
    case OfsDelta(rel) =>
      var i :| 0 <= i < k && OfsEncodes(env, frames[..k], i, rel, f.stream, entries);
      OfsFrameDecodes(env, resolve, frames, entries, st, k, i, rel, next);
    case RefDelta(id) =>
      var b :| 0 <= b < |externals| && externals[b].id == id
               && OnBase(externals[b].obj, f.stream) == Ok(entries[k].obj);
      RefFrameDecodes(env, resolve, entries, externals, st, k, b, f.stream, next);
  }

  lemma TracksRecord(env: Env, frames: seq<Frame>, entries: seq<Queued>, st: State, k: nat)
    requires k < |frames| && Queue(env, entries) && Tracks(env, frames, entries, st, k)
    ensures Tracks(env, frames, entries, Record(env, st, entries[k].obj, Start(env, frames[..k + 1])), k + 1)
  {
    hide Start;
  }

  lemma AfterStep(env: Env, resolve: Resolver, data: Bytes, n: nat, st: State, entry: Entry, obj: Obj)
    requires After(env, resolve, data, n) == Ok(st)
    requires ReadEntry(env, data, st.offset) == Ok(entry) && Decode(resolve, entry, st) == Ok(obj)
    ensures After(env, resolve, data, n + 1) == Ok(Record(env, st, obj, entry.next))
  {
    hide ReadEntry, Decode, Record;
  }

  ghost predicate Written(env: Env, frames: seq<Frame>, entries: seq<Queued>, externals: seq<Queued>, data: Bytes)
  {
    && Queue(env, entries) && WellWritten(env, frames, entries, externals)
    && At(data, 12, Concat(FrameParts(env, frames))) && |data| < TWO_64
    && (forall b :: 0 <= b < |externals| ==> |externals[b].id| == env.algo.RawLen())
  }

  lemma FrameReads(env: Env, frames: seq<Frame>, entries: seq<Queued>, externals: seq<Queued>, data: Bytes, k: nat)
    requires env.Lawful() && Written(env, frames, entries, externals, data) && k < |frames|
    ensures ReadEntry(env, data, Start(env, frames[..k])) ==
            Ok(Entry(frames[k].kind, frames[k].stream, Start(env, frames[..k + 1])))
  {
    hide ReadEntry, FrameBytes, OnBase, Encodes, Concat, Queue;
    var f := frames[k];
    var before := frames[..k];
    PartAt(data, 12, FrameParts(env, frames), k);
    assert FrameParts(env, frames)[..k] == FrameParts(env, before);
    assert frames[..k + 1] == before + [f];
    StartSnoc(env, before, f);
    assert Encodes(env, before, f, entries, externals);
    FrameFits(env, before, f, entries, externals, data);
    FrameRoundTrip(env, data, Start(env, before), f.kind, f.stream);
  }

  lemma FrameFits(env: Env, before: seq<Frame>, f: Frame, entries: seq<Queued>, externals: seq<Queued>, data: Bytes)
    requires Encodes(env, before, f, entries, externals) && Start(env, before) <= |data| < TWO_64
    requires forall b :: 0 <= b < |externals| ==> |externals[b].id| == env.algo.RawLen()
    ensures KindFits(env, f.kind) && |f.stream| < TWO_64
  {}

  lemma WrittenStep(env: Env, resolve: Resolver, frames: seq<Frame>, entries: seq<Queued>,
                    externals: seq<Queued>, data: Bytes, k: nat)
    requires env.Lawful() && Written(env, frames, entries, externals, data) && k < |frames|
    requires Answers(resolve, externals) && NoClash(entries, externals)
    requires After(env, resolve, data, k).Ok? && Tracks(env, frames, entries, After(env, resolve, data, k).value, k)
    ensures After(env, resolve, data, k + 1).Ok?
    ensures Tracks(env, frames, entries, After(env, resolve, data, k + 1).value, k + 1)
  {
    hide After, ReadEntry, Decode, Encodes, Start, Answers, NoClash, PackAgreement.OffsetTable, PackAgreement.IdTable;
    var st := After(env, resolve, data, k).value;
    PackAgreement.TablesHold(env, resolve, data, k);
    FrameReads(env, frames, entries, externals, data, k);
    var next := Start(env, frames[..k + 1]);
    FrameDecodes(env, resolve, frames, entries, externals, st, k, next);
    AfterStep(env, resolve, data, k, st, Entry(frames[k].kind, frames[k].stream, next), entries[k].obj);
    TracksRecord(env, frames, entries, st, k);
  }

  lemma RunStarts(env: Env, resolve: Resolver, frames: seq<Frame>, entries: seq<Queued>,
                  externals: seq<Queued>, data: Bytes)
    requires Written(env, frames, entries, externals, data)
    ensures After(env, resolve, data, 0).Ok?
    ensures Tracks(env, frames, entries, After(env, resolve, data, 0).value, 0)
  {
    assert frames[..0] == [];
  }

  lemma {:induction false} WrittenRuns(env: Env, resolve: Resolver, frames: seq<Frame>, entries: seq<Queued>,
                                       externals: seq<Queued>, data: Bytes, k: nat)
    requires env.Lawful() && Written(env, frames, entries, externals, data) && k <= |frames|
    requires Answers(resolve, externals) && NoClash(entries, externals)
    ensures After(env, resolve, data, k).Ok?
    ensures Tracks(env, frames, entries, After(env, resolve, data, k).value, k)
  {
    hide After, Tracks, Written, Answers, NoClash;
    if k == 0 {
      RunStarts(env, resolve, frames, entries, externals, data);
    } else {
      WrittenRuns(env, resolve, frames, entries, externals, data, k - 1);
      WrittenStep(env, resolve, frames, entries, externals, data, k - 1);
    }
  }

  /** Everything queued is read back exactly: exploding the written pack, whatever
      follows it, returns the queued objects in order with their ids and stops at its end. */
  lemma PackRoundTrip(env: Env, resolve: Resolver, frames: seq<Frame>, entries: seq<Queued>,
                      externals: seq<Queued>, rest: Bytes)
    requires env.Lawful() && Queue(env, entries) && Queue(env, externals)
    requires |frames| == |entries| < TWO_32 && WellWritten(env, frames, entries, externals)
    requires Answers(resolve, externals) && NoClash(entries, externals)
    requires |PackBytes(env, frames) + rest| < TWO_64
    ensures Explode(env, resolve, PackBytes(env, frames) + rest) == Ok((Results(entries), |PackBytes(env, frames)|))
  {
    hide After, Concat, FrameParts, Answers, NoClash, WellWritten, U32Bytes, U32At;
    var pack := PackBytes(env, frames);
    var data := pack + rest;
    PackHeader(env, frames, rest);
    assert Written(env, frames, entries, externals, data);
    WrittenRuns(env, resolve, frames, entries, externals, data, |frames|);
    var st := After(env, resolve, data, |frames|).value;
    assert frames[..|frames|] == frames;
    assert st.results == Results(entries);
  }

  /** Whatever follows it, the packfile explodes to the queue and ends where it ends, for
      every resolver that knows the external bases. */
  ghost predicate ReadsBack(env: Env, entries: seq<Queued>, externals: seq<Queued>, pack: Bytes)
  {
    |entries| < TWO_32 && NoClash(entries, externals) ==>
      forall resolve: Resolver, rest: Bytes {:trigger Explode(env, resolve, pack + rest)} ::
        Answers(resolve, externals) && |pack + rest| < TWO_64 ==>
        Explode(env, resolve, pack + rest) == Ok((Results(entries), |pack|))
  }

  lemma FinishedReads(env: Env, frames: seq<Frame>, entries: seq<Queued>, externals: seq<Queued>)
    requires env.Lawful() && Queue(env, entries) && Queue(env, externals)
    requires |frames| == |entries| && WellWritten(env, frames, entries, externals)
    ensures ReadsBack(env, entries, externals, PackBytes(env, frames))
  {
    hide Queue, WellWritten, PackBytes, Explode, NoClash, Answers;
    if |entries| < TWO_32 && NoClash(entries, externals) {
      forall resolve: Resolver, rest: Bytes | Answers(resolve, externals) && |PackBytes(env, frames) + rest| < TWO_64
        ensures Explode(env, resolve, PackBytes(env, frames) + rest) == Ok((Results(entries), |PackBytes(env, frames)|))
      {
        PackRoundTrip(env, resolve, frames, entries, externals, rest);
      }
    }
  }

  /** `PACK`, version 2, the number of entries, the entries, and a digest of all that. */
  lemma PackMeans(env: Env, frames: seq<Frame>)
    requires env.Lawful()
    ensures
      var pack, n := PackBytes(env, frames), env.algo.RawLen();
      && |pack| >= 12 + n && pack[..8] == [0x50, 0x41, 0x43, 0x4B, 0, 0, 0, 2]
      && pack[|pack| - n..] == env.digest(pack[..|pack| - n])
      && (|frames| < 0x1_0000_0000 ==> Opened(pack) == Ok(|frames|))
      && (frames != [] ==> At(pack, 12, FrameBytes(env, frames[0].kind, frames[0].stream)))
  {
    hide Concat, FrameBytes, U32At, U32Bytes;
    var body := PackBody(env, frames);
    var pack, parts := PackBytes(env, frames), FrameParts(env, frames);
    assert |env.digest(body)| == env.algo.RawLen();
    assert pack[..|body|] == body && pack[|body|..] == env.digest(body);
    SmallWord();
    var head := SIGNATURE + U32Bytes(2) + U32Bytes(|frames|);
    assert At(pack, 0, head + Concat(parts) + env.digest(body));
    AtSplit(pack, 0, head + Concat(parts), env.digest(body));
    AtSplit(pack, 0, head, Concat(parts));
    AtSplit(pack, 0, SIGNATURE + U32Bytes(2), U32Bytes(|frames|));
    assert pack[0..8] == [0x50, 0x41, 0x43, 0x4B, 0, 0, 0, 2];
    OpenMeans(pack);
    if |frames| < 0x1_0000_0000 {
      U32RoundTrip(pack, 8, |frames|);
      BigEndian(pack, 8);
    }
    if frames != [] {
      PartAt(pack, 12, parts, 0);
      NoParts();
      assert parts[..0] == [];
    }
  }

  lemma SmallWord()
    ensures U32Bytes(2) == [0, 0, 0, 2]
  {}

  lemma PackHeader(env: Env, frames: seq<Frame>, rest: Bytes)
    requires |frames| < TWO_32
    ensures
      var data := PackBytes(env, frames) + rest;
      && |data| >= 12 && data[..4] == SIGNATURE && U32At(data, 8) == |frames|
      && At(data, 12, Concat(FrameParts(env, frames)))
      && |PackBytes(env, frames)| == Start(env, frames) + |env.digest(PackBody(env, frames))|
  {
    hide Concat, FrameParts, U32Bytes;
    var a, b, c := SIGNATURE, U32Bytes(2), U32Bytes(|frames|);
    var d := Concat(FrameParts(env, frames));
    var tail := env.digest(PackBody(env, frames)) + rest;
    var data := PackBytes(env, frames) + rest;
    assert data == a + b + c + d + tail;
    assert At(data, 0, a + b + c + d) by { assert data[..|a + b + c + d|] == a + b + c + d; }
    AtSplit(data, 0, a + b + c, d);
    AtSplit(data, 0, a + b, c);
    AtSplit(data, 0, a, b);
    U32RoundTrip(data, 8, |frames|);
  }

  // ------------------------------------------------------- random access

  /** `locate` knows every entry at its frame, and nothing else. */
  ghost predicate Locates(env: Env, locate: Locator, frames: seq<Frame>, entries: seq<Queued>)
    requires |frames| == |entries|
  {
    && (forall i :: 0 <= i < |entries| ==> locate(entries[i].id) == Some(Start(env, frames[..i])))
    && (forall id :: locate(id).Some? ==> exists i :: 0 <= i < |entries| && entries[i].id == id)
  }

  /** Through an index over the written entries the random-access reader returns a queued
      object at its own offset if its chain ends within the cap, and an error otherwise. */
  lemma ChainDecides(env: Env, resolve: Resolver, locate: Locator, frames: seq<Frame>, entries: seq<Queued>,
                     externals: seq<Queued>, data: Bytes, k: nat, links: nat)
    requires env.Lawful() && Written(env, frames, entries, externals, data)
    requires Answers(resolve, externals) && NoClash(entries, externals)
    requires k < |frames| == |entries| && Locates(env, locate, frames, entries)
    ensures ChainValue(env, data, locate, resolve, Start(env, frames[..k]), links) ==
      if PackAgreement.ChainEnds(env, data, locate, Start(env, frames[..k]), links) then Ok(entries[k].obj) else Err
  {
    hide After, Answers, NoClash, Written, BaseOf, ChainValue, Start, PackAgreement.ChainEnds, PackAgreement.BasesAgree;
    WrittenRuns(env, resolve, frames, entries, externals, data, |frames|);
    var st := After(env, resolve, data, |frames|).value;
    LocatesEntries(env, locate, frames, entries, st);
    WrittenAgree(env, resolve, frames, entries, externals, data, st);
    PackAgreement.ReadersAgree(env, resolve, data, locate, |frames|, k, links);
  }

  /** With the external bases outside the pack every chain ends, so every queued object is
      returned at its own offset. */
  lemma RandomAccess(env: Env, resolve: Resolver, locate: Locator, frames: seq<Frame>, entries: seq<Queued>,
                     externals: seq<Queued>, rest: Bytes, k: nat)
    requires env.Lawful() && Queue(env, entries) && Queue(env, externals)
    requires |frames| == |entries| < TWO_32 && WellWritten(env, frames, entries, externals)
    requires Answers(resolve, externals) && k < |entries|
    requires forall e, b :: 0 <= e < |entries| && 0 <= b < |externals| ==> entries[e].id != externals[b].id
    requires |PackBytes(env, frames) + rest| < TWO_64 && Locates(env, locate, frames, entries)
    ensures ChainValue(env, PackBytes(env, frames) + rest, locate, resolve, Start(env, frames[..k]), MAX_CHAIN)
            == Ok(entries[k].obj)
  {
    hide Concat, FrameParts, Answers, NoClash, WellWritten, U32Bytes, U32At, BaseOf, ChainValue, Start,
      PackAgreement.ChainEnds;
    var data := PackBytes(env, frames) + rest;
    PackHeader(env, frames, rest);
    assert NoClash(entries, externals) by { DisjointNoClash(entries, externals); }
    assert Written(env, frames, entries, externals, data);
    ChainDecides(env, resolve, locate, frames, entries, externals, data, k, MAX_CHAIN);
    assert forall b :: 0 <= b < |externals| ==> locate(externals[b].id).None?;
    ShortChain(env, resolve, locate, frames, entries, externals, data, k, MAX_CHAIN);
  }

  lemma DisjointNoClash(entries: seq<Queued>, externals: seq<Queued>)
    requires forall e, b :: 0 <= e < |entries| && 0 <= b < |externals| ==> entries[e].id != externals[b].id
    ensures NoClash(entries, externals)
  {}

  lemma LocatesEntries(env: Env, locate: Locator, frames: seq<Frame>, entries: seq<Queued>, st: State)
    requires |frames| == |entries| && Tracks(env, frames, entries, st, |frames|)
    requires Locates(env, locate, frames, entries)
    ensures PackAgreement.Indexes(locate, st)
  {
    hide Start;
    forall id | locate(id).Some? ensures exists i :: 0 <= i < |st.results| && st.results[i].0 == id {
      var i :| 0 <= i < |entries| && entries[i].id == id;
      assert st.results[i].0 == id;
    }
  }

  lemma WrittenAgree(env: Env, resolve: Resolver, frames: seq<Frame>, entries: seq<Queued>, externals: seq<Queued>,
                     data: Bytes, st: State)
    requires env.Lawful() && Written(env, frames, entries, externals, data)
    requires Tracks(env, frames, entries, st, |frames|) && Answers(resolve, externals) && NoClash(entries, externals)
    ensures PackAgreement.BasesAgree(env, resolve, data, st)
  {
    hide ReadEntry, Start, Written, Answers, NoClash;
    forall i, k | 0 <= i < |st.results| && 0 <= k < |st.offsets|
      ensures
        var entry := ReadEntry(env, data, st.offsets[k]);
        var id := st.results[i].0;
        entry.Ok? && entry.value.kind == RefDelta(id) ==> resolve(id).Ok? ==> resolve(id).value == st.results[i].1
    {
      FrameReads(env, frames, entries, externals, data, k);
      RefResolves(env, resolve, frames, entries, externals, data, i, k);
    }
  }

  /** A base named by id that is also an entry resolves to that entry. */
  lemma RefResolves(env: Env, resolve: Resolver, frames: seq<Frame>, entries: seq<Queued>, externals: seq<Queued>,
                    data: Bytes, i: nat, k: nat)
    requires Written(env, frames, entries, externals, data) && i < |entries| && k < |frames|
    requires Answers(resolve, externals) && NoClash(entries, externals)
    ensures frames[k].kind == RefDelta(entries[i].id) ==> resolve(entries[i].id) == Ok(entries[i].obj)
  {
    hide Start, OnBase, OfsEncodes, Queue, Concat;
    assert Encodes(env, frames[..k], frames[k], entries, externals);
  }

  // ------------------------------------------- an entry that is its own external base

  /** One object queued both as an entry and as an external base may be stored as a delta on
      itself. The frame is well written, and the sequential reader returns the object, but
      through the index the entry is its own base and random access never returns it. */
  lemma OwnBaseFails(env: Env, resolve: Resolver, locate: Locator, obj: Obj, delta: Bytes, rest: Bytes, links: nat)
    requires env.Lawful() && |obj.bytes| < TWO_64 && |delta| < TWO_64 && OnBase(obj, delta) == Ok(obj)
    requires resolve(env.hash(obj)) == Ok(obj)
    requires
      var frames, queue := OwnBase(env, obj, delta), [Queued(env.hash(obj), obj)];
      |PackBytes(env, frames) + rest| < TWO_64 && Locates(env, locate, frames, queue)
    ensures
      var frames, queue := OwnBase(env, obj, delta), [Queued(env.hash(obj), obj)];
      var data := PackBytes(env, frames) + rest;
      && Queue(env, queue) && WellWritten(env, frames, queue, queue)
      && Explode(env, resolve, data) == Ok((Results(queue), |PackBytes(env, frames)|))
      && ChainValue(env, data, locate, resolve, 12, links).Err?
  {
    hide OnBase, PackBytes, Explode, Concat, FrameParts, BaseOf, ChainValue;
    var frames, queue := OwnBase(env, obj, delta), [Queued(env.hash(obj), obj)];
    var data := PackBytes(env, frames) + rest;
    OwnBaseWritten(env, obj, delta);
    PackRoundTrip(env, resolve, frames, queue, queue, rest);
    OwnBaseLinks(env, locate, obj, delta, rest);
    CycleHasNoValue(env, data, locate, resolve, [12, 12], links);
  }

  function OwnBase(env: Env, obj: Obj, delta: Bytes): (r: seq<Frame>) { [Frame(RefDelta(env.hash(obj)), delta)] }

  lemma OwnBaseWritten(env: Env, obj: Obj, delta: Bytes)
    requires |obj.bytes| < TWO_64 && |delta| < TWO_64 && OnBase(obj, delta) == Ok(obj)
    ensures
      var queue := [Queued(env.hash(obj), obj)];
      Queue(env, queue) && WellWritten(env, OwnBase(env, obj, delta), queue, queue) && NoClash(queue, queue)
  {
    hide OnBase, Start;
    var queue := [Queued(env.hash(obj), obj)];
    var frames := OwnBase(env, obj, delta);
    assert frames[..0] == [];
    assert Encodes(env, [], frames[0], queue, queue) by {
      assert queue[0].id == env.hash(obj) && OnBase(queue[0].obj, frames[0].stream) == Ok(queue[0].obj);
    }
  }

  lemma OwnBaseLinks(env: Env, locate: Locator, obj: Obj, delta: Bytes, rest: Bytes)
    requires env.Lawful() && |obj.bytes| < TWO_64 && |delta| < TWO_64 && OnBase(obj, delta) == Ok(obj)
    requires
      var frames, queue := OwnBase(env, obj, delta), [Queued(env.hash(obj), obj)];
      |PackBytes(env, frames) + rest| < TWO_64 && Locates(env, locate, frames, queue)
    ensures Linked(env, PackBytes(env, OwnBase(env, obj, delta)) + rest, locate, 12, 12)
  {
    hide OnBase, PackBytes, Concat, ReadEntry, FrameParts, WellWritten, Queue;
    var frames, queue := OwnBase(env, obj, delta), [Queued(env.hash(obj), obj)];
    var data := PackBytes(env, frames) + rest;
    OwnBaseWritten(env, obj, delta);
    PackHeader(env, frames, rest);
    assert Written(env, frames, queue, queue, data);
    FrameReads(env, frames, queue, queue, data, 0);
    NoFrames(env, frames);
    assert locate(queue[0].id) == Some(Start(env, frames[..0]));
  }

  lemma NoFrames(env: Env, frames: seq<Frame>)
    ensures Start(env, frames[..0]) == 12
  {
    assert FrameParts(env, frames[..0]) == [];
  }

  /** What `Finish` writes for such a queue when the object's delta on itself is shorter than
      its own stream: random access to it fails, through the index finished with it too. */
  lemma OwnBaseFinished(env: Env, resolve: Resolver, locate: Locator, obj: Obj, rest: Bytes, links: nat)
    requires env.Lawful() && Delta.BLOCK <= |obj.bytes| <= MAX_DELTA_SIZE && resolve(env.hash(obj)) == Ok(obj)
    requires
      var q := Queued(env.hash(obj), obj);
      |PackBytes(env, [SelfFrame(q)]) + rest| < TWO_64 && Locates(env, locate, [SelfFrame(q)], [q])
    ensures
      var q := Queued(env.hash(obj), obj);
      var data := PackBytes(env, [SelfFrame(q)]) + rest;
      && Explode(env, resolve, data) == Ok((Results([q]), |PackBytes(env, [SelfFrame(q)])|))
      && ChainValue(env, data, locate, resolve, 12, links).Err?
  {
    hide Delta.Apply, Delta.SelfDelta, PackBytes, Explode, ChainValue, Locates;
    Delta.SelfApplies(obj.bytes);
    OwnBaseFails(env, resolve, locate, obj, Delta.SelfDelta(|obj.bytes|), rest, links);
  }

  /** It is shorter for every object of 64 bytes under the plain stored streams. */
  lemma SelfWinsSometimes(env: Env, q: Queued)
    requires env.zlib == Zlib(Stored, Unstored) && |q.obj.bytes| == 64 && |q.id| <= 32
    ensures SelfWins(env, q, env.zlib.deflate(q.obj.bytes))
  {
    hide Stored, Delta.CopyInstr;
    var delta := Delta.SelfDelta(64);
    assert Delta.VarintBytes(64) == [64];
    StoredLength(delta);
    StoredLength(q.obj.bytes);
  }

  /** Written deltas are based on full entries only, so chains have at most one link. */
  lemma ShortChain(env: Env, resolve: Resolver, locate: Locator, frames: seq<Frame>, entries: seq<Queued>,
                   externals: seq<Queued>, data: Bytes, k: nat, links: nat)
    requires env.Lawful() && Written(env, frames, entries, externals, data) && k < |frames| && links > 0
    requires forall b :: 0 <= b < |externals| ==> locate(externals[b].id).None?
    ensures PackAgreement.ChainEnds(env, data, locate, Start(env, frames[..k]), links)
  {
    hide Start, BaseOf, Written;
    FrameBase(env, locate, frames, entries, externals, data, k);
    if frames[k].kind.OfsDelta? {
      var i := OfsFull(env, frames, entries, externals, data, k);
      FrameBase(env, locate, frames, entries, externals, data, i);
    }
  }

  lemma OfsFull(env: Env, frames: seq<Frame>, entries: seq<Queued>, externals: seq<Queued>, data: Bytes, k: nat)
    returns (i: nat)
    requires Written(env, frames, entries, externals, data) && k < |frames| && frames[k].kind.OfsDelta?
    ensures i < k && frames[i].kind.Full? && 0 < frames[k].kind.rel
    ensures Start(env, frames[..k]) - frames[k].kind.rel == Start(env, frames[..i])
  {
    hide Start, OnBase, OfsEncodes, Queue, Concat;
    assert Encodes(env, frames[..k], frames[k], entries, externals);
    i :| 0 <= i < k && OfsEncodes(env, frames[..k], i, frames[k].kind.rel, frames[k].stream, entries);
    OfsBase(env, frames, entries, i, k);
  }

  lemma OfsBase(env: Env, frames: seq<Frame>, entries: seq<Queued>, i: nat, k: nat)
    requires i < k < |frames| <= |entries| && frames[k].kind.OfsDelta?
    requires OfsEncodes(env, frames[..k], i, frames[k].kind.rel, frames[k].stream, entries)
    ensures frames[i].kind.Full? && 0 < frames[k].kind.rel
    ensures Start(env, frames[..k]) - frames[k].kind.rel == Start(env, frames[..i])
  {
    hide Start;
    assert frames[..k][..i] == frames[..i];
  }

  /** How the random-access reader sees frame `k`. */
  lemma FrameBase(env: Env, locate: Locator, frames: seq<Frame>, entries: seq<Queued>,
                  externals: seq<Queued>, data: Bytes, k: nat)
    requires env.Lawful() && Written(env, frames, entries, externals, data) && k < |frames|
    requires forall b :: 0 <= b < |externals| ==> locate(externals[b].id).None?
    ensures
      var off := Start(env, frames[..k]);
      var base := BaseOf(env, data, locate, off);
      match frames[k].kind
      case Full(_) => base.Root?
      case OfsDelta(rel) =>
        if 0 < rel <= off then base == InPack(off - rel, frames[k].stream) else base.Broken?
      case RefDelta(_) => base.External?
  {
    hide ReadEntry, Start, Written;
    FrameReads(env, frames, entries, externals, data, k);
    RefIsExternal(env, locate, frames, entries, externals, data, k);
  }

  lemma RefIsExternal(env: Env, locate: Locator, frames: seq<Frame>, entries: seq<Queued>,
                      externals: seq<Queued>, data: Bytes, k: nat)
    requires Written(env, frames, entries, externals, data) && k < |frames|
    requires forall b :: 0 <= b < |externals| ==> locate(externals[b].id).None?
    ensures frames[k].kind.RefDelta? ==> locate(frames[k].kind.id).None?
  {
    hide Start, OnBase, OfsEncodes, Queue, Concat;
    assert Encodes(env, frames[..k], frames[k], entries, externals);
  }

  // ------------------------------------------------------------------ writing

  /** A candidate entry under construction: compressed delta, base reference, delta length, tag. */
  datatype Candidate = Candidate(zdelta: Bytes, prefix: Bytes, size: nat, tag: nat)

  predicate IsFrame(env: Env, c: Candidate, f: Frame)
  {
    && c.zdelta == env.zlib.deflate(f.stream) && c.size == |f.stream|
    && match f.kind
       case Full(_) => false
       case OfsDelta(rel) => c.tag == OFS_DELTA_TAG && c.prefix == OfsBytes(rel)
       case RefDelta(id) => c.tag == REF_DELTA_TAG && c.prefix == id
  }

  /** Strictly smaller on disk than the raw stream and than the best so far. */
  predicate Better(zdelta: Bytes, prefix: Bytes, raw: Bytes, best: Option<Candidate>)
  {
    && |zdelta| + |prefix| < |raw|
    && (best.Some? ==> |zdelta| + |prefix| < |best.value.zdelta| + |best.value.prefix|)
  }

  /** A full entry already written, usable as a base. */
  datatype BaseCand = BaseCand(ty: ObjType, offset: nat, idx: nat)

  ghost predicate BasesOk(env: Env, bases: seq<BaseCand>, frames: seq<Frame>, entries: seq<Queued>)
  {
    forall c :: c in bases ==>
      && c.idx < |frames| <= |entries| && frames[c.idx].kind.Full?
      && c.ty == entries[c.idx].obj.ty && c.offset == Start(env, frames[..c.idx])
  }

  /** Copying an object from itself beats storing it: its delta and id are shorter than `raw`. */
  predicate SelfWins(env: Env, q: Queued, raw: Bytes)
  {
    var n := |q.obj.bytes|;
    Delta.BLOCK <= n <= MAX_DELTA_SIZE && |env.zlib.deflate(Delta.SelfDelta(n))| + |q.id| < |raw|
  }

  /** One object is queued, as an entry and as an external base, and copying it wins. */
  predicate OwnBaseOnly(env: Env, entries: seq<Queued>, externals: seq<Queued>)
  {
    |entries| == 1 && entries == externals && SelfWins(env, entries[0], env.zlib.deflate(entries[0].obj.bytes))
  }

  function SelfFrame(q: Queued): (r: Frame)
    requires 0 < |q.obj.bytes| <= Delta.MAX_COPY
  { Frame(RefDelta(q.id), Delta.SelfDelta(|q.obj.bytes|)) }

  // ------------------------------------------------------- the smallest encoding

  /** What a frame takes behind its header. */
  function Room(env: Env, f: Frame): (r: nat)
  {
    |env.zlib.deflate(f.stream)|
    + match f.kind case Full(_) => 0 case OfsDelta(rel) => |OfsBytes(rel)| case RefDelta(id) => |id|
  }

  /** The last `n` entries of this type written in full, the latest first. */
  function LatestFull(frames: seq<Frame>, entries: seq<Queued>, ty: ObjType, n: nat): (r: seq<nat>)
    requires |frames| <= |entries|
    ensures forall i :: i in r ==> i < |frames|
    decreases |frames|
  {
    if n == 0 || frames == [] then []
    else
      var k := |frames| - 1;
      if frames[k].kind.Full? && entries[k].obj.ty == ty then [k] + LatestFull(frames[..k], entries, ty, n - 1)
      else LatestFull(frames[..k], entries, ty, n)
  }

  /** The first `n` objects of this type and of at most 2^20 bytes. */
  function FirstOffered(externals: seq<Queued>, ty: ObjType, n: nat): (r: seq<Queued>)
    decreases |externals|
  {
    if n == 0 || externals == [] then []
    else if externals[0].obj.ty == ty && |externals[0].obj.bytes| <= 0x10_0000 then
      [externals[0]] + FirstOffered(externals[1..], ty, n - 1)
    else FirstOffered(externals[1..], ty, n)
  }

  /** The next object as a delta on entry `i`. */
  function OnEntry(env: Env, hash: Bytes -> int, frames: seq<Frame>, entries: seq<Queued>, i: nat): (r: Frame)
    requires i <= |frames| < |entries|
  {
    var rel := Start(env, frames) - Start(env, frames[..i]);
    Frame(OfsDelta(Max(rel, 0)), Delta.Made(hash, entries[i].obj.bytes, entries[|frames|].obj.bytes))
  }

  /** The next object as a delta on an object the receiver has. */
  function OnExternal(hash: Bytes -> int, base: Queued, obj: Obj): (r: Frame)
  { Frame(RefDelta(base.id), Delta.Made(hash, base.obj.bytes, obj.bytes)) }

  /** `f` is tried for the next object: a delta on one of the ten latest full entries of its type or on
      one of the first sixteen objects of its type that the receiver has, none larger than 2^20. */
  ghost predicate Tried(env: Env, hash: Bytes -> int, frames: seq<Frame>, entries: seq<Queued>,
                        externals: seq<Queued>, f: Frame)
    requires |frames| < |entries|
  {
    var obj := entries[|frames|].obj;
    && |obj.bytes| <= 0x10_0000
    && (|| (exists i :: i in LatestFull(frames, entries, obj.ty, 10) && |entries[i].obj.bytes| <= 0x10_0000
                        && f == OnEntry(env, hash, frames, entries, i))
        || (exists b :: b in FirstOffered(externals, obj.ty, 16) && f == OnExternal(hash, b, obj)))
  }

  /** `f` is the object in full or one of the deltas tried, and takes the least room of all of these;
      a delta takes less than the object in full. */
  ghost predicate Smallest(env: Env, hash: Bytes -> int, frames: seq<Frame>, entries: seq<Queued>,
                           externals: seq<Queued>, f: Frame)
    requires |frames| < |entries|
  {
    var obj := entries[|frames|].obj;
    var full := Frame(Full(obj.ty), obj.bytes);
    && (forall c :: Tried(env, hash, frames, entries, externals, c) ==> Room(env, f) <= Room(env, c))
    && (f == full || (Tried(env, hash, frames, entries, externals, f) && Room(env, f) < Room(env, full)))
  }

  ghost predicate AllSmallest(env: Env, hash: Bytes -> int, frames: seq<Frame>, entries: seq<Queued>,
                              externals: seq<Queued>)
    requires |frames| <= |entries|
  {
    forall k :: 0 <= k < |frames| ==> Smallest(env, hash, frames[..k], entries, externals, frames[k])
  }

  lemma AllSmallestSnoc(env: Env, hash: Bytes -> int, frames: seq<Frame>, entries: seq<Queued>,
                        externals: seq<Queued>, f: Frame)
    requires |frames| < |entries| && AllSmallest(env, hash, frames, entries, externals)
    requires Smallest(env, hash, frames, entries, externals, f)
    ensures AllSmallest(env, hash, frames + [f], entries, externals)
  {
    hide Smallest;
    var all := frames + [f];
    forall k | 0 <= k < |all| ensures Smallest(env, hash, all[..k], entries, externals, all[k]) {
      assert all[..k] == if k < |frames| then frames[..k] else frames;
    }
  }

  /** The candidates for the entries written so far. */
  function BasesOf(env: Env, frames: seq<Frame>, entries: seq<Queued>): (r: seq<BaseCand>)
    requires |frames| <= |entries|
    decreases |frames|
  {
    if frames == [] then []
    else
      var k := |frames| - 1;
      BasesOf(env, frames[..k], entries)
      + if frames[k].kind.Full? then [BaseCand(entries[k].obj.ty, Start(env, frames[..k]), k)] else []
  }

  lemma BasesSnoc(env: Env, frames: seq<Frame>, entries: seq<Queued>, f: Frame)
    requires |frames| < |entries|
    ensures BasesOf(env, frames + [f], entries) ==
      BasesOf(env, frames, entries)
      + if f.kind.Full? then [BaseCand(entries[|frames|].obj.ty, Start(env, frames), |frames|)] else []
  {
    hide Start;
    assert (frames + [f])[..|frames|] == frames;
  }

  /** The last `n` candidates of a type. */
  function Latest(bases: seq<BaseCand>, ty: ObjType, n: nat): (r: seq<nat>)
    decreases |bases|
  {
    if n == 0 || bases == [] then []
    else
      var init, last := bases[..|bases| - 1], bases[|bases| - 1];
      if last.ty == ty then [last.idx] + Latest(init, ty, n - 1) else Latest(init, ty, n)
  }

  lemma {:induction false} LatestAgree(env: Env, frames: seq<Frame>, entries: seq<Queued>, ty: ObjType, n: nat)
    requires |frames| <= |entries|
    ensures Latest(BasesOf(env, frames, entries), ty, n) == LatestFull(frames, entries, ty, n)
    decreases |frames|
  {
    hide Start;
    if n > 0 && frames != [] {
      var k := |frames| - 1;
      var init := BasesOf(env, frames[..k], entries);
      LatestAgree(env, frames[..k], entries, ty, n);
      LatestAgree(env, frames[..k], entries, ty, n - 1);
      if frames[k].kind.Full? {
        var c := BaseCand(entries[k].obj.ty, Start(env, frames[..k]), k);
        assert (init + [c])[..|init|] == init;
      } else {
        assert init + [] == init;
      }
    }
  }

  lemma LatestStep(bases: seq<BaseCand>, i: nat, ty: ObjType, n: nat, tried: seq<nat>)
    requires 0 < i <= |bases| && n > 0
    ensures
      var c, before := bases[i - 1], bases[..i - 1];
      tried + Latest(bases[..i], ty, n) ==
      if c.ty == ty then (tried + [c.idx]) + Latest(before, ty, n - 1) else tried + Latest(before, ty, n)
  {
    assert bases[..i][..i - 1] == bases[..i - 1];
    var c, before := bases[i - 1], bases[..i - 1];
    assert tried + ([c.idx] + Latest(before, ty, n - 1)) == (tried + [c.idx]) + Latest(before, ty, n - 1);
  }

  lemma OfferedStep(externals: seq<Queued>, i: nat, ty: ObjType, n: nat, tried: seq<Queued>)
    requires i < |externals| && n > 0
    ensures
      var b, after := externals[i], externals[i + 1..];
      tried + FirstOffered(externals[i..], ty, n) ==
      if b.obj.ty == ty && |b.obj.bytes| <= 0x10_0000 then (tried + [b]) + FirstOffered(after, ty, n - 1)
      else tried + FirstOffered(after, ty, n)
  {
    assert externals[i..][1..] == externals[i + 1..];
    var b, after := externals[i], externals[i + 1..];
    assert tried + ([b] + FirstOffered(after, ty, n - 1)) == (tried + [b]) + FirstOffered(after, ty, n - 1);
  }

  lemma NoneLeft(bases: seq<BaseCand>, externals: seq<Queued>, ty: ObjType, n: nat)
    ensures n == 0 || bases == [] ==> Latest(bases, ty, n) == []
    ensures n == 0 || externals == [] ==> FirstOffered(externals, ty, n) == []
  {}

  /** What must be beaten so far. */
  function Bound(best: Option<Candidate>, raw: Bytes): (r: nat)
  { if best.Some? then |best.value.zdelta| + |best.value.prefix| else |raw| }

  /** The best of the deltas on these entries, or `best0` if none is better. */
  ghost predicate BestOnEntries(env: Env, hash: Bytes -> int, frames: seq<Frame>, entries: seq<Queued>,
                                tried: seq<nat>, best: Option<Candidate>, chosen: Frame, raw: Bytes)
    requires |frames| < |entries|
  {
    && (forall i :: i in tried && i < |frames| && |entries[i].obj.bytes| <= 0x10_0000 ==>
          Bound(best, raw) <= Room(env, OnEntry(env, hash, frames, entries, i)))
    && (best.Some? ==> exists i :: i in tried && i < |frames| && |entries[i].obj.bytes| <= 0x10_0000
                                   && chosen == OnEntry(env, hash, frames, entries, i))
  }

  lemma BestMoves(env: Env, hash: Bytes -> int, frames: seq<Frame>, entries: seq<Queued>, tried: seq<nat>, i: nat,
                  best0: Option<Candidate>, chosen0: Frame, best: Option<Candidate>, chosen: Frame, raw: Bytes)
    requires |frames| < |entries| && BestOnEntries(env, hash, frames, entries, tried, best0, chosen0, raw)
    requires i < |frames| && Bound(best, raw) <= Bound(best0, raw)
    requires |entries[i].obj.bytes| <= 0x10_0000 ==>
      Bound(best, raw) <= Room(env, OnEntry(env, hash, frames, entries, i))
    requires (best == best0 && chosen == chosen0) ||
      (best.Some? && |entries[i].obj.bytes| <= 0x10_0000 && chosen == OnEntry(env, hash, frames, entries, i))
    ensures BestOnEntries(env, hash, frames, entries, tried + [i], best, chosen, raw)
  {
    hide OnEntry, Room, Bound;
    assert i in tried + [i] && forall x :: x in tried ==> x in tried + [i];
  }

  /** The best of the deltas on these objects, or `best0` if none is better. */
  ghost predicate BestOnOffered(env: Env, hash: Bytes -> int, obj: Obj, tried: seq<Queued>, best0: Option<Candidate>,
                                chosen0: Frame, best: Option<Candidate>, chosen: Frame, raw: Bytes)
  {
    && Bound(best, raw) <= Bound(best0, raw)
    && (forall b :: b in tried ==> Bound(best, raw) <= Room(env, OnExternal(hash, b, obj)))
    && ((best == best0 && chosen == chosen0) ||
        (best.Some? && exists b :: b in tried && chosen == OnExternal(hash, b, obj)))
  }

  lemma OfferedMoves(env: Env, hash: Bytes -> int, obj: Obj, tried: seq<Queued>, best0: Option<Candidate>,
                     chosen0: Frame, best1: Option<Candidate>, chosen1: Frame, raw: Bytes, b: Queued,
                     best: Option<Candidate>, chosen: Frame)
    requires BestOnOffered(env, hash, obj, tried, best0, chosen0, best1, chosen1, raw)
    requires Bound(best, raw) <= Bound(best1, raw) && Bound(best, raw) <= Room(env, OnExternal(hash, b, obj))
    requires (best == best1 && chosen == chosen1) || (best.Some? && chosen == OnExternal(hash, b, obj))
    ensures BestOnOffered(env, hash, obj, tried + [b], best0, chosen0, best, chosen, raw)
  {
    hide OnExternal, Room, Bound;
    assert b in tried + [b] && forall x :: x in tried ==> x in tried + [b];
  }

  /** What stands at the end is the smallest encoding. */
  lemma PicksSmallest(env: Env, hash: Bytes -> int, frames: seq<Frame>, entries: seq<Queued>, externals: seq<Queued>,
                      best0: Option<Candidate>, chosen0: Frame, best: Option<Candidate>, chosen: Frame, raw: Bytes)
    requires |frames| < |entries| && |entries[|frames|].obj.bytes| <= 0x10_0000
    requires raw == env.zlib.deflate(entries[|frames|].obj.bytes)
    requires
      var ty := entries[|frames|].obj.ty;
      BestOnEntries(env, hash, frames, entries, LatestFull(frames, entries, ty, 10), best0, chosen0, raw)
    requires
      var obj := entries[|frames|].obj;
      BestOnOffered(env, hash, obj, FirstOffered(externals, obj.ty, 16), best0, chosen0, best, chosen, raw)
    requires best.Some? ==> IsFrame(env, best.value, chosen) && Bound(best, raw) < |raw|
    ensures
      var obj := entries[|frames|].obj;
      Smallest(env, hash, frames, entries, externals, if best.Some? then chosen else Frame(Full(obj.ty), obj.bytes))
  {
    hide OnEntry, OnExternal, LatestFull, FirstOffered;
  }

  /** Such an object is stored as its copy. */
  ghost predicate OwnBaseStored(env: Env, entries: seq<Queued>, externals: seq<Queued>, frames: seq<Frame>)
  { OwnBaseOnly(env, entries, externals) ==> frames == [SelfFrame(entries[0])] }

  class Writer {
    const env: Env
    const blockHash: Bytes -> int
    var entries: seq<Queued>
    var externals: seq<Queued>

    ghost predicate Valid()
      reads this
    {
      Queue(env, entries) && Queue(env, externals)
    }

    constructor (env: Env, blockHash: Bytes -> int)
      ensures Valid() && entries == [] && externals == []
      ensures this.env == env && this.blockHash == blockHash
    {
      this.env, this.blockHash := env, blockHash;
      entries, externals := [], [];
    }

    method Add(obj: Obj) returns (id: Id)
      requires Valid() && |obj.bytes| < TWO_64
      modifies this
      ensures Valid() && id == env.hash(obj) && externals == old(externals)
      ensures entries == Enqueue(env, old(entries), obj)
    {
      id := env.hash(obj);
      if !exists i :: 0 <= i < |entries| && entries[i].id == id {
        entries := entries + [Queued(id, obj)];
      }
    }

    method AddExternalBase(obj: Obj) returns (id: Id)
      requires Valid() && |obj.bytes| < TWO_64
      modifies this
      ensures Valid() && id == env.hash(obj) && entries == old(entries)
      ensures externals == Enqueue(env, old(externals), obj)
    {
      id := env.hash(obj);
      if !exists i :: 0 <= i < |externals| && externals[i].id == id {
        externals := externals + [Queued(id, obj)];
      }
    }

    /** Tries the latest full entries of the same type. */
    method TryInPack(k: nat, bases: seq<BaseCand>, offset: nat, raw: Bytes, ghost frames: seq<Frame>)
      returns (best: Option<Candidate>, ghost chosen: Frame)
      requires Valid() && k == |frames| < |entries| && |entries[k].obj.bytes| <= MAX_DELTA_SIZE
      requires BasesOk(env, bases, frames, entries) && offset == Start(env, frames)
      ensures best.Some? ==> IsFrame(env, best.value, chosen) && Encodes(env, frames, chosen, entries, externals)
      ensures best.Some? ==> |best.value.zdelta| + |best.value.prefix| < |raw|
      ensures bases == [] ==> best.None?
      ensures BestOnEntries(env, blockHash, frames, entries, Latest(bases, entries[k].obj.ty, 10), best, chosen, raw)
    {
      hide Encodes, Start, IsFrame, Valid, Latest, BestOnEntries, OnEntry, Room;
      best, chosen := None, Frame(Full(Blob), []);
      var obj := entries[k].obj;
      var i: nat, taken: nat := |bases|, 0;
      ghost var tried: seq<nat> := [];
      NothingTried(env, blockHash, frames, entries, chosen, raw);
      assert bases[..i] == bases;
      while i > 0 && taken < DELTA_WINDOW
        invariant 0 <= i <= |bases| && taken <= 10 && (bases == [] ==> best.None?)
        invariant tried + Latest(bases[..i], obj.ty, 10 - taken) == Latest(bases, obj.ty, 10)
        invariant BestOnEntries(env, blockHash, frames, entries, tried, best, chosen, raw)
        invariant best.Some? ==> IsFrame(env, best.value, chosen) && Encodes(env, frames, chosen, entries, externals)
        invariant best.Some? ==> |best.value.zdelta| + |best.value.prefix| < |raw|
        decreases i
      {
        LatestStep(bases, i, obj.ty, 10 - taken, tried);
        i := i - 1;
        var cand := bases[i];
        assert cand in bases;
        if cand.ty == obj.ty {
          taken := taken + 1;
          ghost var best0, chosen0 := best, chosen;
          if |entries[cand.idx].obj.bytes| <= MAX_DELTA_SIZE {
            best, chosen := TryBase(k, cand, offset, raw, best, chosen, frames);
          }
          BestMoves(env, blockHash, frames, entries, tried, cand.idx, best0, chosen0, best, chosen, raw);
          tried := tried + [cand.idx];
        }
      }
      NoneLeft(bases[..i], [], obj.ty, 10 - taken);
      assert tried + [] == tried;
    }

    /** Tries one full entry of the same type. */
    method TryBase(k: nat, cand: BaseCand, offset: nat, raw: Bytes, best0: Option<Candidate>, ghost chosen0: Frame,
                   ghost frames: seq<Frame>) returns (best: Option<Candidate>, ghost chosen: Frame)
      requires Valid() && k == |frames| < |entries| && |entries[k].obj.bytes| <= MAX_DELTA_SIZE
      requires BasesOk(env, [cand], frames, entries) && offset == Start(env, frames)
      requires cand.ty == entries[k].obj.ty && |entries[cand.idx].obj.bytes| <= MAX_DELTA_SIZE
      requires best0.Some? ==> IsFrame(env, best0.value, chosen0) && Encodes(env, frames, chosen0, entries, externals)
      requires best0.Some? ==> |best0.value.zdelta| + |best0.value.prefix| < |raw|
      ensures best.Some? ==> IsFrame(env, best.value, chosen) && Encodes(env, frames, chosen, entries, externals)
      ensures best.Some? ==> |best.value.zdelta| + |best.value.prefix| < |raw|
      ensures Bound(best, raw) <= Bound(best0, raw)
      ensures Bound(best, raw) <= Room(env, OnEntry(env, blockHash, frames, entries, cand.idx))
      ensures (best == best0 && chosen == chosen0) ||
        (best.Some? && chosen == OnEntry(env, blockHash, frames, entries, cand.idx))
    {
      hide Encodes, OfsBytes, Start, Valid, Delta.Apply, Delta.Made, Delta.SelfDelta, Room, OnEntry, IsFrame;
      OneBase(env, cand, frames, entries);
      best, chosen := best0, chosen0;
      var delta := MakeDelta(entries[cand.idx].obj.bytes, entries[k].obj.bytes);
      var zdelta := env.zlib.deflate(delta);
      StartGrows(env, frames, cand.idx);
      var ofs := EncodeOfs(offset - cand.offset);
      RoomOnEntry(env, blockHash, frames, entries, cand.idx, offset - cand.offset, delta);
      if Better(zdelta, ofs, raw, best) {
        best := Some(Candidate(zdelta, ofs, |delta|, OFS_DELTA_TAG));
        chosen := Frame(OfsDelta(offset - cand.offset), delta);
        OfsIsFrame(env, offset - cand.offset, delta);
        OfsChoice(env, frames, cand.idx, delta, entries, externals);
      }
    }

    /** A delta between two objects small enough to be tried. */
    method MakeDelta(base: Bytes, target: Bytes) returns (delta: Bytes)
      requires |base| <= MAX_DELTA_SIZE && |target| <= MAX_DELTA_SIZE
      ensures Delta.Apply(base, delta) == Ok(target) && |delta| < TWO_64
      ensures base == target && Delta.BLOCK <= |base| ==> delta == Delta.SelfDelta(|base|)
      ensures delta == Delta.Made(blockHash, base, target)
    {
      hide Delta.Apply, Delta.AllRight, Delta.Greedy, Delta.SelfDelta, Delta.Made;
      delta := Delta.CreateDelta(blockHash, base, target);
    }

    /** Tries one object the receiver is known to have. */
    method TryOffered(k: nat, i: nat, raw: Bytes, best0: Option<Candidate>, ghost chosen0: Frame,
                      ghost frames: seq<Frame>) returns (best: Option<Candidate>, ghost chosen: Frame)
      requires Valid() && k == |frames| < |entries| && |entries[k].obj.bytes| <= MAX_DELTA_SIZE && i < |externals|
      requires externals[i].obj.ty == entries[k].obj.ty && |externals[i].obj.bytes| <= MAX_DELTA_SIZE
      requires best0.Some? ==> IsFrame(env, best0.value, chosen0) && Encodes(env, frames, chosen0, entries, externals)
      requires best0.Some? ==> |best0.value.zdelta| + |best0.value.prefix| < |raw|
      ensures best.Some? ==> IsFrame(env, best.value, chosen) && Encodes(env, frames, chosen, entries, externals)
      ensures best.Some? ==> |best.value.zdelta| + |best.value.prefix| < |raw|
      ensures Bound(best, raw) <= Bound(best0, raw)
      ensures Bound(best, raw) <= Room(env, OnExternal(blockHash, externals[i], entries[k].obj))
      ensures (best == best0 && chosen == chosen0) ||
        (best.Some? && chosen == OnExternal(blockHash, externals[i], entries[k].obj))
      ensures best0.None? && externals[i] == entries[k] && SelfWins(env, entries[k], raw) ==>
        best.Some? && chosen == SelfFrame(entries[k])
    {
      hide Encodes, Queue, Delta.Apply, Delta.SelfDelta, Delta.Made, IsFrame, Room, OnExternal;
      best, chosen := best0, chosen0;
      var base := externals[i];
      var delta := MakeDelta(base.obj.bytes, entries[k].obj.bytes);
      var zdelta := env.zlib.deflate(delta);
      RefIsFrame(env, blockHash, base, entries[k].obj, delta);
      if Better(zdelta, base.id, raw, best) {
        best := Some(Candidate(zdelta, base.id, |delta|, REF_DELTA_TAG));
        chosen := Frame(RefDelta(base.id), delta);
        RefChoice(env, frames, i, delta, entries, externals);
      }
    }

    /** Tries the objects the receiver is known to have. */
    method TryExternal(k: nat, raw: Bytes, best0: Option<Candidate>, ghost chosen0: Frame, ghost frames: seq<Frame>)
      returns (best: Option<Candidate>, ghost chosen: Frame)
      requires Valid() && k == |frames| < |entries| && |entries[k].obj.bytes| <= MAX_DELTA_SIZE
      requires best0.Some? ==> IsFrame(env, best0.value, chosen0) && Encodes(env, frames, chosen0, entries, externals)
      requires best0.Some? ==> |best0.value.zdelta| + |best0.value.prefix| < |raw|
      ensures best.Some? ==> IsFrame(env, best.value, chosen) && Encodes(env, frames, chosen, entries, externals)
      ensures best.Some? ==> |best.value.zdelta| + |best.value.prefix| < |raw|
      ensures best0.None? && externals == [entries[k]] && SelfWins(env, entries[k], raw) ==>
        best.Some? && chosen == SelfFrame(entries[k])
      ensures
        var obj := entries[k].obj;
        BestOnOffered(env, blockHash, obj, FirstOffered(externals, obj.ty, 16), best0, chosen0, best, chosen, raw)
    {
      hide Encodes, Queue, FirstOffered, BestOnOffered, IsFrame, SelfFrame, OnExternal, Room, Valid, Delta.SelfDelta;
      best, chosen := best0, chosen0;
      var obj := entries[k].obj;
      var i: nat, taken: nat := 0, 0;
      ghost var tried: seq<Queued> := [];
      NothingOffered(env, blockHash, obj, best0, chosen0, raw);
      assert externals[0..] == externals;
      while i < |externals| && taken < EXTERNAL_WINDOW
        invariant 0 <= i <= |externals| && taken <= i && taken <= 16
        invariant tried + FirstOffered(externals[i..], obj.ty, 16 - taken) == FirstOffered(externals, obj.ty, 16)
        invariant BestOnOffered(env, blockHash, obj, tried, best0, chosen0, best, chosen, raw)
        invariant best0.None? && externals == [entries[k]] && SelfWins(env, entries[k], raw) ==>
          if i == 0 then best.None? else best.Some? && chosen == SelfFrame(entries[k])
        invariant best.Some? ==> IsFrame(env, best.value, chosen) && Encodes(env, frames, chosen, entries, externals)
        invariant best.Some? ==> |best.value.zdelta| + |best.value.prefix| < |raw|
      {
        OfferedStep(externals, i, obj.ty, 16 - taken, tried);
        var base := externals[i].obj;
        if base.ty == obj.ty && |base.bytes| <= MAX_DELTA_SIZE {
          taken := taken + 1;
          ghost var best1, chosen1 := best, chosen;
          best, chosen := TryOffered(k, i, raw, best, chosen, frames);
          OfferedMoves(env, blockHash, obj, tried, best0, chosen0, best1, chosen1, raw, externals[i], best, chosen);
          tried := tried + [externals[i]];
        }
        i := i + 1;
      }
      NoneLeft([], externals[i..], obj.ty, 16 - taken);
      assert tried + [] == tried;
    }

    /** Finds the smallest encoding of entry `k`. */
    method Choose(k: nat, bases: seq<BaseCand>, offset: nat, raw: Bytes, ghost frames: seq<Frame>)
      returns (best: Option<Candidate>, ghost f: Frame)
      requires Valid() && k == |frames| < |entries| && raw == env.zlib.deflate(entries[k].obj.bytes)
      requires BasesOk(env, bases, frames, entries) && bases == BasesOf(env, frames, entries)
      requires offset == Start(env, frames)
      ensures best.Some? ==> IsFrame(env, best.value, f) && Encodes(env, frames, f, entries, externals)
      ensures best.None? ==> f == Frame(Full(entries[k].obj.ty), entries[k].obj.bytes)
      ensures Smallest(env, blockHash, frames, entries, externals, f)
      ensures bases == [] && externals == [entries[k]] && SelfWins(env, entries[k], raw) ==>
        best.Some? && f == SelfFrame(entries[k])
    {
      hide Encodes, Queue, BasesOk, Start, Smallest, BestOnEntries, BestOnOffered, BasesOf, LatestFull, Latest,
        FirstOffered, IsFrame, SelfFrame;
      var obj := entries[k].obj;
      best, f := None, Frame(Full(obj.ty), obj.bytes);
      if |obj.bytes| <= MAX_DELTA_SIZE {
        best, f := TryInPack(k, bases, offset, raw, frames);
        LatestAgree(env, frames, entries, obj.ty, 10);
        ghost var best0, f0 := best, f;
        best, f := TryExternal(k, raw, best, f, frames);
        PicksSmallest(env, blockHash, frames, entries, externals, best0, f0, best, f, raw);
        if best.None? { f := Frame(Full(obj.ty), obj.bytes); }
      } else {
        LargeIsFull(env, blockHash, frames, entries, externals);
      }
    }

    /** Appends entry `k` in the smallest encoding found. */
    method WriteEntry(k: nat, pack0: Bytes, bases: seq<BaseCand>, ghost frames: seq<Frame>)
      returns (pack: Bytes, full: bool, ghost f: Frame)
      requires Valid() && k == |frames| < |entries| && |pack0| == Start(env, frames)
      requires BasesOk(env, bases, frames, entries) && bases == BasesOf(env, frames, entries)
      ensures Encodes(env, frames, f, entries, externals) && full == f.kind.Full?
      ensures Smallest(env, blockHash, frames, entries, externals, f)
      ensures pack == pack0 + FrameBytes(env, f.kind, f.stream)
      ensures bases == [] ==> OwnBaseStored(env, [entries[k]], externals, [f])
    {
      hide Encodes, Queue, BasesOk, Start, FrameBytes, HeaderBytes, Smallest, BasesOf, SelfWins;
      var obj := entries[k].obj;
      var raw := env.zlib.deflate(obj.bytes);
      var best;
      best, f := Choose(k, bases, |pack0|, raw, frames);
      if best.Some? {
        var c := best.value;
        pack := WriteEntryHeader(pack0, c.tag, c.size);
        pack := pack + c.prefix;
        pack := pack + c.zdelta;
        DeltaFrame(env, c, f);
        assert pack == pack0 + (HeaderBytes(c.tag, c.size) + c.prefix + c.zdelta);
      } else {
        pack := WriteEntryHeader(pack0, TypeTag(obj.ty), |obj.bytes|);
        pack := pack + raw;
        FullFrame(env, frames, entries, externals);
      }
      full := best.None?;
    }

    /** Serializes the queue: the pack, its index, and the frames it is made of. */
    method Finish() returns (pack: Bytes, idx: Bytes, hash: Bytes, ghost frames: seq<Frame>)
      requires Valid() && env.Lawful()
      ensures |frames| == |entries| && WellWritten(env, frames, entries, externals)
      ensures pack == PackBytes(env, frames) && hash == env.digest(PackBody(env, frames))
      ensures |pack| >= 12 && pack[..8] == [0x50, 0x41, 0x43, 0x4B, 0, 0, 0, 2]
      ensures |entries| < 0x1_0000_0000 ==> Opened(pack) == Ok(|entries|)
      ensures
        var rows := PackIndex.SortedRows(Rows(env, frames, entries));
        && (forall i :: 0 <= i < |rows| ==> rows[i].id != [])
        && idx == PackIndex.Layout(rows, hash) + env.digest(PackIndex.Layout(rows, hash))
      ensures ReadsBack(env, entries, externals, pack)
      ensures AllSmallest(env, blockHash, frames, entries, externals)
      ensures OwnBaseStored(env, entries, externals, frames)
    {
      hide Encodes, Queue, WellWritten, BasesOk, Start, Concat, FrameParts, U32Bytes, FrameBytes, ReadsBack, Opened,
        AllSmallest, BasesOf, Smallest, SelfWins, SelfFrame, OwnBaseStored, OwnBaseOnly;
      pack := SIGNATURE + U32Bytes(2) + U32Bytes(|entries|);
      ghost var header := pack;
      var meta: seq<PackIndex.Row> := [];
      var bases: seq<BaseCand> := [];
      frames := [];
      NothingWritten(env, blockHash, entries, externals);
      for k := 0 to |entries|
        invariant |frames| == k && WellWritten(env, frames, entries, externals)
        invariant pack == header + Concat(FrameParts(env, frames)) && |header| == 12
        invariant BasesOk(env, bases, frames, entries) && bases == BasesOf(env, frames, entries)
        invariant AllSmallest(env, blockHash, frames, entries, externals)
        invariant meta == Rows(env, frames, entries[..k]) && (k == 0 ==> bases == [])
        invariant k == 1 ==> OwnBaseStored(env, entries, externals, frames)
      {
        var offset := |pack|;
        StartIs(env, frames);
        var full;
        ghost var f;
        pack, full, f := WriteEntry(k, pack, bases, frames);
        FrameAdded(env, blockHash, bases, frames, f, entries, externals);
        if k == 0 {
          FirstStored(env, entries, externals, f);
          assert frames + [f] == [f];
        }
        if full {
          bases := bases + [BaseCand(entries[k].obj.ty, offset, k)];
        }
        var crc := env.crc(pack[offset..]);
        meta := meta + [PackIndex.Row(entries[k].id, offset, crc)];
        frames := frames + [f];
      }
      assert entries[..|entries|] == entries;
      NotOneStored(env, entries, externals, frames);
      assert pack == PackBody(env, frames);
      hash := env.digest(pack);
      pack := pack + hash;
      PackMeans(env, frames);
      RowIds(env, frames, entries);
      FinishedReads(env, frames, entries, externals);
      idx := PackIndex.BuildIndex(env, meta, hash);
    }
  }

  /** Index metadata of the written frames. */
  function Rows(env: Env, frames: seq<Frame>, entries: seq<Queued>): (r: seq<PackIndex.Row>)
    requires |frames| == |entries|
    ensures |r| == |frames|
  {
    seq(|frames|, i requires 0 <= i < |frames| =>
      PackIndex.Row(entries[i].id, Start(env, frames[..i]), env.crc(FrameBytes(env, frames[i].kind, frames[i].stream))))
  }

  lemma RowsSnoc(env: Env, frames: seq<Frame>, f: Frame, entries: seq<Queued>, k: nat)
    requires |frames| == k < |entries|
    ensures Rows(env, frames + [f], entries[..k + 1]) ==
      Rows(env, frames, entries[..k])
      + [PackIndex.Row(entries[k].id, Start(env, frames), env.crc(FrameBytes(env, f.kind, f.stream)))]
  {
    hide Start, FrameBytes;
    assert (frames + [f])[..k] == frames;
    assert forall i :: 0 <= i < k ==> (frames + [f])[..i] == frames[..i];
  }

  lemma RowIds(env: Env, frames: seq<Frame>, entries: seq<Queued>)
    requires |frames| == |entries| && Queue(env, entries) && env.Lawful()
    ensures forall row :: row in Rows(env, frames, entries) ==> row.id != []
  {}

  lemma StartIs(env: Env, frames: seq<Frame>)
    ensures Start(env, frames) == 12 + |Concat(FrameParts(env, frames))|
  {}

  lemma FirstStored(env: Env, entries: seq<Queued>, externals: seq<Queued>, f: Frame)
    requires entries != [] && OwnBaseStored(env, [entries[0]], externals, [f])
    ensures OwnBaseStored(env, entries, externals, [f])
  {
    hide SelfWins;
    if |entries| == 1 { assert entries == [entries[0]]; }
  }

  lemma NotOneStored(env: Env, entries: seq<Queued>, externals: seq<Queued>, frames: seq<Frame>)
    ensures |entries| != 1 ==> OwnBaseStored(env, entries, externals, frames)
  {}

  /** What every written entry keeps. */
  lemma FrameAdded(env: Env, hash: Bytes -> int, bases: seq<BaseCand>, frames: seq<Frame>, f: Frame,
                   entries: seq<Queued>, externals: seq<Queued>)
    requires |frames| < |entries| && WellWritten(env, frames, entries, externals)
    requires Encodes(env, frames, f, entries, externals) && BasesOk(env, bases, frames, entries)
    requires bases == BasesOf(env, frames, entries) && AllSmallest(env, hash, frames, entries, externals)
    requires Smallest(env, hash, frames, entries, externals, f)
    ensures
      var k, all := |frames|, frames + [f];
      var cands := if f.kind.Full? then bases + [BaseCand(entries[k].obj.ty, Start(env, frames), k)] else bases;
      && WellWritten(env, all, entries, externals) && AllSmallest(env, hash, all, entries, externals)
      && BasesOk(env, cands, all, entries) && cands == BasesOf(env, all, entries)
      && Concat(FrameParts(env, all)) == Concat(FrameParts(env, frames)) + FrameBytes(env, f.kind, f.stream)
      && Rows(env, all, entries[..k + 1]) ==
           Rows(env, frames, entries[..k])
           + [PackIndex.Row(entries[k].id, Start(env, frames), env.crc(FrameBytes(env, f.kind, f.stream)))]
  {
    hide Encodes, WellWritten, BasesOk, Start, Concat, FrameParts, FrameBytes, AllSmallest, BasesOf, Smallest, Rows;
    StartSnoc(env, frames, f);
    BasesSnoc(env, frames, entries, f);
    AllSmallestSnoc(env, hash, frames, entries, externals, f);
    BasesGrow(env, bases, frames, f, entries, Start(env, frames));
    RowsSnoc(env, frames, f, entries, |frames|);
    WellWrittenSnoc(env, frames, f, entries, externals);
    assert bases + [] == bases;
  }

  lemma OneBase(env: Env, cand: BaseCand, frames: seq<Frame>, entries: seq<Queued>)
    requires BasesOk(env, [cand], frames, entries)
    ensures cand.idx < |frames| <= |entries| && frames[cand.idx].kind.Full?
    ensures cand.ty == entries[cand.idx].obj.ty && cand.offset == Start(env, frames[..cand.idx])
  {
    hide Start;
    assert cand in [cand];
  }

  lemma OfsIsFrame(env: Env, rel: nat, delta: Bytes)
    ensures IsFrame(env, Candidate(env.zlib.deflate(delta), OfsBytes(rel), |delta|, OFS_DELTA_TAG),
                    Frame(OfsDelta(rel), delta))
  {
    hide OfsBytes;
  }

  lemma RefIsFrame(env: Env, hash: Bytes -> int, base: Queued, obj: Obj, delta: Bytes)
    requires delta == Delta.Made(hash, base.obj.bytes, obj.bytes)
    ensures IsFrame(env, Candidate(env.zlib.deflate(delta), base.id, |delta|, REF_DELTA_TAG),
                    Frame(RefDelta(base.id), delta))
    ensures OnExternal(hash, base, obj) == Frame(RefDelta(base.id), delta)
    ensures Room(env, OnExternal(hash, base, obj)) == |env.zlib.deflate(delta)| + |base.id|
  {
    hide Delta.Made;
  }

  lemma RoomOnEntry(env: Env, hash: Bytes -> int, frames: seq<Frame>, entries: seq<Queued>, i: nat, rel: nat,
                    delta: Bytes)
    requires i <= |frames| < |entries| && rel == Start(env, frames) - Start(env, frames[..i])
    requires delta == Delta.Made(hash, entries[i].obj.bytes, entries[|frames|].obj.bytes)
    ensures OnEntry(env, hash, frames, entries, i) == Frame(OfsDelta(rel), delta)
    ensures Room(env, OnEntry(env, hash, frames, entries, i)) == |env.zlib.deflate(delta)| + |OfsBytes(rel)|
  {
    hide Delta.Made, Start;
  }

  lemma NothingTried(env: Env, hash: Bytes -> int, frames: seq<Frame>, entries: seq<Queued>, chosen: Frame, raw: Bytes)
    requires |frames| < |entries|
    ensures BestOnEntries(env, hash, frames, entries, [], None, chosen, raw)
  {}

  lemma NothingOffered(env: Env, hash: Bytes -> int, obj: Obj, best: Option<Candidate>, chosen: Frame, raw: Bytes)
    ensures BestOnOffered(env, hash, obj, [], best, chosen, best, chosen, raw)
  {}

  lemma LargeIsFull(env: Env, hash: Bytes -> int, frames: seq<Frame>, entries: seq<Queued>, externals: seq<Queued>)
    requires |frames| < |entries| && |entries[|frames|].obj.bytes| > 0x10_0000
    ensures
      var obj := entries[|frames|].obj;
      Smallest(env, hash, frames, entries, externals, Frame(Full(obj.ty), obj.bytes))
  {}

  lemma NothingWritten(env: Env, hash: Bytes -> int, entries: seq<Queued>, externals: seq<Queued>)
    ensures WellWritten(env, [], entries, externals) && BasesOk(env, [], [], entries)
    ensures BasesOf(env, [], entries) == [] && AllSmallest(env, hash, [], entries, externals)
    ensures Concat(FrameParts(env, [])) == []
  {}

  lemma OfsChoice(env: Env, frames: seq<Frame>, i: nat, delta: Bytes, entries: seq<Queued>, externals: seq<Queued>)
    requires i < |frames| < |entries| && frames[i].kind.Full? && |delta| < TWO_64
    requires entries[i].obj.ty == entries[|frames|].obj.ty
    requires Delta.Apply(entries[i].obj.bytes, delta) == Ok(entries[|frames|].obj.bytes)
    ensures Start(env, frames[..i]) < Start(env, frames)
    ensures
      var rel := Start(env, frames) - Start(env, frames[..i]);
      Encodes(env, frames, Frame(OfsDelta(rel), delta), entries, externals)
  {
    hide Start, Delta.Apply;
    StartGrows(env, frames, i);
    assert OfsEncodes(env, frames, i, Start(env, frames) - Start(env, frames[..i]), delta, entries);
  }

  lemma RefChoice(env: Env, frames: seq<Frame>, b: nat, delta: Bytes, entries: seq<Queued>, externals: seq<Queued>)
    requires b < |externals| && |frames| < |entries| && |delta| < TWO_64
    requires externals[b].obj.ty == entries[|frames|].obj.ty
    requires Delta.Apply(externals[b].obj.bytes, delta) == Ok(entries[|frames|].obj.bytes)
    ensures Encodes(env, frames, Frame(RefDelta(externals[b].id), delta), entries, externals)
  {}

  lemma DeltaFrame(env: Env, c: Candidate, f: Frame)
    requires IsFrame(env, c, f) && c.tag < 8
    ensures HeaderBytes(c.tag, c.size) + c.prefix + c.zdelta == FrameBytes(env, f.kind, f.stream)
  {
    hide HeaderBytes, OfsBytes;
  }

  lemma FullFrame(env: Env, frames: seq<Frame>, entries: seq<Queued>, externals: seq<Queued>)
    requires |frames| < |entries| && Queue(env, entries)
    ensures
      var obj := entries[|frames|].obj;
      var f := Frame(Full(obj.ty), obj.bytes);
      && Encodes(env, frames, f, entries, externals)
      && FrameBytes(env, f.kind, f.stream) == HeaderBytes(TypeTag(obj.ty), |obj.bytes|) + env.zlib.deflate(obj.bytes)
  {}

  lemma BasesGrow(env: Env, bases: seq<BaseCand>, frames: seq<Frame>, f: Frame, entries: seq<Queued>, offset: nat)
    requires BasesOk(env, bases, frames, entries) && |frames| < |entries| && offset == Start(env, frames)
    ensures BasesOk(env, bases, frames + [f], entries)
    ensures f.kind.Full? ==>
      BasesOk(env, bases + [BaseCand(entries[|frames|].obj.ty, offset, |frames|)], frames + [f], entries)
  {
    hide Start;
    assert (frames + [f])[..|frames|] == frames;
    forall c | c in bases
      ensures (frames + [f])[..c.idx] == frames[..c.idx]
    {}
  }

  lemma RowsAreFit(env: Env, frames: seq<Frame>, entries: seq<Queued>)
    requires env.Lawful() && Queue(env, entries)
    requires |frames| == |entries| < PackIndex.INLINE_LIMIT && |PackBytes(env, frames)| < TWO_64
    ensures PackIndex.RowsFit(env, Rows(env, frames, entries)) && PackIndex.DistinctIds(Rows(env, frames, entries))
  {
    hide Concat, FrameParts, U32Bytes, FrameBytes;
    forall i | 0 <= i < |frames| ensures Start(env, frames[..i]) <= |PackBytes(env, frames)| {
      hide Start;
      StartGrows(env, frames, i);
      StartIs(env, frames);
    }
  }

  /** The written index finds each queued id at its entry's offset, and no other id. */
  lemma WrittenIndex(env: Env, frames: seq<Frame>, entries: seq<Queued>, hash: Bytes, id: Id, r: Option<nat>)
    requires env.Lawful() && Queue(env, entries) && |hash| == env.algo.RawLen()
    requires |frames| == |entries| < PackIndex.INLINE_LIMIT && |PackBytes(env, frames)| < TWO_64
    ensures PackIndex.RowsFit(env, PackIndex.SortedRows(Rows(env, frames, entries)))
    ensures
      var file := PackIndex.Layout(PackIndex.SortedRows(Rows(env, frames, entries)), hash);
      var ix := PackIndex.Parse(env.algo, file + env.digest(file));
      && ix.Ok? && IdTable.Sorted(ix.value.ids)
      && (PackIndex.Located(ix.value, id, r) ==>
            && (forall k :: 0 <= k < |entries| && entries[k].id == id ==> r == Some(Start(env, frames[..k])))
            && ((forall k :: 0 <= k < |entries| ==> entries[k].id != id) ==> r.None?))
  {
    hide PackIndex.Layout, PackIndex.Parse, IdTable.Sorted, PackIndex.Located, Start, PackIndex.RowsFit,
      PackIndex.SortedRows;
    var rows := Rows(env, frames, entries);
    RowsAreFit(env, frames, entries);
    PackIndex.IndexFindsExactly(env, rows, hash, id, r);
    assert forall k :: 0 <= k < |entries| ==> rows[k] in rows && rows[k].id == entries[k].id;
  }

  /** The index written with a packfile, as the random-access reader asks it. */
  ghost function IndexOf(ix: PackIndex.Index): (r: Locator) { id => PackIndex.Lookup(ix, id) }

  lemma WrittenLocates(env: Env, frames: seq<Frame>, entries: seq<Queued>, hash: Bytes)
    requires env.Lawful() && Queue(env, entries) && |hash| == env.algo.RawLen()
    requires |frames| == |entries| < PackIndex.INLINE_LIMIT && |PackBytes(env, frames)| < TWO_64
    ensures PackIndex.RowsFit(env, PackIndex.SortedRows(Rows(env, frames, entries)))
    ensures
      var file := PackIndex.Layout(PackIndex.SortedRows(Rows(env, frames, entries)), hash);
      var ix := PackIndex.Parse(env.algo, file + env.digest(file));
      ix.Ok? && Locates(env, IndexOf(ix.value), frames, entries)
  {
    hide PackIndex.Layout, PackIndex.SortedRows, PackIndex.Parse, PackIndex.Located, PackIndex.Lookup, Rows, Start,
      Queue, PackBytes;
    WrittenIndex(env, frames, entries, hash, [], None);
    var file := PackIndex.Layout(PackIndex.SortedRows(Rows(env, frames, entries)), hash);
    var ix := PackIndex.Parse(env.algo, file + env.digest(file)).value;
    forall id
      ensures forall k :: 0 <= k < |entries| && entries[k].id == id ==> IndexOf(ix)(id) == Some(Start(env, frames[..k]))
      ensures (forall k :: 0 <= k < |entries| ==> entries[k].id != id) ==> IndexOf(ix)(id).None?
    {
      WrittenIndex(env, frames, entries, hash, id, PackIndex.Lookup(ix, id));
    }
  }

  /** A finished packfile read at random through the index finished with it: each queued
      object comes back if its chain ends, and it does when no external base is an entry. */
  lemma IndexedAccess(env: Env, resolve: Resolver, frames: seq<Frame>, entries: seq<Queued>,
                      externals: seq<Queued>, rest: Bytes, k: nat)
    requires env.Lawful() && Queue(env, entries) && Queue(env, externals)
    requires |frames| == |entries| < PackIndex.INLINE_LIMIT && WellWritten(env, frames, entries, externals)
    requires Answers(resolve, externals) && NoClash(entries, externals) && k < |entries|
    requires |PackBytes(env, frames) + rest| < TWO_64
    ensures PackIndex.RowsFit(env, PackIndex.SortedRows(Rows(env, frames, entries)))
    ensures
      var file := PackIndex.Layout(PackIndex.SortedRows(Rows(env, frames, entries)), env.digest(PackBody(env, frames)));
      var ix := PackIndex.Parse(env.algo, file + env.digest(file));
      var data, off := PackBytes(env, frames) + rest, Start(env, frames[..k]);
      && ix.Ok?
      && ChainValue(env, data, IndexOf(ix.value), resolve, off, MAX_CHAIN) ==
         (if PackAgreement.ChainEnds(env, data, IndexOf(ix.value), off, MAX_CHAIN) then Ok(entries[k].obj) else Err)
      && ((forall e, b :: 0 <= e < |entries| && 0 <= b < |externals| ==> entries[e].id != externals[b].id) ==>
            ChainValue(env, data, IndexOf(ix.value), resolve, off, MAX_CHAIN) == Ok(entries[k].obj))
  {
    hide PackIndex.Layout, PackIndex.SortedRows, PackIndex.Parse, Rows, Start, Concat, FrameParts, WellWritten,
      U32Bytes, U32At, ChainValue, PackAgreement.ChainEnds, Answers, NoClash, IndexOf, Locates;
    var data := PackBytes(env, frames) + rest;
    WrittenLocates(env, frames, entries, env.digest(PackBody(env, frames)));
    var file := PackIndex.Layout(PackIndex.SortedRows(Rows(env, frames, entries)), env.digest(PackBody(env, frames)));
    var locate := IndexOf(PackIndex.Parse(env.algo, file + env.digest(file)).value);
    PackHeader(env, frames, rest);
    assert Written(env, frames, entries, externals, data);
    ChainDecides(env, resolve, locate, frames, entries, externals, data, k, MAX_CHAIN);
    if forall e, b :: 0 <= e < |entries| && 0 <= b < |externals| ==> entries[e].id != externals[b].id {
      RandomAccess(env, resolve, locate, frames, entries, externals, rest, k);
    }
  }
}
