/** The two pack readers of src/pack/mod.rs: sequential explode and random access. */
module PackReader {
  import opened Base
  import opened PackFormat
  import Delta

  type Resolver = Id -> Result<Obj>
  type Locator = Id -> Option<nat>

  /** Most in-pack links a random-access read follows. */
  const MAX_CHAIN: nat := 10_000

  const SIGNATURE: Bytes := [0x50, 0x41, 0x43, 0x4B]

  // ------------------------------------------------------------------ opening

  /** Checks the header of a packfile and returns how many entries it declares. */
  function Opened(data: Bytes): (r: Result<nat>)
  {
    if |data| < 12 || data[..4] != SIGNATURE || (U32At(data, 4) != 2 && U32At(data, 4) != 3) then Err
    else Ok(U32At(data, 8))
  }

  method OpenPack(data: Bytes) returns (r: Result<nat>)
    ensures r == Opened(data)
    ensures r.Ok? <==>
      && |data| >= 12
      && (data[..8] == [0x50, 0x41, 0x43, 0x4B, 0, 0, 0, 2] || data[..8] == [0x50, 0x41, 0x43, 0x4B, 0, 0, 0, 3])
    ensures r.Ok? ==>
      r.value ==
      data[8] as int * 0x100_0000 + data[9] as int * 0x1_0000 + data[10] as int * 0x100 + data[11]
  {
    hide U32At;
    OpenMeans(data);
    if |data| < 12 { return Err; }
    if data[..4] != SIGNATURE { return Err; }
    var version := U32At(data, 4);
    if version != 2 && version != 3 { return Err; }
    return Ok(U32At(data, 8));
  }

  /** Only packfiles that start with `PACK` and version 2 or 3 are opened. */
  lemma OpenMeans(data: Bytes)
    ensures Opened(data).Ok? <==>
      && |data| >= 12
      && (data[..8] == [0x50, 0x41, 0x43, 0x4B, 0, 0, 0, 2] || data[..8] == [0x50, 0x41, 0x43, 0x4B, 0, 0, 0, 3])
    ensures Opened(data).Ok? ==>
      Opened(data).value ==
      data[8] as int * 0x100_0000 + data[9] as int * 0x1_0000 + data[10] as int * 0x100 + data[11]
  {
    hide U32At;
    if |data| >= 12 {
      BigEndian(data, 4);
      BigEndian(data, 8);
      assert data[..8] == data[..4] + data[4..8];
      assert data[4..8] == [data[4], data[5], data[6], data[7]];
    }
  }

  // ----------------------------------------------------------------- explode

  /** The sequential reader's tables: where it is, the two memo tables, and the
      entries decoded so far with their offsets. */
  datatype State = State(offset: nat, byOffset: map<nat, Obj>, byId: map<Id, Obj>,
                         offsets: seq<nat>, results: seq<(Id, Obj)>)

  const START: State := State(12, map[], map[], [], [])

  function OnBase(base: Obj, delta: Bytes): (r: Result<Obj>)
  {
    var target :- Delta.Apply(base.bytes, delta);
    Ok(Obj(base.ty, target))
  }

  function Decode(resolve: Resolver, entry: Entry, st: State): (r: Result<Obj>)
  {
    match entry.kind
    case Full(ty) => Ok(Obj(ty, entry.stream))
    case OfsDelta(rel) =>
      if rel > st.offset || st.offset - rel !in st.byOffset then Err
      else OnBase(st.byOffset[st.offset - rel], entry.stream)
    case RefDelta(id) =>
      var base :- if id in st.byId then Ok(st.byId[id]) else resolve(id);
      OnBase(base, entry.stream)
  }

  function Record(env: Env, st: State, obj: Obj, next: nat): (r: State)
  {
    State(next, st.byOffset[st.offset := obj], st.byId[env.hash(obj) := obj],
          st.offsets + [st.offset], st.results + [(env.hash(obj), obj)])
  }

  function Step(env: Env, resolve: Resolver, data: Bytes, st: State): (r: Result<State>)
  {
    var entry :- ReadEntry(env, data, st.offset);
    var obj :- Decode(resolve, entry, st);
    Ok(Record(env, st, obj, entry.next))
  }

  /** The tables after the first `n` entries. */
  function After(env: Env, resolve: Resolver, data: Bytes, n: nat): (r: Result<State>)
  {
    if n == 0 then Ok(START)
    else
      var st :- After(env, resolve, data, n - 1);
      Step(env, resolve, data, st)
  }

  /** The objects of the pack that starts `data`, and the length of that pack. */
  function Explode(env: Env, resolve: Resolver, data: Bytes): (r: Result<(seq<(Id, Obj)>, nat)>)
  {
    if |data| < 12 || data[..4] != SIGNATURE then Err
    else
      var st :- After(env, resolve, data, U32At(data, 8));
      var end := st.offset + env.algo.RawLen();
      if end > |data| then Err else Ok((st.results, end))
  }

  lemma {:induction false} ErrSticks(env: Env, resolve: Resolver, data: Bytes, n: nat, m: nat)
    requires n <= m && After(env, resolve, data, n).Err?
    ensures After(env, resolve, data, m).Err?
  {
    hide Step;
    if n < m {
      ErrSticks(env, resolve, data, n, m - 1);
    }
  }

  method ReadEntryAt(env: Env, data: Bytes, offset: nat) returns (r: Result<Entry>)
    ensures r == ReadEntry(env, data, offset)
  {
    hide ReadHeader, ReadOfs;
    var header :- ParseEntryHeader(data, offset);
    var (tag, size, body) := header;
    if tag == OFS_DELTA_TAG {
      var rel :- ReadOffsetVarint(data, body);
      var z :- env.zlib.inflate(data[rel.1..], size);
      return Ok(Entry(OfsDelta(rel.0), z.0, rel.1 + z.1));
    } else if tag == REF_DELTA_TAG {
      var idLen := env.algo.RawLen();
      if body + idLen > |data| {
        return Err;
      }
      var z :- env.zlib.inflate(data[body + idLen..], size);
      return Ok(Entry(RefDelta(data[body..body + idLen]), z.0, body + idLen + z.1));
    } else {
      var z :- env.zlib.inflate(data[body..], size);
      return Ok(Entry(Full(TypeOfTag(tag).value), z.0, body + z.1));
    }
  }

  lemma AfterMoves(env: Env, resolve: Resolver, data: Bytes, n: nat)
    ensures After(env, resolve, data, 0) == Ok(START)
    ensures After(env, resolve, data, n).Ok? ==>
      After(env, resolve, data, n + 1) == Step(env, resolve, data, After(env, resolve, data, n).value)
  {
    hide ReadEntry, Decode;
  }

  method ExplodePackPrefix(env: Env, resolve: Resolver, data: Bytes) returns (r: Result<(seq<(Id, Obj)>, nat)>)
    ensures r == Explode(env, resolve, data)
  {
    hide ReadEntry, U32At, After, Decode;
    if |data| < 12 || data[..4] != SIGNATURE {
      return Err;
    }
    var count := U32At(data, 8);
    var byOffset: map<nat, Obj>, byId: map<Id, Obj> := map[], map[];
    var results: seq<(Id, Obj)>, offset: nat := [], 12;
    ghost var offsets: seq<nat> := [];
    AfterMoves(env, resolve, data, 0);
    for i := 0 to count
      invariant After(env, resolve, data, i) == Ok(State(offset, byOffset, byId, offsets, results))
    {
      AfterMoves(env, resolve, data, i);
      var entry := ReadEntryAt(env, data, offset);
      var obj: Result<Obj> := Err;
      if entry.Ok? {
        obj := DecodeEntry(resolve, entry.value, offset, byOffset, byId, offsets, results);
      }
      if obj.Err? {
        ErrSticks(env, resolve, data, i + 1, count);
        return Err;
      }
      var id := env.hash(obj.value);
      byOffset := byOffset[offset := obj.value];
      byId := byId[id := obj.value];
      results := results + [(id, obj.value)];
      offsets := offsets + [offset];
      offset := entry.value.next;
    }
    var consumed := offset + env.algo.RawLen();
    if consumed > |data| {
      return Err;
    }
    return Ok((results, consumed));
  }

  method DecodeEntry(resolve: Resolver, entry: Entry, offset: nat, byOffset: map<nat, Obj>, byId: map<Id, Obj>,
                     ghost offsets: seq<nat>, ghost results: seq<(Id, Obj)>) returns (r: Result<Obj>)
    ensures r == Decode(resolve, entry, State(offset, byOffset, byId, offsets, results))
  {
    hide Delta.Apply;
    match entry.kind
    case Full(ty) =>
      r := Ok(Obj(ty, entry.stream));
    case OfsDelta(rel) =>
      if rel > offset || offset - rel !in byOffset {
        return Err;
      }
      var base := byOffset[offset - rel];
      var target :- Delta.ApplyDelta(base.bytes, entry.stream);
      r := Ok(Obj(base.ty, target));
    case RefDelta(id) =>
      var base :- if id in byId then Ok(byId[id]) else resolve(id);
      var target :- Delta.ApplyDelta(base.bytes, entry.stream);
      r := Ok(Obj(base.ty, target));
  }

  // ----------------------------------------------------------- random access

  /** Where the entry at `off` finds its base. */
  datatype BaseRef = Root(obj: Obj) | InPack(offset: nat, delta: Bytes) | External(id: Id, delta: Bytes) | Broken

  function BaseOf(env: Env, data: Bytes, locate: Locator, off: nat): (b: BaseRef)
  {
    match ReadEntry(env, data, off)
    case Err => Broken
    case Ok(Entry(Full(ty), stream, _)) => Root(Obj(ty, stream))
    case Ok(Entry(OfsDelta(rel), stream, _)) =>
      if rel == 0 || rel > off then Broken else InPack(off - rel, stream)
    case Ok(Entry(RefDelta(id), stream, _)) =>
      match locate(id) { case Some(at) => InPack(at, stream) case None => External(id, stream) }
  }

  /** The recursive meaning of a delta chain: resolve the base, then apply. At most
      `links` in-pack bases are followed. */
  function ChainValue(env: Env, data: Bytes, locate: Locator, resolve: Resolver, off: nat, links: nat): (r: Result<Obj>)
    decreases links
  {
    match BaseOf(env, data, locate, off)
    case Broken => Err
    case Root(obj) => Ok(obj)
    case External(id, delta) =>
      var base :- resolve(id);
      OnBase(base, delta)
    case InPack(at, delta) =>
      if links == 0 then Err
      else
        var base :- ChainValue(env, data, locate, resolve, at, links - 1);
        OnBase(base, delta)
  }

  /** The entry at `off` is a delta on the entry at `at`. */
  predicate Linked(env: Env, data: Bytes, locate: Locator, off: nat, at: nat)
  {
    var b := BaseOf(env, data, locate, off);
    b.InPack? && b.offset == at
  }

  /** `path` follows in-pack bases from one entry to the next. */
  predicate IsPath(env: Env, data: Bytes, locate: Locator, path: seq<nat>)
  {
    forall i :: 0 <= i < |path| - 1 ==> Linked(env, data, locate, path[i], path[i + 1])
  }

  /** A chain that comes back to where it started has no value at any depth. */
  lemma {:induction false} CycleHasNoValue(env: Env, data: Bytes, locate: Locator, resolve: Resolver,
                                           path: seq<nat>, links: nat)
    requires |path| >= 2 && path[0] == path[|path| - 1] && IsPath(env, data, locate, path)
    ensures ChainValue(env, data, locate, resolve, path[0], links).Err?
    decreases links
  {
    hide BaseOf;
    assert Linked(env, data, locate, path[0], path[1]);
    if links > 0 {
      var rotated := path[1..] + [path[1]];
      assert IsPath(env, data, locate, rotated) by {
        forall i | 0 <= i < |rotated| - 1
          ensures Linked(env, data, locate, rotated[i], rotated[i + 1])
        {
          assert rotated[i] == path[i + 1];
          if i + 2 < |path| { assert rotated[i + 1] == path[i + 2]; }
        }
      }
      CycleHasNoValue(env, data, locate, resolve, rotated, links - 1);
    }
  }

  /** Applies the collected deltas base-upward: last collected, first applied. */
  function ApplyAll(base: Result<Obj>, deltas: seq<Bytes>): (r: Result<Obj>)
    decreases |deltas|
  {
    if deltas == [] then base
    else
      var b :- base;
      ApplyAll(OnBase(b, deltas[|deltas| - 1]), deltas[..|deltas| - 1])
  }

  lemma {:induction false} ApplyAllErr(deltas: seq<Bytes>)
    ensures ApplyAll(Err, deltas).Err?
  {}

  /** One more collected delta is one more application at the base. */
  lemma ApplyAllPush(base: Result<Obj>, deltas: seq<Bytes>, delta: Bytes)
    ensures ApplyAll(base, deltas + [delta]) ==
            ApplyAll(if base.Err? then Err else OnBase(base.value, delta), deltas)
  {
    var all := deltas + [delta];
    assert all[|all| - 1] == delta && all[..|all| - 1] == deltas;
    ApplyAllErr(deltas);
  }

  lemma ApplyAllNone(base: Result<Obj>)
    ensures ApplyAll(base, []) == base
  {}

  method ApplyCollected(root: Obj, deltas: seq<Bytes>) returns (r: Result<Obj>)
    ensures r == ApplyAll(Ok(root), deltas)
  {
    var obj := root;
    var i := |deltas|;
    assert deltas[..i] == deltas;
    while i > 0
      invariant 0 <= i <= |deltas|
      invariant ApplyAll(Ok(root), deltas) == ApplyAll(Ok(obj), deltas[..i])
    {
      i := i - 1;
      assert deltas[..i + 1][..i] == deltas[..i];
      var target := Delta.ApplyDelta(obj.bytes, deltas[i]);
      if target.Err? {
        ApplyAllErr(deltas[..i]);
        return Err;
      }
      obj := Obj(obj.ty, target.value);
    }
    return Ok(obj);
  }

  /** One entry of the walk: parse it and find its base. */
  method NextBase(env: Env, data: Bytes, locate: Locator, cur: nat) returns (b: BaseRef)
    ensures b == BaseOf(env, data, locate, cur)
  {
    hide ReadEntry;
    var entry := ReadEntryAt(env, data, cur);
    if entry.Err? {
      return Broken;
    }
    match entry.value.kind
    case Full(ty) =>
      b := Root(Obj(ty, entry.value.stream));
    case OfsDelta(rel) =>
      b := if rel == 0 || rel > cur then Broken else InPack(cur - rel, entry.value.stream);
    case RefDelta(id) =>
      match locate(id) {
        case Some(at) => b := InPack(at, entry.value.stream);
        case None => b := External(id, entry.value.stream);
      }
  }

  lemma ExtendPath(env: Env, data: Bytes, locate: Locator, path: seq<nat>, cur: nat, at: nat)
    requires IsPath(env, data, locate, path + [cur])
    requires Linked(env, data, locate, cur, at)
    ensures IsPath(env, data, locate, path + [cur] + [at])
  {
    hide BaseOf;
    var p, q := path + [cur], path + [cur] + [at];
    forall i | 0 <= i < |q| - 1
      ensures Linked(env, data, locate, q[i], q[i + 1])
    {
      if i + 1 < |p| {
        assert q[i] == p[i] && q[i + 1] == p[i + 1];
      }
    }
  }

  lemma RevisitFails(env: Env, data: Bytes, locate: Locator, resolve: Resolver,
                     path: seq<nat>, cur: nat, links: nat)
    requires IsPath(env, data, locate, path + [cur]) && cur in path
    ensures ChainValue(env, data, locate, resolve, cur, links).Err?
  {
    hide BaseOf;
    var k :| 0 <= k < |path| && path[k] == cur;
    var p := path + [cur];
    var cycle := p[k..];
    forall i | 0 <= i < |cycle| - 1
      ensures Linked(env, data, locate, cycle[i], cycle[i + 1])
    {
      assert cycle[i] == p[k + i] && cycle[i + 1] == p[k + i + 1];
    }
    CycleHasNoValue(env, data, locate, resolve, cycle, links);
  }

  /** Collects the chain iteratively, then applies it; a revisited offset or a
      chain past the cap is an error. */
  method ReadAtWith(env: Env, data: Bytes, offset: nat, locate: Locator, resolve: Resolver) returns (r: Result<Obj>)
    ensures r == ChainValue(env, data, locate, resolve, offset, 10_000)
  {
    hide BaseOf, OnBase, ApplyAll;
    var deltas: seq<Bytes>, visited: set<nat>, cur: nat := [], {}, offset;
    ghost var path: seq<nat> := [];
    var base: Obj;
    ghost var goal := ChainValue(env, data, locate, resolve, offset, MAX_CHAIN);
    assert ApplyAll(goal, []) == goal by { ApplyAllNone(goal); }
    while true
      invariant |deltas| == |path| <= MAX_CHAIN + 1
      invariant |deltas| <= MAX_CHAIN ==>
        goal == ApplyAll(ChainValue(env, data, locate, resolve, cur, MAX_CHAIN - |deltas|), deltas)
      invariant |deltas| == MAX_CHAIN + 1 ==> goal.Err?
      invariant IsPath(env, data, locate, path + [cur])
      invariant visited == set at | at in path
      decreases MAX_CHAIN + 1 - |deltas|
    {
      if |deltas| > MAX_CHAIN {
        return Err;
      }
      ghost var left: nat := MAX_CHAIN - |deltas|;
      if cur in visited {
        RevisitFails(env, data, locate, resolve, path, cur, left);
        ApplyAllErr(deltas);
        return Err;
      }
      visited := visited + {cur};
      ghost var was := deltas;
      var next := NextBase(env, data, locate, cur);
      ghost var value := ChainValue(env, data, locate, resolve, cur, left);
      match next {
        case Broken =>
          ApplyAllErr(deltas);
          return Err;
        case Root(obj) =>
          base := obj;
          break;
        case External(id, delta) =>
          deltas := deltas + [delta];
          var b := resolve(id);
          ApplyAllPush(b, was, delta);
          if b.Err? {
            ApplyAllErr(was);
            return Err;
          }
          base := b.value;
          break;
        case InPack(at, delta) =>
          deltas := deltas + [delta];
          if left > 0 {
            ApplyAllPush(ChainValue(env, data, locate, resolve, at, left - 1), was, delta);
          } else {
            ApplyAllErr(was);
          }
          ExtendPath(env, data, locate, path, cur, at);
          path := path + [cur];
          cur := at;
      }
    }
    r := ApplyCollected(base, deltas);
  }
}
