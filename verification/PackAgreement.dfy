/** The sequential and the random-access pack reader give the same objects. */
module PackAgreement {
  import opened Base
  import opened PackFormat
  import opened PackReader

  /** The offset table maps each entry's offset to its object, and nothing else. */
  ghost predicate OffsetTable(st: State)
  {
    && |st.offsets| == |st.results|
    && (forall i :: 0 <= i < |st.offsets| ==> st.offsets[i] < st.offset)
    && (forall i :: 0 <= i < |st.offsets| ==>
          st.offsets[i] in st.byOffset && st.byOffset[st.offsets[i]] == st.results[i].1)
    && (forall at :: at in st.byOffset ==> exists i :: 0 <= i < |st.offsets| && st.offsets[i] == at)
  }

  /** The id table maps each id to an entry with that id, and nothing else. */
  ghost predicate IdTable(env: Env, st: State)
  {
    && (forall i :: 0 <= i < |st.results| ==> st.results[i].0 == env.hash(st.results[i].1))
    && (forall i :: 0 <= i < |st.results| ==> st.results[i].0 in st.byId)
    && (forall id :: id in st.byId ==> exists i :: 0 <= i < |st.results| && st.results[i] == (id, st.byId[id]))
  }

  lemma RecordOffset(env: Env, st: State, obj: Obj, next: nat)
    requires OffsetTable(st) && st.offset < next
    ensures OffsetTable(Record(env, st, obj, next))
  {
    var st' := Record(env, st, obj, next);
    var n := |st.offsets|;
    assert st'.offsets[n] == st.offset;
    forall i | 0 <= i <= n
      ensures st'.offsets[i] in st'.byOffset && st'.byOffset[st'.offsets[i]] == st'.results[i].1
      ensures st'.offsets[i] < next
    {
      if i < n { assert st'.offsets[i] == st.offsets[i] && st'.results[i] == st.results[i]; }
    }
    forall at | at in st'.byOffset
      ensures exists i :: 0 <= i < |st'.offsets| && st'.offsets[i] == at
    {
      if at != st.offset {
        var i :| 0 <= i < |st.offsets| && st.offsets[i] == at;
        assert st'.offsets[i] == at;
      }
    }
  }

  lemma RecordId(env: Env, st: State, obj: Obj, next: nat)
    requires IdTable(env, st)
    ensures IdTable(env, Record(env, st, obj, next))
  {
    var st' := Record(env, st, obj, next);
    assert st'.results[|st.results|] == (env.hash(obj), obj);
    forall id | id in st'.byId
      ensures exists i :: 0 <= i < |st'.results| && st'.results[i] == (id, st'.byId[id])
    {
      if id != env.hash(obj) {
        var i :| 0 <= i < |st.results| && st.results[i] == (id, st.byId[id]);
        assert st'.results[i] == (id, st'.byId[id]);
      }
    }
  }

  /** The last of `n` steps read one entry, decoded it and recorded it. */
  lemma LastStep(env: Env, resolve: Resolver, data: Bytes, n: nat) returns (entry: Entry, obj: Obj)
    requires n > 0 && After(env, resolve, data, n).Ok?
    ensures After(env, resolve, data, n - 1).Ok?
    ensures
      var last := After(env, resolve, data, n - 1).value;
      && ReadEntry(env, data, last.offset) == Ok(entry)
      && Decode(resolve, entry, last) == Ok(obj)
      && After(env, resolve, data, n).value == Record(env, last, obj, entry.next)
      && last.offset < entry.next
  {
    hide ReadEntry, Decode, Record;
    var last := After(env, resolve, data, n - 1).value;
    entry := ReadEntry(env, data, last.offset).value;
    obj := Decode(resolve, entry, last).value;
  }

  lemma StartTables(env: Env, resolve: Resolver, data: Bytes)
    ensures After(env, resolve, data, 0) == Ok(START) && OffsetTable(START) && IdTable(env, START)
  {}

  lemma {:induction false} TablesHold(env: Env, resolve: Resolver, data: Bytes, n: nat)
    requires After(env, resolve, data, n).Ok?
    ensures
      var st := After(env, resolve, data, n).value;
      OffsetTable(st) && IdTable(env, st) && |st.results| == n
  {
    hide After, OffsetTable, IdTable, ReadEntry, Decode;
    StartTables(env, resolve, data);
    if n > 0 {
      var entry, obj := LastStep(env, resolve, data, n);
      TablesHold(env, resolve, data, n - 1);
      var st := After(env, resolve, data, n - 1).value;
      RecordOffset(env, st, obj, entry.next);
      RecordId(env, st, obj, entry.next);
    }
  }

  /** `st` continues `before`, whose next entry is number `k`. */
  predicate Continues(st: State, before: State, k: nat)
  {
    && k < |st.offsets| == |st.results|
    && st.offsets[..k] == before.offsets && st.results[..k] == before.results
    && st.offsets[k] == before.offset
  }

  lemma RecordContinues(env: Env, st: State, before: State, k: nat, obj: Obj, next: nat)
    requires Continues(st, before, k)
    ensures
      var st' := Record(env, st, obj, next);
      Continues(st', before, k) && st'.results[k] == st.results[k]
  {
    var st' := Record(env, st, obj, next);
    assert st'.offsets[..k] == st.offsets[..k] && st'.results[..k] == st.results[..k];
  }

  /** The run that produced entry `k`: the state before it and how it decoded. */
  lemma {:induction false} EntryRun(env: Env, resolve: Resolver, data: Bytes, k: nat, n: nat)
    requires k < n && After(env, resolve, data, n).Ok?
    ensures After(env, resolve, data, k).Ok?
    ensures
      var st, before := After(env, resolve, data, n).value, After(env, resolve, data, k).value;
      var entry := ReadEntry(env, data, before.offset);
      && Continues(st, before, k)
      && entry.Ok? && Decode(resolve, entry.value, before) == Ok(st.results[k].1)
  {
    hide After, ReadEntry, Decode, OffsetTable, IdTable;
    var entry, obj := LastStep(env, resolve, data, n);
    var last := After(env, resolve, data, n - 1).value;
    if k < n - 1 {
      EntryRun(env, resolve, data, k, n - 1);
      RecordContinues(env, last, After(env, resolve, data, k).value, k, obj, entry.next);
    } else {
      TablesHold(env, resolve, data, k);
      OffsetsMatch(env, resolve, data, k);
    }
  }

  lemma OffsetsMatch(env: Env, resolve: Resolver, data: Bytes, n: nat)
    requires After(env, resolve, data, n).Ok?
    ensures var st := After(env, resolve, data, n).value; |st.offsets| == |st.results| == n
  {
    hide After;
    TablesHold(env, resolve, data, n);
  }

  /** An index over exactly the entries of the exploded pack. */
  ghost predicate Indexes(locate: Locator, st: State)
  {
    && |st.offsets| == |st.results|
    && (forall i :: 0 <= i < |st.results| ==> locate(st.results[i].0) == Some(st.offsets[i]))
    && (forall id :: locate(id).Some? ==> exists i :: 0 <= i < |st.results| && st.results[i].0 == id)
  }

  /** A base named by id that is in the pack comes before its delta, or the resolver, which
      then answered for it, knows no other object of that id. */
  ghost predicate BasesAgree(env: Env, resolve: Resolver, data: Bytes, st: State)
  {
    forall i, k :: 0 <= i < |st.results| && 0 <= k < |st.offsets| ==>
      var entry := ReadEntry(env, data, st.offsets[k]);
      var id := st.results[i].0;
      entry.Ok? && entry.value.kind == RefDelta(id) ==>
        i < k || (resolve(id).Ok? ==> resolve(id).value == st.results[i].1)
  }

  /** The chain from `off` reaches a full object or an external base within `links` in-pack bases. */
  predicate ChainEnds(env: Env, data: Bytes, locate: Locator, off: nat, links: nat)
    decreases links
  {
    match BaseOf(env, data, locate, off)
    case Broken => false
    case Root(_) => true
    case External(_, _) => true
    case InPack(at, _) => links > 0 && ChainEnds(env, data, locate, at, links - 1)
  }

  /** How entry `k` found its base, in the terms of the random-access reader. */
  lemma EntryBase(env: Env, resolve: Resolver, data: Bytes, locate: Locator, n: nat, k: nat)
    returns (base: nat)
    requires k < n && After(env, resolve, data, n).Ok?
    requires Indexes(locate, After(env, resolve, data, n).value)
    requires BasesAgree(env, resolve, data, After(env, resolve, data, n).value)
    ensures
      var st := After(env, resolve, data, n).value;
      && k < |st.offsets| == |st.results|
      && match BaseOf(env, data, locate, st.offsets[k])
         case Broken => false
         case Root(obj) => obj == st.results[k].1
         case External(id, delta) =>
           resolve(id).Ok? && OnBase(resolve(id).value, delta) == Ok(st.results[k].1)
         case InPack(at, delta) =>
           && base < n == |st.results| && at == st.offsets[base]
           && OnBase(st.results[base].1, delta) == Ok(st.results[k].1)
  {
    hide ReadEntry, OnBase, After, OffsetTable, IdTable, BasesAgree, Indexes;
    OffsetsMatch(env, resolve, data, n);
    EntryRun(env, resolve, data, k, n);
    TablesHold(env, resolve, data, k);
    var st, before := After(env, resolve, data, n).value, After(env, resolve, data, k).value;
    var entry := ReadEntry(env, data, before.offset).value;
    base := 0;
    match entry.kind
    case Full(_) =>
    case OfsDelta(rel) =>
      base := FindOffset(before, before.offset - rel);
      assert st.offsets[base] == st.offsets[..k][base] && st.results[base] == st.results[..k][base];
    case RefDelta(id) =>
      if id in before.byId {
        base := FindId(env, before, id);
        assert st.offsets[base] == st.offsets[..k][base] && st.results[base] == st.results[..k][base];
        LocatedAt(locate, st, base);
      } else if locate(id).Some? {
        base := LocatedLater(env, resolve, data, locate, st, before, k, id);
      }
  }

  lemma LocatedAt(locate: Locator, st: State, i: nat)
    requires Indexes(locate, st) && i < |st.results|
    ensures locate(st.results[i].0) == Some(st.offsets[i])
  {}

  /** A base the index knows but that was not yet decoded came from the resolver. */
  lemma LocatedLater(env: Env, resolve: Resolver, data: Bytes, locate: Locator, st: State, before: State, k: nat,
                     id: Id)
    returns (i: nat)
    requires Indexes(locate, st) && BasesAgree(env, resolve, data, st) && Continues(st, before, k)
    requires IdTable(env, before)
    requires ReadEntry(env, data, before.offset).Ok? && ReadEntry(env, data, before.offset).value.kind == RefDelta(id)
    requires id !in before.byId && locate(id).Some?
    ensures i < |st.results| && locate(id) == Some(st.offsets[i])
    ensures (resolve(id).Ok? ==> resolve(id).value == st.results[i].1)
  {
    hide ReadEntry;
    forall j | 0 <= j < k ensures st.results[j].0 in before.byId {
      assert st.results[j] == st.results[..k][j];
    }
    i :| 0 <= i < |st.results| && st.results[i].0 == id;
    assert ReadEntry(env, data, st.offsets[k]).value.kind == RefDelta(st.results[i].0);
  }

  lemma FindOffset(st: State, at: nat) returns (i: nat)
    requires OffsetTable(st) && at in st.byOffset
    ensures i < |st.offsets| && st.offsets[i] == at < st.offset && st.byOffset[at] == st.results[i].1
  {
    i :| 0 <= i < |st.offsets| && st.offsets[i] == at;
  }

  lemma FindId(env: Env, st: State, id: Id) returns (i: nat)
    requires IdTable(env, st) && id in st.byId
    ensures i < |st.results| && st.results[i] == (id, st.byId[id])
  {
    i :| 0 <= i < |st.results| && st.results[i] == (id, st.byId[id]);
  }

  /** On a pack the sequential reader accepts, the random-access reader returns the
      same object at every entry whose chain ends within its cap, and an error at the others. */
  lemma {:induction false} ReadersAgree(env: Env, resolve: Resolver, data: Bytes, locate: Locator,
                                        n: nat, k: nat, links: nat)
    requires k < n && After(env, resolve, data, n).Ok?
    requires Indexes(locate, After(env, resolve, data, n).value)
    requires BasesAgree(env, resolve, data, After(env, resolve, data, n).value)
    ensures
      var st := After(env, resolve, data, n).value;
      && k < |st.offsets| == |st.results|
      && ChainValue(env, data, locate, resolve, st.offsets[k], links) ==
         if ChainEnds(env, data, locate, st.offsets[k], links) then Ok(st.results[k].1) else Err
    decreases links
  {
    hide BaseOf, OnBase, After;
    var base := EntryBase(env, resolve, data, locate, n, k);
    var st := After(env, resolve, data, n).value;
    if BaseOf(env, data, locate, st.offsets[k]).InPack? && links > 0 {
      ReadersAgree(env, resolve, data, locate, n, base, links - 1);
    }
  }
}
