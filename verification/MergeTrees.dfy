/** Three-way merge of trees, path by path (src/merge.rs). */
module MergeTrees {
  import opened Base
  import opened Trees
  import opened Odb
  import opened TreeBuilder
  import opened Flatten
  import PackFormat
  import Merge3
  import Order

  type Side = Option<(FileMode, Id)>

  function Look(m: Listing, p: Bytes): (r: Side) { if p in m then Some(m[p]) else None }

  predicate IsFile(m: FileMode) { m.Regular? || m.Executable? }

  function ReadBlob(store: Objects, id: Id): (r: Result<Bytes>)
  { if id !in store || store[id].ty != PackFormat.Blob then Err else Ok(store[id].bytes) }

  /** What becomes of one path: its entry, whether it conflicts, and a blob to write. */
  datatype Choice = Choice(entry: Side, conflict: bool, blob: Option<Bytes>)

  /** Both sides changed a file, differently, without disagreeing on its mode. */
  predicate ContentMerge(b: Side, o: Side, t: Side)
  {
    && o != t && o != b && t != b && b.Some? && o.Some? && t.Some?
    && IsFile(b.value.0) && IsFile(o.value.0) && IsFile(t.value.0) && o.value.0 == t.value.0
  }

  function Choose(env: PackFormat.Env, store: Objects, b: Side, o: Side, t: Side): (r: Result<Choice>)
  {
    if o == t then Ok(Choice(o, false, None))
    else if o == b then Ok(Choice(t, false, None))
    else if t == b then Ok(Choice(o, false, None))
    else if ContentMerge(b, o, t) then
      var base :- ReadBlob(store, b.value.1);
      var ours :- ReadBlob(store, o.value.1);
      var theirs :- ReadBlob(store, t.value.1);
      var m := Merge3.Merge(base, ours, theirs);
      Ok(Choice(Some((o.value.0, env.hash(PackFormat.Obj(PackFormat.Blob, m.bytes)))), m.conflicted, Some(m.bytes)))
    else Ok(Choice(if o.Some? then o else t, true, None))
  }

  function EntryOf(p: Bytes, side: Side): (r: seq<Flat>)
  { if side.None? then [] else [Flat(p, side.value.0, side.value.1)] }

  function PutBlob(env: PackFormat.Env, store: Objects, blob: Option<Bytes>): (r: Objects)
  { if blob.None? then store else Put(env, store, PackFormat.Obj(PackFormat.Blob, blob.value)) }

  datatype Outcome = Outcome(entries: seq<Flat>, conflicts: seq<Bytes>, store: Objects)

  /** The merge of `paths` in order; blobs are read from the store as it then is. */
  function MergePaths(env: PackFormat.Env, store: Objects, paths: seq<Bytes>, b: Listing, o: Listing,
                      t: Listing): (r: Result<Outcome>)
    decreases |paths|
  {
    if paths == [] then Ok(Outcome([], [], store))
    else
      var p := paths[0];
      var c :- Choose(env, store, Look(b, p), Look(o, p), Look(t, p));
      var rest :- MergePaths(env, PutBlob(env, store, c.blob), paths[1..], b, o, t);
      Ok(Outcome(EntryOf(p, c.entry) + rest.entries, (if c.conflict then [p] else []) + rest.conflicts, rest.store))
  }

  // ------------------------------------------------------------------ the method

  function Continued(entries: seq<Flat>, conflicts: seq<Bytes>, r: Result<Outcome>): Result<Outcome>
  { if r.Err? then Err else Ok(Outcome(entries + r.value.entries, conflicts + r.value.conflicts, r.value.store)) }

  lemma PathStep(env: PackFormat.Env, store: Objects, paths: seq<Bytes>, i: nat, b: Listing, o: Listing, t: Listing,
                 entries: seq<Flat>, conflicts: seq<Bytes>)
    requires i < |paths|
    ensures
      var p := paths[i];
      var c := Choose(env, store, Look(b, p), Look(o, p), Look(t, p));
      Continued(entries, conflicts, MergePaths(env, store, paths[i..], b, o, t)) ==
      if c.Err? then Err
      else Continued(entries + EntryOf(p, c.value.entry), conflicts + (if c.value.conflict then [p] else []),
                     MergePaths(env, PutBlob(env, store, c.value.blob), paths[i + 1..], b, o, t))
  {
    hide Choose, PutBlob, EntryOf;
    var p := paths[i];
    assert paths[i..][1..] == paths[i + 1..];
    var c := Choose(env, store, Look(b, p), Look(o, p), Look(t, p));
    if c.Ok? {
      var rest := MergePaths(env, PutBlob(env, store, c.value.blob), paths[i + 1..], b, o, t);
      if rest.Ok? {
        var e, f := EntryOf(p, c.value.entry), if c.value.conflict then [p] else [];
        assert entries + (e + rest.value.entries) == entries + e + rest.value.entries;
        assert conflicts + (f + rest.value.conflicts) == conflicts + f + rest.value.conflicts;
      }
    }
  }

  lemma PathsEnd(env: PackFormat.Env, store: Objects, paths: seq<Bytes>, b: Listing, o: Listing, t: Listing,
                 entries: seq<Flat>, conflicts: seq<Bytes>)
    ensures Continued([], [], MergePaths(env, store, paths, b, o, t)) == MergePaths(env, store, paths, b, o, t)
    ensures Continued(entries, conflicts, MergePaths(env, store, [], b, o, t)) == Ok(Outcome(entries, conflicts, store))
  {
    var r := MergePaths(env, store, paths, b, o, t);
    if r.Ok? { assert [] + r.value.entries == r.value.entries && [] + r.value.conflicts == r.value.conflicts; }
    assert entries + [] == entries && conflicts + [] == conflicts;
  }

  /** Resolves one path, writing a merged blob when contents were merged. */
  method ResolvePath(db: Memory, b: Side, o: Side, t: Side) returns (r: Result<(Side, bool)>)
    modifies db
    ensures
      var c := Choose(db.env, old(db.objects), b, o, t);
      && r == (if c.Err? then Err else Ok((c.value.entry, c.value.conflict)))
      && db.objects == (if c.Err? then old(db.objects) else PutBlob(db.env, old(db.objects), c.value.blob))
  {
    hide Merge3.Merge;
    if o == t { return Ok((o, false)); }
    if o == b { return Ok((t, false)); }
    if t == b { return Ok((o, false)); }
    if ContentMerge(b, o, t) {
      var base := ReadBlob(db.objects, b.value.1);
      if base.Err? { return Err; }
      var ours := ReadBlob(db.objects, o.value.1);
      if ours.Err? { return Err; }
      var theirs := ReadBlob(db.objects, t.value.1);
      if theirs.Err? { return Err; }
      var m := Merge3.MergeThree(base.value, ours.value, theirs.value);
      var id := db.Write(PackFormat.Obj(PackFormat.Blob, m.bytes));
      return Ok((Some((o.value.0, id)), m.conflicted));
    }
    return Ok((if o.Some? then o else t, true));
  }

  method ResolvePaths(db: Memory, paths: seq<Bytes>, b: Listing, o: Listing, t: Listing)
    returns (r: Result<(seq<Flat>, seq<Bytes>)>)
    modifies db
    ensures
      var all := MergePaths(db.env, old(db.objects), paths, b, o, t);
      && r == (if all.Err? then Err else Ok((all.value.entries, all.value.conflicts)))
      && (all.Ok? ==> db.objects == all.value.store)
  {
    hide Choose, MergePaths, PutBlob, Continued, EntryOf;
    var entries: seq<Flat>, conflicts: seq<Bytes> := [], [];
    ghost var all := MergePaths(db.env, db.objects, paths, b, o, t);
    PathsEnd(db.env, db.objects, paths, b, o, t, [], []);
    assert paths[0..] == paths;
    for i := 0 to |paths|
      invariant Continued(entries, conflicts, MergePaths(db.env, db.objects, paths[i..], b, o, t)) == all
    {
      var p := paths[i];
      PathStep(db.env, db.objects, paths, i, b, o, t, entries, conflicts);
      var c := ResolvePath(db, Look(b, p), Look(o, p), Look(t, p));
      if c.Err? { return Err; }
      entries := entries + EntryOf(p, c.value.0);
      conflicts := conflicts + if c.value.1 then [p] else [];
    }
    assert paths[|paths|..] == [];
    PathsEnd(db.env, db.objects, paths, b, o, t, entries, conflicts);
    return Ok((entries, conflicts));
  }

  /** Every path of the three listings, once, in byte order. */
  ghost predicate AllPaths(paths: seq<Bytes>, b: Listing, o: Listing, t: Listing)
  {
    Order.StrictlyIncreasing(paths) && forall p :: p in paths <==> p in b || p in o || p in t
  }

  /** What flattening a tree gives, from an empty map. */
  function Listed(idLen: nat, store: Objects, id: Id, h: nat): (r: Result<Listing>)
    requires Ranked(idLen, store, id, h)
  { Filled(map[], FlatTree(idLen, store, id, [], h)) }

  /** `h` bounds how deep the three trees nest. */
  method Merge(db: Memory, base: Option<Id>, ours: Id, theirs: Id, ghost h: nat)
    returns (r: Result<(Id, seq<Bytes>)>, ghost paths: seq<Bytes>)
    requires base.Some? ==> Ranked(db.env.algo.RawLen(), db.objects, base.value, h)
    requires Ranked(db.env.algo.RawLen(), db.objects, ours, h) && Ranked(db.env.algo.RawLen(), db.objects, theirs, h)
    modifies db
    ensures
      var n, env, store := db.env.algo.RawLen(), db.env, old(db.objects);
      var b := if base.None? then Ok(map[]) else Listed(n, store, base.value, h);
      var o, t := Listed(n, store, ours, h), Listed(n, store, theirs, h);
      if b.Err? || o.Err? || t.Err? then r.Err?
      else
        && AllPaths(paths, b.value, o.value, t.value)
        && var all := MergePaths(env, store, paths, b.value, o.value, t.value);
           if all.Err? then r.Err?
           else
             && r == Ok((RootId(env, SortPaths(all.value.entries)), all.value.conflicts))
             && db.objects == AfterTrees(env, all.value.store, Writes(env, SortPaths(all.value.entries)))
    ensures
      var n, env, store := db.env.algo.RawLen(), db.env, old(db.objects);
      var baseRead := base.None? || Listed(n, store, base.value, h).Ok?;
      forall es ::
        && (StoredAs(env, store, es, theirs, h) && base == Some(ours) && baseRead ==> r == Ok((theirs, [])))
        && (StoredAs(env, store, es, ours, h) && base == Some(theirs) && baseRead ==> r == Ok((ours, [])))
        && (StoredAs(env, store, es, ours, h) && ours == theirs && baseRead ==> r == Ok((ours, [])))
  {
    hide MergePaths, Ranked, FlatTree, InsertAll, SortPaths, RootId, Writes, AfterTrees;
    paths := [];
    StoredReads(db.env, db.objects, ours, h);
    StoredReads(db.env, db.objects, theirs, h);
    var n, baseMap := db.env.algo.RawLen(), map[];
    if base.Some? {
      var m := FlattenInto(n, db.objects, base.value, [], map[], h);
      if m.Err? { r := Err; return; }
      baseMap := m.value;
    }
    var oursMap := FlattenInto(n, db.objects, ours, [], map[], h);
    if oursMap.Err? { r := Err; return; }
    var theirsMap := FlattenInto(n, db.objects, theirs, [], map[], h);
    if theirsMap.Err? { r := Err; return; }
    var all := Order.Ascending(baseMap.Keys + oursMap.value.Keys + theirsMap.value.Keys);
    paths := all;
    YieldedTrees(db.env, db.objects, all, baseMap, oursMap.value, ours, h);
    YieldedTrees(db.env, db.objects, all, baseMap, theirsMap.value, theirs, h);
    var merged := ResolvePaths(db, all, baseMap, oursMap.value, theirsMap.value);
    if merged.Err? { r := Err; return; }
    var tree := WriteTreeFromEntries(db, merged.value.0);
    r := Ok((tree, merged.value.1));
  }

  // --------------------------------------------------------------------- the laws

  /** The listing as an entry list in the order of `paths`. */
  function InOrder(m: Listing, paths: seq<Bytes>): (r: seq<Flat>)
  { if paths == [] then [] else EntryOf(paths[0], Look(m, paths[0])) + InOrder(m, paths[1..]) }

  /** A side that did not change yields the other side; sides that agree yield themselves. */
  lemma {:induction false} Yields(env: PackFormat.Env, store: Objects, paths: seq<Bytes>, b: Listing, m: Listing)
    ensures MergePaths(env, store, paths, b, b, m) == Ok(Outcome(InOrder(m, paths), [], store))
    ensures MergePaths(env, store, paths, b, m, b) == Ok(Outcome(InOrder(m, paths), [], store))
    ensures MergePaths(env, store, paths, b, m, m) == Ok(Outcome(InOrder(m, paths), [], store))
    decreases |paths|
  {
    if paths != [] {
      Yields(env, store, paths[1..], b, m);
      ChooseYields(env, store, Look(b, paths[0]), Look(m, paths[0]));
      assert forall s: seq<Bytes> :: [] + s == s;
    }
  }

  lemma ChooseYields(env: PackFormat.Env, store: Objects, b: Side, m: Side)
    ensures Choose(env, store, b, b, m) == Choose(env, store, b, m, b) == Choose(env, store, b, m, m) ==
      Ok(Choice(m, false, None))
  {}

  lemma {:induction false} InOrderMembers(m: Listing, paths: seq<Bytes>)
    requires Order.StrictlyIncreasing(paths)
    ensures DistinctPaths(InOrder(m, paths))
    ensures forall e :: e in InOrder(m, paths) <==> e.path in paths && Look(m, e.path) == Some((e.mode, e.id))
    decreases |paths|
  {
    hide Order.Less;
    if paths != [] {
      var rest := InOrder(m, paths[1..]);
      InOrderMembers(m, paths[1..]);
      assert paths == [paths[0]] + paths[1..];
      assert paths[0] !in paths[1..] by {
        Order.LessIrreflexive(paths[0]);
        assert forall i :: 1 <= i < |paths| ==> Order.Less(paths[0], paths[i]);
      }
      forall i | 0 <= i < |rest| ensures rest[i].path in paths[1..] { assert rest[i] in rest; }
    }
  }

  /** Listing a map and collecting the list give the map back. */
  lemma InOrderListing(m: Listing, paths: seq<Bytes>)
    requires Order.StrictlyIncreasing(paths) && forall p :: p in m ==> p in paths
    ensures DistinctPaths(InOrder(m, paths)) && InsertAll(map[], InOrder(m, paths)) == m
  {
    hide InOrder, InsertAll;
    var es := InOrder(m, paths);
    InOrderMembers(m, paths);
    ListingMembers(es);
    ListingExact(map[], es);
    var x := InsertAll(map[], es);
    forall p ensures p in m <==> p in x && (p in m ==> x[p] == m[p]) {
      if p in m { assert Flat(p, m[p].0, m[p].1) in es; }
      if p in x {
        var i :| 0 <= i < |es| && es[i].path == p;
        assert es[i] in es;
      }
    }
  }

  /** When the result is one side's listing and that side's tree was built from its
      listing, the merged tree is that side's tree. */
  lemma YieldsTree(env: PackFormat.Env, paths: seq<Bytes>, m: Listing, es: seq<Flat>)
    requires Order.StrictlyIncreasing(paths) && forall p :: p in m ==> p in paths
    requires DistinctPaths(es) && InsertAll(map[], es) == m
    ensures RootId(env, SortPaths(InOrder(m, paths))) == RootId(env, SortPaths(es))
  {
    hide InOrder, InsertAll, SortPaths, RootId;
    InOrderListing(m, paths);
    SameListingSameTree(env, InOrder(m, paths), es);
  }

  /** The tree `id` and all its subtrees are stored as built from `es`. */
  ghost predicate StoredAs(env: PackFormat.Env, store: Objects, es: seq<Flat>, id: Id, h: nat)
  {
    && env.Lawful() && Ascending(es) && Wanted(env.algo.RawLen(), es) && h > Weight(es)
    && AllHeld(env, store, Writes(env, es)) && id == RootId(env, es)
  }

  /** The merge of `paths` is the tree `id`, without conflict. */
  ghost predicate Yielded(env: PackFormat.Env, merged: Result<Outcome>, id: Id)
  {
    merged.Ok? && merged.value.conflicts == [] && RootId(env, SortPaths(merged.value.entries)) == id
  }

  /** Merging a stored tree with an unchanged or an equal side gives that very tree. */
  lemma TreeYielded(env: PackFormat.Env, store: Objects, paths: seq<Bytes>, b: Listing, m: Listing, es: seq<Flat>,
                    id: Id, h: nat)
    requires StoredAs(env, store, es, id, h) && Ranked(env.algo.RawLen(), store, id, h)
    requires Listed(env.algo.RawLen(), store, id, h) == Ok(m)
    requires Order.StrictlyIncreasing(paths) && forall p :: p in m ==> p in paths
    ensures Yielded(env, MergePaths(env, store, paths, b, b, m), id)
    ensures Yielded(env, MergePaths(env, store, paths, b, m, b), id)
    ensures Yielded(env, MergePaths(env, store, paths, b, m, m), id)
  {
    hide MergePaths, InOrder, InsertAll, SortPaths, RootId, Writes, AllHeld, FlatTree, Weight, Wanted, Order.Less;
    TreeInverts(env, store, es, h);
    DistinctFromAscending(es);
    SortedStays(es);
    Yields(env, store, paths, b, m);
    YieldsTree(env, paths, m, es);
  }

  lemma DistinctFromAscending(es: seq<Flat>)
    requires Ascending(es)
    ensures DistinctPaths(es)
  {
    hide Order.Less;
    forall i, j | 0 <= i < j < |es| ensures es[i].path != es[j].path {
      Order.LessIrreflexive(es[i].path);
    }
  }

  lemma SortedStays(es: seq<Flat>)
    requires Ascending(es)
    ensures SortPaths(es) == es
  {
    hide Order.Less;
    ByPathTotal();
    Order.SortSorted(ByPath(), es);
  }

  lemma StoredReads(env: PackFormat.Env, store: Objects, id: Id, h: nat)
    requires Ranked(env.algo.RawLen(), store, id, h)
    ensures forall es :: StoredAs(env, store, es, id, h) ==> Listed(env.algo.RawLen(), store, id, h).Ok?
  {
    hide RootId, Writes, AllHeld, FlatTree, Weight, Wanted, Ascending, InsertAll;
    forall es | StoredAs(env, store, es, id, h) ensures Listed(env.algo.RawLen(), store, id, h).Ok? {
      TreeInverts(env, store, es, h);
    }
  }

  lemma YieldedTrees(env: PackFormat.Env, store: Objects, paths: seq<Bytes>, b: Listing, m: Listing, id: Id, h: nat)
    requires Ranked(env.algo.RawLen(), store, id, h) && Listed(env.algo.RawLen(), store, id, h) == Ok(m)
    requires Order.StrictlyIncreasing(paths) && forall p :: p in m ==> p in paths
    ensures forall es :: StoredAs(env, store, es, id, h) ==>
      && Yielded(env, MergePaths(env, store, paths, b, b, m), id)
      && Yielded(env, MergePaths(env, store, paths, b, m, b), id)
      && Yielded(env, MergePaths(env, store, paths, b, m, m), id)
  {
    hide MergePaths, StoredAs, Yielded, Listed, Order.StrictlyIncreasing;
    forall es | StoredAs(env, store, es, id, h)
      ensures Yielded(env, MergePaths(env, store, paths, b, b, m), id)
      ensures Yielded(env, MergePaths(env, store, paths, b, m, b), id)
      ensures Yielded(env, MergePaths(env, store, paths, b, m, m), id)
    {
      TreeYielded(env, store, paths, b, m, es, id, h);
    }
  }

  // ------------------------------------------------------------------------- swap

  /** A clean merge is the same merge with the sides exchanged, whatever can be read. */
  lemma {:induction false} CleanSwap(env: PackFormat.Env, store: Objects, paths: seq<Bytes>, b: Listing, o: Listing,
                                     t: Listing)
    requires MergePaths(env, store, paths, b, o, t).Ok? && MergePaths(env, store, paths, b, o, t).value.conflicts == []
    ensures MergePaths(env, store, paths, b, t, o) == MergePaths(env, store, paths, b, o, t)
    decreases |paths|
  {
    hide Choose, PutBlob, EntryOf;
    if paths != [] {
      var p := paths[0];
      CleanChoice(env, store, Look(b, p), Look(o, p), Look(t, p));
      var blob := Choose(env, store, Look(b, p), Look(o, p), Look(t, p)).value.blob;
      CleanSwap(env, PutBlob(env, store, blob), paths[1..], b, o, t);
    }
  }

  lemma CleanChoice(env: PackFormat.Env, store: Objects, b: Side, o: Side, t: Side)
    requires Choose(env, store, b, o, t).Ok? && !Choose(env, store, b, o, t).value.conflict
    ensures Choose(env, store, b, t, o) == Choose(env, store, b, o, t)
  {
    hide Merge3.Merge;
    if ContentMerge(b, o, t) {
      Merge3.MergeSwap(ReadBlob(store, b.value.1).value, ReadBlob(store, o.value.1).value,
                       ReadBlob(store, t.value.1).value);
    }
  }

  /** Every blob that a content merge reads is stored. */
  ghost predicate Readable(store: Objects, paths: seq<Bytes>, b: Listing, o: Listing, t: Listing)
  {
    forall p :: p in paths && ContentMerge(Look(b, p), Look(o, p), Look(t, p)) ==>
      ReadBlob(store, b[p].1).Ok? && ReadBlob(store, o[p].1).Ok? && ReadBlob(store, t[p].1).Ok?
  }

  ghost predicate Within(a: Objects, b: Objects) { forall id :: id in a ==> id in b && b[id] == a[id] }

  /** The path's choice when blobs are read from `held`. */
  function ChoiceAt(env: PackFormat.Env, held: Objects, p: Bytes, b: Listing, o: Listing, t: Listing): (r: Choice)
  {
    var c := Choose(env, held, Look(b, p), Look(o, p), Look(t, p));
    if c.Ok? then c.value else Choice(None, true, None)
  }

  function Entries(env: PackFormat.Env, held: Objects, paths: seq<Bytes>, b: Listing, o: Listing,
                   t: Listing): (r: seq<Flat>)
  {
    if paths == [] then []
    else EntryOf(paths[0], ChoiceAt(env, held, paths[0], b, o, t).entry) + Entries(env, held, paths[1..], b, o, t)
  }

  function Conflicts(env: PackFormat.Env, held: Objects, paths: seq<Bytes>, b: Listing, o: Listing,
                     t: Listing): (r: seq<Bytes>)
  {
    if paths == [] then []
    else
      (if ChoiceAt(env, held, paths[0], b, o, t).conflict then [paths[0]] else [])
      + Conflicts(env, held, paths[1..], b, o, t)
  }

  function Stores(env: PackFormat.Env, held: Objects, store: Objects, paths: seq<Bytes>, b: Listing, o: Listing,
                  t: Listing): (r: Objects)
    decreases |paths|
  {
    if paths == [] then store
    else Stores(env, held, PutBlob(env, store, ChoiceAt(env, held, paths[0], b, o, t).blob), paths[1..], b, o, t)
  }

  /** A choice made once stays the choice in every larger store. */
  lemma ChooseStable(env: PackFormat.Env, store: Objects, held: Objects, p: Bytes, b: Listing, o: Listing, t: Listing)
    requires Within(store, held) && Choose(env, store, Look(b, p), Look(o, p), Look(t, p)).Ok?
    ensures Choose(env, store, Look(b, p), Look(o, p), Look(t, p)) == Ok(ChoiceAt(env, held, p, b, o, t))
    ensures Readable(held, [p], b, o, t)
  {
    hide Merge3.Merge;
  }

  lemma PutGrows(env: PackFormat.Env, store: Objects, blob: Option<Bytes>)
    ensures Within(store, PutBlob(env, store, blob))
  {}

  /** Merging only adds to the store. */
  lemma {:induction false} MergeGrows(env: PackFormat.Env, store: Objects, paths: seq<Bytes>,
                                      b: Listing, o: Listing, t: Listing)
    requires MergePaths(env, store, paths, b, o, t).Ok?
    ensures Within(store, MergePaths(env, store, paths, b, o, t).value.store)
    decreases |paths|
  {
    hide Choose, PutBlob, EntryOf;
    if paths != [] {
      var p := paths[0];
      var blob := Choose(env, store, Look(b, p), Look(o, p), Look(t, p)).value.blob;
      PutGrows(env, store, blob);
      MergeGrows(env, PutBlob(env, store, blob), paths[1..], b, o, t);
    }
  }

  /** Each path of a merge that succeeds is decided on its own, by the blobs of the final
      store: what other paths write decides at most whether a blob can be read at all. */
  lemma {:induction false} MergeByPath(env: PackFormat.Env, store: Objects, paths: seq<Bytes>,
                                       b: Listing, o: Listing, t: Listing)
    requires MergePaths(env, store, paths, b, o, t).Ok?
    ensures
      var r := MergePaths(env, store, paths, b, o, t).value;
      && Readable(r.store, paths, b, o, t)
      && r == Outcome(Entries(env, r.store, paths, b, o, t), Conflicts(env, r.store, paths, b, o, t),
                      Stores(env, r.store, store, paths, b, o, t))
    decreases |paths|
  {
    hide Choose, ChoiceAt, PutBlob, EntryOf, ReadBlob, Within;
    if paths != [] {
      var p, held := paths[0], MergePaths(env, store, paths, b, o, t).value.store;
      MergeGrows(env, store, paths, b, o, t);
      ChooseStable(env, store, held, p, b, o, t);
      MergeByPath(env, PutBlob(env, store, ChoiceAt(env, held, p, b, o, t).blob), paths[1..], b, o, t);
      assert p in [p] && paths == [p] + paths[1..];
    }
  }

  /** With every blob there from the start the merge succeeds. */
  lemma {:induction false} ReadableSucceeds(env: PackFormat.Env, held: Objects, store: Objects, paths: seq<Bytes>,
                                            b: Listing, o: Listing, t: Listing)
    requires Within(held, store) && Readable(held, paths, b, o, t)
    ensures MergePaths(env, store, paths, b, o, t).Ok?
    decreases |paths|
  {
    hide Choose, PutBlob, EntryOf, ReadBlob, Within;
    if paths != [] {
      var p := paths[0];
      assert p in paths;
      ReadableChoice(env, held, store, p, b, o, t);
      var blob := Choose(env, store, Look(b, p), Look(o, p), Look(t, p)).value.blob;
      ReadableSucceeds(env, held, PutBlob(env, store, blob), paths[1..], b, o, t);
    }
  }

  lemma ReadableChoice(env: PackFormat.Env, held: Objects, store: Objects, p: Bytes, b: Listing, o: Listing, t: Listing)
    requires Within(held, store)
    requires ContentMerge(Look(b, p), Look(o, p), Look(t, p)) ==>
      ReadBlob(held, b[p].1).Ok? && ReadBlob(held, o[p].1).Ok? && ReadBlob(held, t[p].1).Ok?
    ensures Choose(env, store, Look(b, p), Look(o, p), Look(t, p)).Ok?
    ensures Within(held, PutBlob(env, store, Choose(env, store, Look(b, p), Look(o, p), Look(t, p)).value.blob))
  {
    hide Merge3.Merge;
  }

  /** No id stands for different objects in the two stores. */
  ghost predicate Agree(x: Objects, y: Objects) { forall id :: id in x && id in y ==> x[id] == y[id] }

  lemma ReadableParts(held: Objects, paths: seq<Bytes>, b: Listing, o: Listing, t: Listing)
    requires paths != [] && Readable(held, paths, b, o, t)
    ensures Readable(held, [paths[0]], b, o, t) && Readable(held, paths[1..], b, o, t)
  {
    hide ReadBlob, ContentMerge, Look;
    assert paths[0] in paths;
  }

  lemma ChoiceSwap(env: PackFormat.Env, x: Objects, y: Objects, p: Bytes, b: Listing, o: Listing, t: Listing)
    requires Readable(x, [p], b, o, t) && Readable(y, [p], b, t, o) && Agree(x, y)
    ensures ChoiceAt(env, x, p, b, o, t).conflict == ChoiceAt(env, y, p, b, t, o).conflict
  {
    hide Merge3.Merge;
    assert p in [p];
    var lb, lo, lt := Look(b, p), Look(o, p), Look(t, p);
    if ContentMerge(lb, lo, lt) {
      Merge3.MergeSwap(ReadBlob(x, lb.value.1).value, ReadBlob(x, lo.value.1).value, ReadBlob(x, lt.value.1).value);
    }
  }

  lemma {:induction false} PathsSwap(env: PackFormat.Env, x: Objects, y: Objects, paths: seq<Bytes>,
                                     b: Listing, o: Listing, t: Listing)
    requires Readable(x, paths, b, o, t) && Readable(y, paths, b, t, o) && Agree(x, y)
    ensures Conflicts(env, x, paths, b, o, t) == Conflicts(env, y, paths, b, t, o)
    decreases |paths|
  {
    hide ChoiceAt, Readable, Agree;
    if paths != [] {
      ReadableParts(x, paths, b, o, t);
      ReadableParts(y, paths, b, t, o);
      ChoiceSwap(env, x, y, paths[0], b, o, t);
      PathsSwap(env, x, y, paths[1..], b, o, t);
    }
  }

  /** When both orders succeed, exchanging the sides gives the same conflict paths, and
      without conflicts the same entries, store and tree. */
  lemma TreeSwap(env: PackFormat.Env, store: Objects, paths: seq<Bytes>, b: Listing, o: Listing, t: Listing)
    requires MergePaths(env, store, paths, b, o, t).Ok? && MergePaths(env, store, paths, b, t, o).Ok?
    requires
      Agree(MergePaths(env, store, paths, b, o, t).value.store, MergePaths(env, store, paths, b, t, o).value.store)
    ensures
      var x, y := MergePaths(env, store, paths, b, o, t), MergePaths(env, store, paths, b, t, o);
      x.value.conflicts == y.value.conflicts && (x.value.conflicts == [] ==> x == y)
  {
    hide MergePaths, Entries, Conflicts, Stores, Readable, Agree;
    var x, y := MergePaths(env, store, paths, b, o, t).value, MergePaths(env, store, paths, b, t, o).value;
    MergeByPath(env, store, paths, b, o, t);
    MergeByPath(env, store, paths, b, t, o);
    PathsSwap(env, x.store, y.store, paths, b, o, t);
    if x.conflicts == [] { CleanSwap(env, store, paths, b, o, t); }
  }

  /** All three sides differ, and the contents cannot be merged or their merge conflicts. */
  ghost predicate Clashes(held: Objects, lb: Side, lo: Side, lt: Side)
    requires ContentMerge(lb, lo, lt) ==> lb.value.1 in held && lo.value.1 in held && lt.value.1 in held
  {
    && lo != lt && lo != lb && lt != lb
    && (ContentMerge(lb, lo, lt) ==>
          Merge3.Merge(held[lb.value.1].bytes, held[lo.value.1].bytes, held[lt.value.1].bytes).conflicted)
  }

  lemma ChoiceConflicts(env: PackFormat.Env, held: Objects, p: Bytes, b: Listing, o: Listing, t: Listing)
    requires Readable(held, [p], b, o, t)
    ensures ContentMerge(Look(b, p), Look(o, p), Look(t, p)) ==> b[p].1 in held && o[p].1 in held && t[p].1 in held
    ensures ChoiceAt(env, held, p, b, o, t).conflict <==> Clashes(held, Look(b, p), Look(o, p), Look(t, p))
  {
    hide Merge3.Merge;
    assert p in [p];
  }

  lemma {:induction false} ConflictsAre(env: PackFormat.Env, held: Objects, paths: seq<Bytes>,
                                        b: Listing, o: Listing, t: Listing, p: Bytes)
    requires Readable(held, paths, b, o, t)
    ensures p in Conflicts(env, held, paths, b, o, t) <==> p in paths && ChoiceAt(env, held, p, b, o, t).conflict
    decreases |paths|
  {
    hide ChoiceAt, ReadBlob;
    if paths != [] {
      ConflictsAre(env, held, paths[1..], b, o, t, p);
      assert paths == [paths[0]] + paths[1..];
    }
  }

  /** A path of a merge that succeeds conflicts exactly when all three sides differ there and
      either the contents cannot be merged or their merge conflicts. */
  lemma ConflictsExactly(env: PackFormat.Env, store: Objects, paths: seq<Bytes>, b: Listing, o: Listing, t: Listing,
                         p: Bytes)
    requires MergePaths(env, store, paths, b, o, t).Ok?
    ensures
      var r := MergePaths(env, store, paths, b, o, t).value;
      var lb, lo, lt := Look(b, p), Look(o, p), Look(t, p);
      && (p in paths && ContentMerge(lb, lo, lt) ==>
            lb.value.1 in r.store && lo.value.1 in r.store && lt.value.1 in r.store)
      && (p in r.conflicts <==> p in paths && Clashes(r.store, lb, lo, lt))
  {
    hide MergePaths, Entries, Conflicts, Stores, ChoiceAt, Clashes;
    var r := MergePaths(env, store, paths, b, o, t).value;
    MergeByPath(env, store, paths, b, o, t);
    ConflictsAre(env, r.store, paths, b, o, t, p);
    if p in paths { ChoiceConflicts(env, r.store, p, b, o, t); }
  }

  // ------------------------------------------------- one order succeeds, the other does not

  /** A regular file with this object. */
  function Plain(id: Id): (r: (FileMode, Id)) { (Regular, id) }

  /** Two one-line files made from nothing conflict. */
  lemma AddedBothWays(x: byte, y: byte)
    requires x != y && x != 10 && y != 10
    ensures Merge3.Merge([], [x], [y]) == Merge3.Merged(Merge3.Marked([x], [y]), true)
  {
    Merge3.EmptyBase([x], [y]);
  }

  /** Path `1` conflicts, and path `2` needs the very blob that this conflict writes when our
      side comes first. */
  lemma OneOrderOnly(env: PackFormat.Env)
    requires
      var ours := env.hash(PackFormat.Obj(PackFormat.Blob, Merge3.Marked([1], [2])));
      ours !in {[0], [1], [2]} && env.hash(PackFormat.Obj(PackFormat.Blob, Merge3.Marked([2], [1]))) != ours
    ensures
      var ours := env.hash(PackFormat.Obj(PackFormat.Blob, Merge3.Marked([1], [2])));
      var blob := (x: Bytes) => PackFormat.Obj(PackFormat.Blob, x);
      var store: Objects := map[[0] := blob([]), [1] := blob([1]), [2] := blob([2])];
      var b: Listing := map[[1] := Plain([0]), [2] := Plain([0])];
      var o: Listing := map[[1] := Plain([1]), [2] := Plain(ours)];
      var t: Listing := map[[1] := Plain([2]), [2] := Plain([1])];
      && MergePaths(env, store, [[1], [2]], b, o, t).Ok?
      && MergePaths(env, store, [[1], [2]], b, t, o).Err?
  {
    hide Merge3.Merge;
    AddedBothWays(1, 2);
    AddedBothWays(2, 1);
    assert [[1], [2]][1..] == [[2]] && [[2]][1..] == [];
  }
}
