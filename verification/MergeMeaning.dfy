/** What a tree merge does to each path, told by the three entries there (src/merge.rs). */
module MergeMeaning {
  import opened Base
  import opened Trees
  import opened Odb
  import opened TreeBuilder
  import opened Flatten
  import opened MergeTrees
  import PackFormat
  import Merge3
  import Order

  /** An entry that all agree on or only one side changed stays or changes without a conflict; files that both
      changed keep the mode both give them and get the merge of their contents, stored; of anything else
      our entry stays, theirs if we have none, with a conflict. */
  ghost predicate Becomes(env: PackFormat.Env, held: Objects, b: Side, o: Side, t: Side, entry: Side, conflict: bool)
  {
    && (o == t || t == b ==> entry == o && !conflict)
    && (o == b ==> entry == t && !conflict)
    && (o != t && o != b && t != b ==>
          if BothFiles(b, o, t) then
            && entry.Some? && entry.value.0 == o.value.0 && entry.value.0 == t.value.0
            && b.value.1 in held && o.value.1 in held && t.value.1 in held && entry.value.1 in held
            && held[b.value.1].ty.Blob? && held[o.value.1].ty.Blob? && held[t.value.1].ty.Blob?
            && var m := Merge3.Merge(held[b.value.1].bytes, held[o.value.1].bytes, held[t.value.1].bytes);
               entry.value.1 == env.hash(PackFormat.Obj(PackFormat.Blob, m.bytes)) && conflict == m.conflicted
          else conflict && entry == if o.Some? then o else t)
  }

  /** All three have a file there, executable or not, and ours and theirs agree which. */
  predicate BothFiles(b: Side, o: Side, t: Side)
  {
    && b.Some? && o.Some? && t.Some? && o.value.0 == t.value.0
    && (b.value.0.Regular? || b.value.0.Executable?) && (o.value.0.Regular? || o.value.0.Executable?)
  }

  /** What the result holds at `p`: one entry or none, and whether `p` conflicts. */
  ghost predicate ResultAt(r: Outcome, p: Bytes, entry: Side, conflict: bool)
  {
    && (conflict <==> p in r.conflicts)
    && forall e: Flat :: e.path == p ==> (e in r.entries <==> entry == Some((e.mode, e.id)))
  }

  /** Every path of a merge that succeeds becomes what its three entries say, and no other path
      is in the result. */
  lemma EachPath(env: PackFormat.Env, store: Objects, paths: seq<Bytes>, b: Listing, o: Listing, t: Listing, p: Bytes)
    returns (entry: Side, conflict: bool)
    requires MergePaths(env, store, paths, b, o, t).Ok? && Order.StrictlyIncreasing(paths)
    ensures ResultAt(MergePaths(env, store, paths, b, o, t).value, p, entry, conflict)
    ensures p !in paths ==> entry.None? && !conflict
    ensures p in paths ==>
      var held := MergePaths(env, store, paths, b, o, t).value.store;
      Becomes(env, held, Look(b, p), Look(o, p), Look(t, p), entry, conflict)
  {
    hide MergePaths, Entries, Conflicts, Stores, ChoiceAt, Choose, Becomes;
    var held := MergePaths(env, store, paths, b, o, t).value.store;
    MergeByPath(env, store, paths, b, o, t);
    ConflictsAre(env, held, paths, b, o, t, p);
    EntriesAre(env, held, paths, b, o, t, p);
    if p in paths {
      var c := ChoiceAt(env, held, p, b, o, t);
      entry, conflict := c.entry, c.conflict;
      BlobHeld(env, store, paths, b, o, t, p);
      ChoiceBecomes(env, held, p, b, o, t);
    } else {
      entry, conflict := None, false;
    }
  }

  lemma {:induction false} EntriesAre(env: PackFormat.Env, held: Objects, paths: seq<Bytes>,
                                      b: Listing, o: Listing, t: Listing, p: Bytes)
    requires Order.StrictlyIncreasing(paths)
    ensures forall e: Flat :: e.path == p ==>
      (e in Entries(env, held, paths, b, o, t) <==>
       p in paths && ChoiceAt(env, held, p, b, o, t).entry == Some((e.mode, e.id)))
    decreases |paths|
  {
    hide ChoiceAt, Order.Less;
    if paths != [] {
      EntriesAre(env, held, paths[1..], b, o, t, p);
      assert paths == [paths[0]] + paths[1..];
    }
  }

  /** The blob a path's contents were merged into is stored in the end. */
  lemma {:induction false} BlobHeld(env: PackFormat.Env, store: Objects, paths: seq<Bytes>,
                                    b: Listing, o: Listing, t: Listing, p: Bytes)
    requires MergePaths(env, store, paths, b, o, t).Ok? && p in paths
    ensures
      var held := MergePaths(env, store, paths, b, o, t).value.store;
      var blob := ChoiceAt(env, held, p, b, o, t).blob;
      Readable(held, [p], b, o, t) && (blob.Some? ==> env.hash(PackFormat.Obj(PackFormat.Blob, blob.value)) in held)
    decreases |paths|
  {
    hide Choose, ChoiceAt, EntryOf, ReadBlob;
    var held := MergePaths(env, store, paths, b, o, t).value.store;
    var q := paths[0];
    MergeGrows(env, store, paths, b, o, t);
    ChooseStable(env, store, held, q, b, o, t);
    var next := PutBlob(env, store, ChoiceAt(env, held, q, b, o, t).blob);
    if p == q {
      MergeGrows(env, next, paths[1..], b, o, t);
    } else {
      assert paths == [q] + paths[1..];
      BlobHeld(env, next, paths[1..], b, o, t, p);
    }
  }

  lemma ChoiceBecomes(env: PackFormat.Env, held: Objects, p: Bytes, b: Listing, o: Listing, t: Listing)
    requires Readable(held, [p], b, o, t)
    requires
      var blob := ChoiceAt(env, held, p, b, o, t).blob;
      blob.Some? ==> env.hash(PackFormat.Obj(PackFormat.Blob, blob.value)) in held
    ensures
      var c := ChoiceAt(env, held, p, b, o, t);
      Becomes(env, held, Look(b, p), Look(o, p), Look(t, p), c.entry, c.conflict)
  {
    hide Merge3.Merge;
    assert p in [p];
  }
}
