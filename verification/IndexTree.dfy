/** Writing the staged entries as a tree (`write_tree_from_index`, src/tree_builder.rs). */
module IndexTree {
  import opened Base
  import opened IndexEntry
  import opened TreeBuilder
  import opened Flatten
  import Trees
  import PackFormat
  import Odb

  /** The tree mode of a stat mode: its file type bits, and whether anyone may execute it. */
  function ModeOf(mode: nat): (r: Result<Trees.FileMode>)
  {
    match mode / 0x1000 % 16
    case 4 => Ok(Trees.Tree)
    case 10 => Ok(Trees.Symlink)
    case 14 => Ok(Trees.Gitlink)
    case 8 => Ok(if mode % 2 == 1 || mode / 8 % 2 == 1 || mode / 64 % 2 == 1 then Trees.Executable else Trees.Regular)
    case _ => Err
  }

  predicate IntentToAdd(e: Entry) { e.extendedFlags / 0x2000 % 2 == 1 }

  /** `f` is the tree listing of the staged entry `e`; a placeholder has none. */
  predicate Lists(e: Entry, f: Flat)
  {
    !IntentToAdd(e) && ModeOf(e.stat.mode) == Ok(f.mode) && f.path == e.path && f.id == e.id
  }

  method StagedFiles(entries: seq<Entry>) returns (r: Result<seq<Flat>>)
    ensures r.Ok? <==> forall i :: 0 <= i < |entries| ==>
      entries[i].stage == 0 && (IntentToAdd(entries[i]) || ModeOf(entries[i].stat.mode).Ok?)
    ensures r.Ok? ==> forall f :: f in r.value <==> exists i :: 0 <= i < |entries| && Lists(entries[i], f)
    ensures r.Ok? && (forall i, j :: 0 <= i < j < |entries| ==> entries[i].path != entries[j].path) ==>
      DistinctPaths(r.value)
  {
    hide ModeOf, IntentToAdd;
    var flat: seq<Flat> := [];
    for i := 0 to |entries|
      invariant forall k :: 0 <= k < i ==>
        entries[k].stage == 0 && (IntentToAdd(entries[k]) || ModeOf(entries[k].stat.mode).Ok?)
      invariant forall f :: f in flat <==> exists k :: 0 <= k < i && Lists(entries[k], f)
      invariant (forall a, b :: 0 <= a < b < |entries| ==> entries[a].path != entries[b].path) ==> DistinctPaths(flat)
    {
      var e := entries[i];
      if e.stage != 0 { return Err; }
      if IntentToAdd(e) { continue; }
      var mode := ModeOf(e.stat.mode);
      if mode.Err? { return Err; }
      var f := Flat(e.path, mode.value, e.id);
      assert Lists(e, f);
      forall k | 0 <= k < |flat| ensures exists l :: 0 <= l < i && flat[k].path == entries[l].path {
        assert flat[k] in flat;
        var l :| 0 <= l < i && Lists(entries[l], flat[k]);
      }
      flat := flat + [f];
    }
    return Ok(flat);
  }

  method WriteTreeFromIndex(db: Odb.Memory, entries: seq<Entry>) returns (r: Result<Trees.Id>, ghost files: seq<Flat>)
    modifies db
    ensures r.Ok? <==> forall i :: 0 <= i < |entries| ==>
      entries[i].stage == 0 && (IntentToAdd(entries[i]) || ModeOf(entries[i].stat.mode).Ok?)
    ensures r.Err? ==> db.objects == old(db.objects)
    ensures r.Ok? ==> forall f :: f in files <==> exists i :: 0 <= i < |entries| && Lists(entries[i], f)
    ensures r.Ok? && (forall i, j :: 0 <= i < j < |entries| ==> entries[i].path != entries[j].path) ==>
      DistinctPaths(files)
    ensures r.Ok? ==> r.value == RootId(db.env, SortPaths(files))
    ensures r.Ok? ==> db.objects == AfterTrees(db.env, old(db.objects), Writes(db.env, SortPaths(files)))
  {
    hide ModeOf, IntentToAdd, Lists, SortPaths, RootId, Writes, AfterTrees;
    files := [];
    var flat := StagedFiles(entries);
    if flat.Err? { return Err, []; }
    files := flat.value;
    var id := WriteTreeFromEntries(db, flat.value);
    return Ok(id), files;
  }

  /** The written tree lists exactly the staged files: flattening it gives them back. */
  lemma StagedTreeFlattens(env: PackFormat.Env, store: Odb.Objects, entries: seq<Entry>, files: seq<Flat>, h: nat)
    requires env.Lawful() && forall i :: 0 <= i < |entries| ==> Fits(env.algo.RawLen(), entries[i])
    requires forall i :: 0 <= i < |entries| ==> ModeOf(entries[i].stat.mode) != Ok(Trees.Tree)
    requires forall f :: f in files <==> exists i :: 0 <= i < |entries| && Lists(entries[i], f)
    requires DistinctPaths(files) && NoClash(env, store, Writes(env, SortPaths(files))) && h > Weight(SortPaths(files))
    ensures
      var n, root := env.algo.RawLen(), RootId(env, SortPaths(files));
      var after := AfterTrees(env, store, Writes(env, SortPaths(files)));
      && Ranked(n, after, root, h)
      && FlatTree(n, after, root, [], h) == Ok(SortPaths(files))
      && forall f :: f in SortPaths(files) <==> exists i :: 0 <= i < |entries| && Lists(entries[i], f)
  {
    hide SortPaths, RootId, Writes, AfterTrees, FlatTree, Ranked, NoClash, InsertAll, WellFormed, SafePath, ModeOf;
    forall k | 0 <= k < |files|
      ensures WellFormed(files[k].path) && !files[k].mode.Tree? && |files[k].id| == env.algo.RawLen()
    {
      assert files[k] in files;
      var i :| 0 <= i < |entries| && Lists(entries[i], files[k]);
      SafeIsWellFormed(entries[i].path);
    }
    FlattenBuild(env, store, files, h);
  }
}
