/** Nested trees from flat paths (src/tree_builder.rs). */
module TreeBuilder {
  import opened Base
  import opened Trees
  import opened Odb
  import PackFormat
  import Order

  /** One file of a flat listing: its path, relative to the tree, its mode and its object. */
  datatype Flat = Flat(path: Bytes, mode: FileMode, id: Id)

  // -------------------------------------------------------------------- paths

  /** Non-empty, NUL-free components joined by slashes. */
  predicate WellFormed(p: Bytes)
    decreases |p|
  {
    var k := Find(p, SLASH);
    k > 0 && 0 !in p[..k] && (k < |p| ==> WellFormed(p[k + 1..]))
  }

  /** The entry name a path gives its top-level component, as the tree order sees it:
      the whole path of a file, a directory with its slash. */
  function Mark(p: Bytes): (r: Bytes)
  {
    if p == [] then [] else if p[0] == SLASH then [SLASH] else [p[0]] + Mark(p[1..])
  }

  lemma {:induction false} MarkIs(p: Bytes)
    ensures var k := Find(p, SLASH); Mark(p) == if k < |p| then p[..k] + [SLASH] else p
  {
    if p != [] && p[0] != SLASH {
      MarkIs(p[1..]);
      var k := Find(p[1..], SLASH);
      assert Find(p, SLASH) == k + 1;
      assert p[..k + 1] == [p[0]] + p[1..][..k];
      assert p == [p[0]] + p[1..];
    }
  }

  /** Paths in byte order have their marks in order: a directory's paths are contiguous. */
  lemma {:induction false} MarkKeepsOrder(p: Bytes, q: Bytes)
    requires Order.Less(p, q)
    ensures Order.AtMost(Mark(p), Mark(q))
    decreases |p|
  {
    if p != [] && p[0] == q[0] && p[0] != SLASH {
      MarkKeepsOrder(p[1..], q[1..]);
      var a, b := Mark(p), Mark(q);
      assert a[1..] == Mark(p[1..]) && b[1..] == Mark(q[1..]);
    }
  }

  predicate Under(dir: Bytes, p: Bytes) { |p| > |dir| && p[..|dir|] == dir && p[|dir|] == SLASH }

  lemma {:induction false} UnderIsMark(dir: Bytes, p: Bytes)
    requires SLASH !in dir
    ensures Under(dir, p) <==> Mark(p) == dir + [SLASH]
  {
    var k := Find(p, SLASH);
    MarkIs(p);
    if Under(dir, p) {
      assert p == dir + [SLASH] + p[|dir| + 1..];
      FindAfter(dir, SLASH, p[|dir| + 1..]);
    }
    if Mark(p) == dir + [SLASH] {
      assert Mark(p)[|dir|] == SLASH;
      if k < |p| {
        assert |p[..k]| == |dir|;
        assert p[..k] == Mark(p)[..|dir|] == dir;
      }
    }
  }

  // ------------------------------------------------------------------- building

  function Weight(es: seq<Flat>): (r: nat)
  {
    if es == [] then 0 else |es[0].path| + 1 + Weight(es[1..])
  }

  /** How many leading entries lie under `dir`. */
  function Leading(es: seq<Flat>, dir: Bytes): (r: nat)
    ensures r <= |es| && forall i :: 0 <= i < r ==> Under(dir, es[i].path)
    ensures r < |es| ==> !Under(dir, es[r].path)
    ensures es != [] && Under(dir, es[0].path) ==> r > 0
  {
    if es == [] || !Under(dir, es[0].path) then 0 else 1 + Leading(es[1..], dir)
  }

  function Below(dir: Bytes, p: Bytes): (r: Bytes)
    requires Under(dir, p)
    ensures p == dir + [SLASH] + r
  { p[|dir| + 1..] }

  function Strip(es: seq<Flat>, dir: Bytes): (r: seq<Flat>)
    requires forall i :: 0 <= i < |es| ==> Under(dir, es[i].path)
    ensures |r| == |es|
    ensures forall i :: 0 <= i < |es| ==> r[i] == Flat(Below(dir, es[i].path), es[i].mode, es[i].id)
  {
    seq(|es|, i requires 0 <= i < |es| => Flat(Below(dir, es[i].path), es[i].mode, es[i].id))
  }

  lemma {:induction false} StripWeight(es: seq<Flat>, dir: Bytes)
    requires forall i :: 0 <= i < |es| ==> Under(dir, es[i].path)
    ensures Weight(Strip(es, dir)) + |es| <= Weight(es)
  {
    if es != [] {
      StripWeight(es[1..], dir);
      assert Strip(es, dir)[1..] == Strip(es[1..], dir);
    }
  }

  lemma {:induction false} WeightSplit(es: seq<Flat>, k: nat)
    requires k <= |es|
    ensures Weight(es) == Weight(es[..k]) + Weight(es[k..]) && Weight(es[..k]) >= k
  {
    if k > 0 {
      WeightSplit(es[1..], k - 1);
      assert es[..k][1..] == es[1..][..k - 1] && es[1..][k - 1..] == es[k..];
    } else {
      assert es[..0] == [] && es[0..] == es;
    }
  }

  /** The directory the first entry is in. */
  function DirOf(es: seq<Flat>): (r: Bytes)
    requires es != []
    ensures SLASH !in r
  { es[0].path[..Find(es[0].path, SLASH)] }

  predicate IsLeaf(e: Flat) { Find(e.path, SLASH) == |e.path| }

  lemma GroupShrinks(es: seq<Flat>)
    requires es != []
    ensures Weight(es[1..]) < Weight(es)
    ensures !IsLeaf(es[0]) ==>
      var k := Leading(es, DirOf(es));
      k > 0 && Weight(es[k..]) < Weight(es) && Weight(Strip(es[..k], DirOf(es))) < Weight(es)
  {
    if !IsLeaf(es[0]) {
      var k := Leading(es, DirOf(es));
      assert Under(DirOf(es), es[0].path);
      WeightSplit(es, k);
      StripWeight(es[..k], DirOf(es));
    }
  }

  function HashTree(env: PackFormat.Env, payload: Bytes): (r: Id) { env.hash(PackFormat.Obj(PackFormat.Tree, payload)) }

  /** A level's tree entries, and the payloads of the subtrees in the order they are written. */
  datatype Level = Level(entries: seq<TreeEntry>, written: seq<Bytes>)

  function BuildLevel(env: PackFormat.Env, es: seq<Flat>): (r: Level)
    decreases Weight(es)
  {
    if es == [] then Level([], [])
    else
      GroupShrinks(es);
      if IsLeaf(es[0]) then
        var rest := BuildLevel(env, es[1..]);
        Level([TreeEntry(es[0].mode, es[0].path, es[0].id)] + rest.entries, rest.written)
      else
        var dir := DirOf(es);
        var k := Leading(es, dir);
        var sub := BuildLevel(env, Strip(es[..k], dir));
        var payload := Serialize(sub.entries);
        var rest := BuildLevel(env, es[k..]);
        Level([TreeEntry(Tree, dir, HashTree(env, payload))] + rest.entries, sub.written + [payload] + rest.written)
  }

  /** How many entries the first tree entry stands for. */
  function FirstSpan(es: seq<Flat>): (r: nat)
    requires es != []
    ensures 0 < r <= |es|
  {
    assert !IsLeaf(es[0]) ==> Under(DirOf(es), es[0].path);
    if IsLeaf(es[0]) then 1 else Leading(es, DirOf(es))
  }

  lemma LevelStep(env: PackFormat.Env, es: seq<Flat>)
    requires es != [] && !es[0].mode.Tree?
    ensures Weight(es[FirstSpan(es)..]) < Weight(es)
    ensures
      var ts := BuildLevel(env, es).entries;
      && ts != [] && ts[1..] == BuildLevel(env, es[FirstSpan(es)..]).entries
      && EffectiveName(ts[0]) == Mark(es[0].path)
  {
    hide Serialize, HashTree, Leading, Weight, Mark;
    GroupShrinks(es);
    MarkIs(es[0].path);
  }

  function RootPayload(env: PackFormat.Env, es: seq<Flat>): (r: Bytes) { Serialize(BuildLevel(env, es).entries) }

  /** Every payload written, subtrees before the trees that name them. */
  function Writes(env: PackFormat.Env, es: seq<Flat>): (r: seq<Bytes>)
  { BuildLevel(env, es).written + [RootPayload(env, es)] }

  function RootId(env: PackFormat.Env, es: seq<Flat>): (r: Id) { HashTree(env, RootPayload(env, es)) }

  function ByPath(): (Flat, Flat) -> bool { (a: Flat, b: Flat) => Order.AtMost(a.path, b.path) }

  lemma ByPathTotal()
    ensures Order.TotalOrder(ByPath())
  {
    forall a: Flat, b: Flat ensures ByPath()(a, b) || ByPath()(b, a) {
      Order.LessTotal(a.path, b.path);
    }
    forall a: Flat, b: Flat, c: Flat | ByPath()(a, b) && ByPath()(b, c) ensures ByPath()(a, c) {
      if Order.Less(a.path, b.path) && Order.Less(b.path, c.path) { Order.LessTransitive(a.path, b.path, c.path); }
    }
  }

  function SortPaths(es: seq<Flat>): (r: seq<Flat>)
    ensures Order.Sorted(ByPath(), r) && multiset(r) == multiset(es) && |r| == |es|
    ensures forall e :: e in r <==> e in es
  {
    ByPathTotal();
    Order.Sort(ByPath(), es)
  }

  // ----------------------------------------------------------- what a level holds

  predicate Ascending(es: seq<Flat>) { forall i, j :: 0 <= i < j < |es| ==> Order.Less(es[i].path, es[j].path) }

  /** Files only, well-formed paths, ids of the right length. */
  predicate Wanted(idLen: nat, es: seq<Flat>)
  {
    forall i :: 0 <= i < |es| ==> WellFormed(es[i].path) && !es[i].mode.Tree? && |es[i].id| == idLen
  }

  /** Every entry name of a level is the mark of one of its paths. */
  lemma {:induction false} LevelMarks(env: PackFormat.Env, es: seq<Flat>, t: nat)
    requires t < |BuildLevel(env, es).entries| && Wanted(env.algo.RawLen(), es)
    ensures exists i :: 0 <= i < |es| && EffectiveName(BuildLevel(env, es).entries[t]) == Mark(es[i].path)
    decreases Weight(es)
  {
    hide WellFormed, Mark, BuildLevel, Weight, FirstSpan;
    assert es != [] by { LevelNothing(env); }
    LevelStep(env, es);
    var k, ts := FirstSpan(es), BuildLevel(env, es).entries;
    if t > 0 {
      assert ts[t] == ts[1..][t - 1];
      LevelMarks(env, es[k..], t - 1);
      var i :| 0 <= i < |es[k..]| && EffectiveName(ts[t]) == Mark(es[k..][i].path);
      assert es[k + i] == es[k..][i];
    }
  }

  lemma LevelNothing(env: PackFormat.Env)
    ensures BuildLevel(env, []) == Level([], [])
  {}

  /** What follows a directory's group is not in the directory. */
  lemma GroupIsAll(es: seq<Flat>, j: nat)
    requires es != [] && Ascending(es) && !IsLeaf(es[0]) && Leading(es, DirOf(es)) <= j < |es|
    ensures Mark(es[j].path) != Mark(es[0].path)
  {
    hide Mark, Order.Less, Leading;
    var dir := DirOf(es);
    var k := Leading(es, dir);
    var a, m := Mark(es[0].path), Mark(es[k].path);
    DirMark(es);
    UnderIsMark(dir, es[k].path);
    assert m != a;
    MarkKeepsOrder(es[0].path, es[k].path);
    if k < j {
      MarkKeepsOrder(es[k].path, es[j].path);
      Order.LessTotal(a, m);
    }
  }

  lemma DirMark(es: seq<Flat>)
    requires es != [] && !IsLeaf(es[0])
    ensures Mark(es[0].path) == DirOf(es) + [SLASH] && Under(DirOf(es), es[0].path)
  {
    hide Mark;
    MarkIs(es[0].path);
  }

  /** A later group's mark is a different, larger one. */
  lemma MarksRise(es: seq<Flat>, j: nat)
    requires es != [] && Ascending(es) && FirstSpan(es) <= j < |es|
    ensures Order.Less(Mark(es[0].path), Mark(es[j].path))
  {
    hide Mark, Order.Less;
    MarkKeepsOrder(es[0].path, es[j].path);
    MarkIs(es[0].path);
    MarkIs(es[j].path);
    if IsLeaf(es[0]) {
      Order.LessIrreflexive(es[0].path);
      assert Mark(es[0].path) == es[0].path && SLASH !in es[0].path;
      var k := Find(es[j].path, SLASH);
      if k < |es[j].path| { assert Mark(es[j].path)[k] == SLASH; }
    } else {
      GroupIsAll(es, j);
    }
  }

  /** The builder's own order is git's tree order. */
  lemma {:induction false} LevelSorted(env: PackFormat.Env, es: seq<Flat>)
    requires Ascending(es) && Wanted(env.algo.RawLen(), es)
    ensures StrictlyNamed(BuildLevel(env, es).entries)
    decreases Weight(es)
  {
    hide WellFormed, Mark, BuildLevel, Order.Less, Weight, FirstSpan, EffectiveName;
    LevelNothing(env);
    if es != [] {
      LevelStep(env, es);
      var k, ts := FirstSpan(es), BuildLevel(env, es).entries;
      LevelSorted(env, es[k..]);
      forall j | 1 <= j < |ts| ensures Order.Less(EffectiveName(ts[0]), EffectiveName(ts[j])) {
        assert ts[j] == ts[1..][j - 1];
        LevelMarks(env, es[k..], j - 1);
        var i :| 0 <= i < |es[k..]| && EffectiveName(ts[j]) == Mark(es[k..][i].path);
        assert es[k + i] == es[k..][i];
        MarksRise(es, k + i);
      }
      assert forall i :: 1 <= i < |ts| ==> ts[i] == ts[1..][i - 1];
    }
  }

  lemma {:induction false} LevelGood(env: PackFormat.Env, es: seq<Flat>)
    requires env.Lawful() && Wanted(env.algo.RawLen(), es)
    ensures Good(env.algo.RawLen(), BuildLevel(env, es).entries)
    decreases Weight(es)
  {
    hide BuildLevel, GoodEntry, WellFormed, Weight, FirstSpan;
    LevelNothing(env);
    if es != [] {
      LevelStep(env, es);
      FirstGood(env, es);
      var ts := BuildLevel(env, es).entries;
      LevelGood(env, es[FirstSpan(es)..]);
      assert forall i :: 1 <= i < |ts| ==> ts[i] == ts[1..][i - 1];
    }
  }

  lemma FirstGood(env: PackFormat.Env, es: seq<Flat>)
    requires env.Lawful() && es != [] && Wanted(env.algo.RawLen(), es)
    ensures BuildLevel(env, es).entries != [] && GoodEntry(env.algo.RawLen(), BuildLevel(env, es).entries[0])
  {
    hide Serialize, Leading, Weight;
    GroupShrinks(es);
    var p := es[0].path;
    assert WellFormed(p);
    assert p[..|p|] == p;
  }

  // ------------------------------------------------------------------ the builder

  /** The store once `ws` have been written as trees. */
  function AfterTrees(env: PackFormat.Env, store: Objects, ws: seq<Bytes>): (r: Objects)
    decreases |ws|
  {
    if ws == [] then store else AfterTrees(env, Put(env, store, PackFormat.Obj(PackFormat.Tree, ws[0])), ws[1..])
  }

  lemma {:induction false} AfterAppend(env: PackFormat.Env, store: Objects, a: seq<Bytes>, b: seq<Bytes>)
    ensures AfterTrees(env, store, a + b) == AfterTrees(env, AfterTrees(env, store, a), b)
    decreases |a|
  {
    if a == [] {
      assert a + b == b;
    } else {
      assert (a + b)[1..] == a[1..] + b;
      AfterAppend(env, Put(env, store, PackFormat.Obj(PackFormat.Tree, a[0])), a[1..], b);
    }
  }

  lemma AfterOne(env: PackFormat.Env, store: Objects, w: Bytes)
    ensures AfterTrees(env, store, [w]) == Put(env, store, PackFormat.Obj(PackFormat.Tree, w))
  {
    assert [w][1..] == [];
  }

  /** The run of entries under `dir` from `i` on, stripped of it. */
  method Gather(es: seq<Flat>, i: nat, dir: Bytes) returns (sub: seq<Flat>, j: nat)
    requires i <= |es|
    ensures j == i + Leading(es[i..], dir) && sub == Strip(es[i..][..j - i], dir)
  {
    hide Leading;
    var rest := es[i..];
    sub, j := [], i;
    while j < |es| && Under(dir, es[j].path)
      invariant i <= j <= |es|
      invariant forall k :: 0 <= k < j - i ==> Under(dir, rest[k].path)
      invariant sub == Strip(rest[..j - i], dir)
    {
      assert rest[j - i] == es[j];
      sub := sub + [Flat(es[j].path[|dir| + 1..], es[j].mode, es[j].id)];
      j := j + 1;
    }
    assert j < |es| ==> rest[j - i] == es[j];
    LeadingIs(rest, dir, j - i);
  }

  lemma {:induction false} LeadingIs(es: seq<Flat>, dir: Bytes, k: nat)
    requires k <= |es| && (forall i :: 0 <= i < k ==> Under(dir, es[i].path)) && (k < |es| ==> !Under(dir, es[k].path))
    ensures Leading(es, dir) == k
  {
    if k > 0 { LeadingIs(es[1..], dir, k - 1); }
  }

  lemma LeafStep(env: PackFormat.Env, es: seq<Flat>, i: nat)
    requires i < |es| && IsLeaf(es[i])
    ensures
      var all, rest := BuildLevel(env, es[i..]), BuildLevel(env, es[i + 1..]);
      all == Level([TreeEntry(es[i].mode, es[i].path, es[i].id)] + rest.entries, rest.written)
  {
    assert es[i..][1..] == es[i + 1..];
  }

  lemma DirStep(env: PackFormat.Env, es: seq<Flat>, i: nat, j: nat, sub: seq<Flat>)
    requires i < |es| && !IsLeaf(es[i])
    requires j == i + Leading(es[i..], DirOf(es[i..])) && sub == Strip(es[i..][..j - i], DirOf(es[i..]))
    ensures i < j <= |es| && Weight(sub) < Weight(es)
    ensures
      var all, rest := BuildLevel(env, es[i..]), BuildLevel(env, es[j..]);
      all == Level([TreeEntry(Tree, DirOf(es[i..]), RootId(env, sub))] + rest.entries, Writes(env, sub) + rest.written)
  {
    hide Leading, Weight, Serialize, HashTree;
    GroupShrinks(es[i..]);
    WeightSplit(es, i);
    assert es[i..][j - i..] == es[j..];
  }

  /** Builds one tree from paths relative to it and writes it after its subtrees. */
  method Build(db: Memory, es: seq<Flat>) returns (id: Id)
    modifies db
    ensures id == RootId(db.env, es) && db.objects == AfterTrees(db.env, old(db.objects), Writes(db.env, es))
    decreases Weight(es)
  {
    hide BuildLevel, Weight, AfterTrees, Leading, Serialize;
    var treeEntries: seq<TreeEntry>, i: nat := [], 0;
    ghost var env, store, level := db.env, db.objects, BuildLevel(db.env, es);
    assert es[0..] == es && [] + level.entries == level.entries;
    while i < |es|
      invariant i <= |es| && treeEntries + BuildLevel(env, es[i..]).entries == level.entries
      invariant AfterTrees(env, db.objects, BuildLevel(env, es[i..]).written) == AfterTrees(env, store, level.written)
    {
      var slash := Find(es[i].path, SLASH);
      if slash == |es[i].path| {
        LeafStep(env, es, i);
        Regroup(treeEntries, [TreeEntry(es[i].mode, es[i].path, es[i].id)], BuildLevel(env, es[i + 1..]).entries, []);
        treeEntries := treeEntries + [TreeEntry(es[i].mode, es[i].path, es[i].id)];
        i := i + 1;
      } else {
        var dir := es[i].path[..slash];
        var sub, j := Gather(es, i, dir);
        DirStep(env, es, i, j, sub);
        Regroup(treeEntries, [TreeEntry(Tree, dir, RootId(env, sub))], BuildLevel(env, es[j..]).entries, []);
        AfterAppend(env, db.objects, Writes(env, sub), BuildLevel(env, es[j..]).written);
        var subtree := Build(db, sub);
        treeEntries := treeEntries + [TreeEntry(Tree, dir, subtree)];
        i := j;
      }
    }
    assert es[|es|..] == [];
    LevelNothing(env);
    AfterNothing(env, db.objects);
    var payload := SerializeTree(treeEntries);
    assert treeEntries + [] == treeEntries;
    AfterAppend(env, store, level.written, [payload]);
    AfterOne(env, db.objects, payload);
    id := db.Write(PackFormat.Obj(PackFormat.Tree, payload));
  }

  lemma AfterNothing(env: PackFormat.Env, store: Objects)
    ensures AfterTrees(env, store, []) == store
  {}

  method WriteTreeFromEntries(db: Memory, es: seq<Flat>) returns (id: Id)
    modifies db
    ensures id == RootId(db.env, SortPaths(es))
    ensures db.objects == AfterTrees(db.env, old(db.objects), Writes(db.env, SortPaths(es)))
  {
    id := Build(db, SortPaths(es));
  }
}
