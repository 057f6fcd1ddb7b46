/** Flattening nested trees to path maps (`flatten_tree`, src/walk.rs), and its being the
    inverse of building them. */
module Flatten {
  import opened Base
  import opened Trees
  import opened Odb
  import opened TreeBuilder
  import PackFormat
  import Order

  function ReadTree(idLen: nat, store: Objects, id: Id): (r: Result<seq<TreeEntry>>)
  {
    if id !in store || store[id].ty != PackFormat.Tree then Err else Parse(idLen, store[id].bytes)
  }

  predicate SubtreesRanked(idLen: nat, store: Objects, ts: seq<TreeEntry>, h: nat)
    decreases h, 1
  {
    forall i :: 0 <= i < |ts| && ts[i].mode.Tree? ==> Ranked(idLen, store, ts[i].id, h)
  }

  /** Subtrees nest less than `h` deep, so the recursion ends. */
  predicate Ranked(idLen: nat, store: Objects, id: Id, h: nat)
    decreases h, 0
  {
    h > 0 && (ReadTree(idLen, store, id).Ok? ==> SubtreesRanked(idLen, store, ReadTree(idLen, store, id).value, h - 1))
  }

  function JoinPath(prefix: Bytes, name: Bytes): (r: Bytes)
  { if prefix == [] then name else prefix + [SLASH] + name }

  /** The files below a tree in the order they are met. */
  function FlatTree(idLen: nat, store: Objects, id: Id, prefix: Bytes, h: nat): (r: Result<seq<Flat>>)
    requires Ranked(idLen, store, id, h)
    decreases h, 0
  {
    var ts :- ReadTree(idLen, store, id);
    FlatList(idLen, store, ts, prefix, h - 1)
  }

  function FlatList(idLen: nat, store: Objects, ts: seq<TreeEntry>, prefix: Bytes, h: nat): (r: Result<seq<Flat>>)
    requires SubtreesRanked(idLen, store, ts, h)
    decreases h, |ts|
  {
    if ts == [] then Ok([])
    else
      var path := JoinPath(prefix, ts[0].name);
      var here :-
        if ts[0].mode.Tree? then FlatTree(idLen, store, ts[0].id, path, h) else Ok([Flat(path, ts[0].mode, ts[0].id)]);
      var rest :- FlatList(idLen, store, ts[1..], prefix, h);
      Ok(here + rest)
  }

  // ------------------------------------------------------------ the map it fills

  type Listing = map<Bytes, (FileMode, Id)>

  function InsertAll(out: Listing, fs: seq<Flat>): (r: Listing)
    decreases |fs|
  {
    if fs == [] then out else InsertAll(out[fs[0].path := (fs[0].mode, fs[0].id)], fs[1..])
  }

  lemma {:induction false} InsertAppend(out: Listing, a: seq<Flat>, b: seq<Flat>)
    ensures InsertAll(out, a + b) == InsertAll(InsertAll(out, a), b)
    decreases |a|
  {
    if a == [] {
      assert a + b == b;
    } else {
      assert (a + b)[1..] == a[1..] + b;
      InsertAppend(out[a[0].path := (a[0].mode, a[0].id)], a[1..], b);
    }
  }

  method FlattenInto(idLen: nat, store: Objects, id: Id, prefix: Bytes, out: Listing, ghost h: nat)
    returns (r: Result<Listing>)
    requires Ranked(idLen, store, id, h)
    ensures
      var fs := FlatTree(idLen, store, id, prefix, h);
      r == if fs.Err? then Err else Ok(InsertAll(out, fs.value))
    decreases h
  {
    hide Parse, InsertAll;
    if id !in store || store[id].ty != PackFormat.Tree { return Err; }
    var ts := ParseTree(idLen, store[id].bytes);
    if ts.Err? { return Err; }
    var entries, acc, i := ts.value, out, 0;
    while i < |entries|
      invariant 0 <= i <= |entries| && SubtreesRanked(idLen, store, entries[i..], h - 1)
      invariant
        Filled(out, FlatList(idLen, store, entries, prefix, h - 1)) ==
        Filled(acc, FlatList(idLen, store, entries[i..], prefix, h - 1))
    {
      hide FlatList, Ranked;
      var e := entries[i];
      FillStep(idLen, store, entries[i..], prefix, h - 1, acc);
      assert entries[i..][1..] == entries[i + 1..];
      var path := if prefix == [] then e.name else prefix + [SLASH] + e.name;
      if e.mode.Tree? {
        var sub := FlattenInto(idLen, store, e.id, path, acc, h - 1);
        if sub.Err? { return Err; }
        acc := sub.value;
      } else {
        acc := acc[path := (e.mode, e.id)];
      }
      i := i + 1;
    }
    FillNothing(acc);
    return Ok(acc);
  }

  function Filled(out: Listing, fs: Result<seq<Flat>>): (r: Result<Listing>)
  { if fs.Err? then Err else Ok(InsertAll(out, fs.value)) }

  lemma FillNothing(out: Listing)
    ensures InsertAll(out, []) == out
  {}

  lemma FillStep(idLen: nat, store: Objects, ts: seq<TreeEntry>, prefix: Bytes, h: nat, out: Listing)
    requires SubtreesRanked(idLen, store, ts, h) && ts != []
    ensures ts[0].mode.Tree? ==> Ranked(idLen, store, ts[0].id, h)
    ensures SubtreesRanked(idLen, store, ts[1..], h)
    ensures
      var path := JoinPath(prefix, ts[0].name);
      var rest := FlatList(idLen, store, ts[1..], prefix, h);
      Filled(out, FlatList(idLen, store, ts, prefix, h)) ==
      if ts[0].mode.Tree? then
        var sub := FlatTree(idLen, store, ts[0].id, path, h);
        if sub.Err? then Err else Filled(InsertAll(out, sub.value), rest)
      else Filled(out[path := (ts[0].mode, ts[0].id)], rest)
  {
    var path := JoinPath(prefix, ts[0].name);
    var rest := FlatList(idLen, store, ts[1..], prefix, h);
    if rest.Ok? {
      if ts[0].mode.Tree? {
        var sub := FlatTree(idLen, store, ts[0].id, path, h);
        if sub.Ok? { InsertAppend(out, sub.value, rest.value); }
      } else {
        var one := [Flat(path, ts[0].mode, ts[0].id)];
        assert (one + rest.value)[1..] == rest.value;
      }
    }
  }

  // ------------------------------------------------------------------ the inverse

  function Prefixed(prefix: Bytes, es: seq<Flat>): (r: seq<Flat>)
    ensures |r| == |es|
    ensures forall i :: 0 <= i < |es| ==> r[i] == Flat(JoinPath(prefix, es[i].path), es[i].mode, es[i].id)
  { seq(|es|, i requires 0 <= i < |es| => Flat(JoinPath(prefix, es[i].path), es[i].mode, es[i].id)) }

  /** Every payload is stored under its own id. */
  predicate AllHeld(env: PackFormat.Env, store: Objects, ws: seq<Bytes>)
  {
    forall i :: 0 <= i < |ws| ==>
      HashTree(env, ws[i]) in store && store[HashTree(env, ws[i])] == PackFormat.Obj(PackFormat.Tree, ws[i])
  }

  lemma Nests(prefix: Bytes, dir: Bytes, es: seq<Flat>)
    requires dir != [] && forall i :: 0 <= i < |es| ==> Under(dir, es[i].path)
    ensures Prefixed(JoinPath(prefix, dir), Strip(es, dir)) == Prefixed(prefix, es)
  {
    var sub := Strip(es, dir);
    forall i | 0 <= i < |es| ensures JoinPath(JoinPath(prefix, dir), sub[i].path) == JoinPath(prefix, es[i].path) {
      assert es[i].path == dir + [SLASH] + sub[i].path;
      assert prefix + [SLASH] + dir + [SLASH] + sub[i].path == prefix + [SLASH] + (dir + [SLASH] + sub[i].path);
    }
  }

  /** A directory's own listing is as sound as the listing it was cut from. */
  lemma SubReady(idLen: nat, es: seq<Flat>)
    requires es != [] && Ascending(es) && Wanted(idLen, es) && !IsLeaf(es[0])
    ensures
      var sub := Strip(es[..FirstSpan(es)], DirOf(es));
      DirOf(es) != [] && Ascending(sub) && Wanted(idLen, sub)
  {
    hide Order.Less;
    var dir, k := DirOf(es), FirstSpan(es);
    var sub := Strip(es[..k], dir);
    assert WellFormed(es[0].path);
    forall i | 0 <= i < k ensures WellFormed(sub[i].path) {
      var p := es[i].path;
      assert p == dir + [SLASH] + sub[i].path;
      FindAfter(dir, SLASH, sub[i].path);
      assert WellFormed(p);
      assert p[|dir| + 1..] == sub[i].path;
    }
    forall i, j | 0 <= i < j < k ensures Order.Less(sub[i].path, sub[j].path) {
      Order.LessPrefix(dir + [SLASH], sub[i].path, sub[j].path);
      assert Order.Less(es[i].path, es[j].path);
    }
  }

  /** A tree that holds a built level flattens to the level's listing. */
  lemma TreeHeld(env: PackFormat.Env, store: Objects, es: seq<Flat>, prefix: Bytes, h: nat)
    requires env.Lawful() && Ascending(es) && Wanted(env.algo.RawLen(), es)
    requires AllHeld(env, store, [RootPayload(env, es)])
    requires SubtreesRanked(env.algo.RawLen(), store, BuildLevel(env, es).entries, h)
    ensures ReadTree(env.algo.RawLen(), store, RootId(env, es)) == Ok(BuildLevel(env, es).entries)
    ensures Ranked(env.algo.RawLen(), store, RootId(env, es), h + 1)
    ensures FlatTree(env.algo.RawLen(), store, RootId(env, es), prefix, h + 1) ==
            FlatList(env.algo.RawLen(), store, BuildLevel(env, es).entries, prefix, h)
  {
    hide FlatList, BuildLevel, Serialize, SubtreesRanked, Wanted, Parse, Canonical, Ascending;
    var ts := BuildLevel(env, es).entries;
    LevelGood(env, es);
    LevelSorted(env, es);
    TreeRoundTrip(env.algo.RawLen(), ts);
    CanonicalAlready(ts);
    assert [RootPayload(env, es)][0] == RootPayload(env, es);
  }

  lemma {:induction false} LevelInverts(env: PackFormat.Env, store: Objects, es: seq<Flat>, prefix: Bytes, h: nat)
    requires env.Lawful() && Ascending(es) && Wanted(env.algo.RawLen(), es) && h >= Weight(es)
    requires AllHeld(env, store, BuildLevel(env, es).written)
    ensures SubtreesRanked(env.algo.RawLen(), store, BuildLevel(env, es).entries, h)
    ensures FlatList(env.algo.RawLen(), store, BuildLevel(env, es).entries, prefix, h) == Ok(Prefixed(prefix, es))
    decreases Weight(es)
  {
    hide BuildLevel, FlatList, FlatTree, SubtreesRanked, Ranked, AllHeld, Weight, WellFormed, RootPayload, FirstSpan,
      JoinPath;
    var n := env.algo.RawLen();
    if es == [] {
      NothingFlat(env, store, prefix, h);
    } else {
      var k := FirstSpan(es);
      LevelParts(env, store, es);
      LevelInverts(env, store, es[k..], prefix, h);
      if !IsLeaf(es[0]) {
        var sub := Strip(es[..k], DirOf(es));
        SubReady(n, es);
        LevelInverts(env, store, sub, JoinPath(prefix, DirOf(es)), h - 1);
        TreeHeld(env, store, sub, JoinPath(prefix, DirOf(es)), h - 1);
        Nests(prefix, DirOf(es), es[..k]);
      }
      LevelJoins(env, store, es, prefix, h);
    }
  }

  /** The pieces of a level: its first entry and everything written for it. */
  lemma LevelParts(env: PackFormat.Env, store: Objects, es: seq<Flat>)
    requires es != [] && AllHeld(env, store, BuildLevel(env, es).written)
    ensures Weight(es[FirstSpan(es)..]) < Weight(es)
    ensures AllHeld(env, store, BuildLevel(env, es[FirstSpan(es)..]).written)
    ensures !IsLeaf(es[0]) ==>
      var sub := Strip(es[..FirstSpan(es)], DirOf(es));
      && Weight(sub) < Weight(es)
      && AllHeld(env, store, BuildLevel(env, sub).written)
      && AllHeld(env, store, [RootPayload(env, sub)])
  {
    hide Serialize, HashTree, Weight, Leading;
    GroupShrinks(es);
    var k := FirstSpan(es);
    var all, rest := BuildLevel(env, es).written, BuildLevel(env, es[k..]).written;
    if !IsLeaf(es[0]) {
      var sub := Strip(es[..k], DirOf(es));
      var below := BuildLevel(env, sub).written;
      assert all == below + [RootPayload(env, sub)] + rest;
      HeldSplit(env, store, below + [RootPayload(env, sub)], rest);
      HeldSplit(env, store, below, [RootPayload(env, sub)]);
    }
  }

  lemma HeldSplit(env: PackFormat.Env, store: Objects, a: seq<Bytes>, b: seq<Bytes>)
    requires AllHeld(env, store, a + b)
    ensures AllHeld(env, store, a) && AllHeld(env, store, b)
  {
    assert forall i :: 0 <= i < |a| ==> a[i] == (a + b)[i];
    assert forall i :: 0 <= i < |b| ==> b[i] == (a + b)[|a| + i];
  }

  /** The first entry's files and the rest's make up the level's. */
  lemma LevelJoins(env: PackFormat.Env, store: Objects, es: seq<Flat>, prefix: Bytes, h: nat)
    requires es != [] && h > 0
    requires
      var n, k := env.algo.RawLen(), FirstSpan(es);
      && !es[0].mode.Tree?
      && SubtreesRanked(n, store, BuildLevel(env, es[k..]).entries, h)
      && FlatList(n, store, BuildLevel(env, es[k..]).entries, prefix, h) == Ok(Prefixed(prefix, es[k..]))
      && (!IsLeaf(es[0]) ==>
            var sub := Strip(es[..k], DirOf(es));
            && Ranked(n, store, RootId(env, sub), h)
            && FlatTree(n, store, RootId(env, sub), JoinPath(prefix, DirOf(es)), h) == Ok(Prefixed(prefix, es[..k])))
    ensures SubtreesRanked(env.algo.RawLen(), store, BuildLevel(env, es).entries, h)
    ensures FlatList(env.algo.RawLen(), store, BuildLevel(env, es).entries, prefix, h) == Ok(Prefixed(prefix, es))
  {
    hide BuildLevel, RootId, Strip, FirstSpan, Ranked, FlatTree, FlatList, SubtreesRanked, JoinPath;
    var k := FirstSpan(es);
    FirstIs(env, es);
    assert Prefixed(prefix, es) == Prefixed(prefix, es[..k]) + Prefixed(prefix, es[k..]);
    if IsLeaf(es[0]) {
      assert Prefixed(prefix, es[..k]) == [Flat(JoinPath(prefix, es[0].path), es[0].mode, es[0].id)];
    }
    ListStep(env.algo.RawLen(), store, BuildLevel(env, es).entries, prefix, h,
             Prefixed(prefix, es[..k]), Prefixed(prefix, es[k..]));
  }

  /** The first tree entry of a level, and the level of what it does not stand for. */
  lemma FirstIs(env: PackFormat.Env, es: seq<Flat>)
    requires es != [] && !es[0].mode.Tree?
    ensures
      var ts, k := BuildLevel(env, es).entries, FirstSpan(es);
      && ts != [] && ts[1..] == BuildLevel(env, es[k..]).entries
      && (IsLeaf(es[0]) ==> k == 1 && ts[0] == TreeEntry(es[0].mode, es[0].path, es[0].id))
      && (!IsLeaf(es[0]) ==>
            && (forall i :: 0 <= i < k ==> Under(DirOf(es), es[..k][i].path))
            && ts[0] == TreeEntry(Tree, DirOf(es), RootId(env, Strip(es[..k], DirOf(es)))))
  {
    hide Serialize, HashTree, Weight, Leading;
  }

  /** The files of the first entry, then those of the others. */
  lemma ListStep(idLen: nat, store: Objects, ts: seq<TreeEntry>, prefix: Bytes, h: nat,
                 here: seq<Flat>, rest: seq<Flat>)
    requires ts != [] && SubtreesRanked(idLen, store, ts[1..], h)
    requires FlatList(idLen, store, ts[1..], prefix, h) == Ok(rest)
    requires
      var path := JoinPath(prefix, ts[0].name);
      if ts[0].mode.Tree? then
        Ranked(idLen, store, ts[0].id, h) && FlatTree(idLen, store, ts[0].id, path, h) == Ok(here)
      else here == [Flat(path, ts[0].mode, ts[0].id)]
    ensures SubtreesRanked(idLen, store, ts, h) && FlatList(idLen, store, ts, prefix, h) == Ok(here + rest)
  {
    hide Ranked, FlatTree, JoinPath;
    assert forall i :: 1 <= i < |ts| ==> ts[i] == ts[1..][i - 1];
  }

  lemma NothingFlat(env: PackFormat.Env, store: Objects, prefix: Bytes, h: nat)
    ensures SubtreesRanked(env.algo.RawLen(), store, BuildLevel(env, []).entries, h)
    ensures FlatList(env.algo.RawLen(), store, BuildLevel(env, []).entries, prefix, h) == Ok(Prefixed(prefix, []))
  {
    assert Prefixed(prefix, []) == [];
  }

  // --------------------------------------------------------------- main results

  /** No payload to be written shares its id with another object here. */
  predicate NoClash(env: PackFormat.Env, store: Objects, ws: seq<Bytes>)
  {
    && (forall i :: 0 <= i < |ws| && HashTree(env, ws[i]) in store ==>
          store[HashTree(env, ws[i])] == PackFormat.Obj(PackFormat.Tree, ws[i]))
    && (forall i, j :: 0 <= i < |ws| && 0 <= j < |ws| && HashTree(env, ws[i]) == HashTree(env, ws[j]) ==>
          ws[i] == ws[j])
  }

  lemma {:induction false} WritesHeld(env: PackFormat.Env, store: Objects, ws: seq<Bytes>)
    requires NoClash(env, store, ws)
    ensures AllHeld(env, AfterTrees(env, store, ws), ws)
    ensures forall id :: id in store ==> id in AfterTrees(env, store, ws) && AfterTrees(env, store, ws)[id] == store[id]
    decreases |ws|
  {
    if ws != [] {
      var next := Put(env, store, PackFormat.Obj(PackFormat.Tree, ws[0]));
      assert HashTree(env, ws[0]) in next && next[HashTree(env, ws[0])] == PackFormat.Obj(PackFormat.Tree, ws[0]);
      WritesHeld(env, next, ws[1..]);
      assert forall i :: 1 <= i < |ws| ==> ws[i] == ws[1..][i - 1];
    }
  }

  predicate DistinctPaths(es: seq<Flat>) { forall i, j :: 0 <= i < j < |es| ==> es[i].path != es[j].path }

  lemma SortedAscends(es: seq<Flat>)
    requires DistinctPaths(es)
    ensures Ascending(SortPaths(es))
  {
    var s := SortPaths(es);
    Order.PermutedDistinct(es, s);
    forall i, j | 0 <= i < j < |s| ensures Order.Less(s[i].path, s[j].path) {
      assert ByPath()(s[i], s[j]);
      assert s[i] in es && s[j] in es;
    }
  }

  lemma SortedWanted(idLen: nat, es: seq<Flat>)
    requires Wanted(idLen, es)
    ensures Wanted(idLen, SortPaths(es))
  {
    hide WellFormed;
    var s := SortPaths(es);
    forall i | 0 <= i < |s| ensures WellFormed(s[i].path) && !s[i].mode.Tree? && |s[i].id| == idLen {
      assert s[i] in es;
    }
  }

  /** A tree whose pieces are all stored flattens to the listing it was built from. */
  lemma TreeInverts(env: PackFormat.Env, store: Objects, es: seq<Flat>, h: nat)
    requires env.Lawful() && Ascending(es) && Wanted(env.algo.RawLen(), es) && h > Weight(es)
    requires AllHeld(env, store, Writes(env, es))
    ensures Ranked(env.algo.RawLen(), store, RootId(env, es), h)
    ensures FlatTree(env.algo.RawLen(), store, RootId(env, es), [], h) == Ok(es)
  {
    hide BuildLevel, FlatList, FlatTree, Ranked, SubtreesRanked, AllHeld, RootPayload, Weight, Wanted, Ascending;
    HeldSplit(env, store, BuildLevel(env, es).written, [RootPayload(env, es)]);
    LevelInverts(env, store, es, [], h - 1);
    TreeHeld(env, store, es, [], h - 1);
    assert Prefixed([], es) == es;
  }

  /** Flattening what `WriteTreeFromEntries` wrote gives back exactly the entries. */
  lemma FlattenBuild(env: PackFormat.Env, store: Objects, es: seq<Flat>, h: nat)
    requires env.Lawful() && DistinctPaths(es) && Wanted(env.algo.RawLen(), es) && h > Weight(SortPaths(es))
    requires NoClash(env, store, Writes(env, SortPaths(es)))
    ensures
      var s, n := SortPaths(es), env.algo.RawLen();
      var after := AfterTrees(env, store, Writes(env, s));
      && Ranked(n, after, RootId(env, s), h)
      && FlatTree(n, after, RootId(env, s), [], h) == Ok(s)
      && InsertAll(map[], s) == InsertAll(map[], es)
  {
    hide SortPaths, Wanted, Ascending, Writes, Ranked, FlatTree, InsertAll, NoClash, AllHeld;
    var s := SortPaths(es);
    SortedAscends(es);
    SortedWanted(env.algo.RawLen(), es);
    WritesHeld(env, store, Writes(env, s));
    TreeInverts(env, AfterTrees(env, store, Writes(env, s)), s, h);
    SameMembersSameListing(s, es);
  }

  // ------------------------------------------------------------ listings and order

  lemma {:induction false} ListingExact(out: Listing, fs: seq<Flat>)
    requires DistinctPaths(fs)
    ensures forall i :: 0 <= i < |fs| ==>
      fs[i].path in InsertAll(out, fs) && InsertAll(out, fs)[fs[i].path] == (fs[i].mode, fs[i].id)
    ensures forall p :: p in InsertAll(out, fs) ==> p in out || exists i :: 0 <= i < |fs| && fs[i].path == p
    ensures forall p :: p in out && (forall i :: 0 <= i < |fs| ==> fs[i].path != p) ==>
      p in InsertAll(out, fs) && InsertAll(out, fs)[p] == out[p]
    decreases |fs|
  {
    if fs != [] {
      ListingExact(out[fs[0].path := (fs[0].mode, fs[0].id)], fs[1..]);
      assert forall i :: 1 <= i < |fs| ==> fs[i] == fs[1..][i - 1];
    }
  }

  /** A listing holds an entry exactly when it maps its path to its mode and object. */
  lemma ListingMembers(fs: seq<Flat>)
    requires DistinctPaths(fs)
    ensures forall e :: e in fs <==> e.path in InsertAll(map[], fs) && InsertAll(map[], fs)[e.path] == (e.mode, e.id)
  {
    hide InsertAll;
    ListingExact(map[], fs);
    forall e: Flat | e.path in InsertAll(map[], fs) && InsertAll(map[], fs)[e.path] == (e.mode, e.id) ensures e in fs {
      var i :| 0 <= i < |fs| && fs[i].path == e.path;
      assert fs[i] == e;
    }
  }

  lemma SameMembersSameListing(a: seq<Flat>, b: seq<Flat>)
    requires DistinctPaths(b) && multiset(a) == multiset(b)
    ensures InsertAll(map[], a) == InsertAll(map[], b)
  {
    hide InsertAll;
    Order.SameElements(a, b);
    PathsStayDistinct(b, a);
    ListingExact(map[], a);
    ListingExact(map[], b);
    ListingMembers(a);
    ListingMembers(b);
    var x, y := InsertAll(map[], a), InsertAll(map[], b);
    forall p ensures p in x <==> p in y {
      if p in x {
        var i :| 0 <= i < |a| && a[i].path == p;
        assert a[i] in b;
      }
      if p in y {
        var i :| 0 <= i < |b| && b[i].path == p;
        assert b[i] in a;
      }
    }
    forall p | p in x ensures x[p] == y[p] {
      var i :| 0 <= i < |a| && a[i].path == p;
      assert a[i] in b;
    }
  }

  lemma PathsStayDistinct(a: seq<Flat>, b: seq<Flat>)
    requires DistinctPaths(a) && multiset(a) == multiset(b)
    ensures DistinctPaths(b)
  {
    Order.SameElements(a, b);
    Order.PermutedDistinct(a, b);
    forall i, j | 0 <= i < j < |b| ensures b[i].path != b[j].path {
      assert b[i] in a && b[j] in a;
      assert b[i] != b[j];
    }
  }

  lemma {:induction false} AscendingUnique(a: seq<Flat>, b: seq<Flat>)
    requires Ascending(a) && Ascending(b) && forall e :: e in a <==> e in b
    ensures a == b
  {
    assert b != [] ==> b[0] in b;
    if a != [] {
      assert a[0] in b && b != [];
      SameFirst(a, b);
      TailMembers(a);
      TailMembers(b);
      AscendingUnique(a[1..], b[1..]);
      assert a == [a[0]] + a[1..] && b == [b[0]] + b[1..];
    }
  }

  lemma SameFirst(a: seq<Flat>, b: seq<Flat>)
    requires a != [] && b != [] && Ascending(a) && Ascending(b) && forall e :: e in a <==> e in b
    ensures a[0] == b[0]
  {
    hide Order.Less;
    assert a[0] in b && b[0] in a;
    var i :| 0 <= i < |b| && b[i] == a[0];
    var j :| 0 <= j < |a| && a[j] == b[0];
    Order.LessTotal(a[0].path, b[0].path);
  }

  lemma TailMembers(a: seq<Flat>)
    requires a != [] && Ascending(a)
    ensures Ascending(a[1..]) && forall e :: e in a[1..] <==> e in a && e != a[0]
  {
    hide Order.Less;
    Order.LessIrreflexive(a[0].path);
    assert a == [a[0]] + a[1..];
    forall e | e in a[1..] ensures e != a[0] {
      var i :| 0 <= i < |a[1..]| && a[1..][i] == e;
      assert a[i + 1] == e && Order.Less(a[0].path, a[i + 1].path);
    }
  }

  /** Two entry lists with the same listing build the same objects and root, whatever
      their order; so rebuilding from a flattened tree gives its id again. */
  lemma SameListingSameTree(env: PackFormat.Env, a: seq<Flat>, b: seq<Flat>)
    requires DistinctPaths(a) && DistinctPaths(b) && InsertAll(map[], a) == InsertAll(map[], b)
    ensures SortPaths(a) == SortPaths(b)
    ensures RootId(env, SortPaths(a)) == RootId(env, SortPaths(b))
    ensures Writes(env, SortPaths(a)) == Writes(env, SortPaths(b))
  {
    hide SortPaths, InsertAll, RootId, Writes;
    ListingMembers(a);
    ListingMembers(b);
    SortedAscends(a);
    SortedAscends(b);
    AscendingUnique(SortPaths(a), SortPaths(b));
  }

  /** Equal root ids in one store mean equal listings. */
  lemma SameTreeSameListing(env: PackFormat.Env, store: Objects, a: seq<Flat>, b: seq<Flat>)
    requires env.Lawful() && Ascending(a) && Ascending(b) && Wanted(env.algo.RawLen(), a)
    requires Wanted(env.algo.RawLen(), b)
    requires AllHeld(env, store, Writes(env, a)) && AllHeld(env, store, Writes(env, b))
    requires RootId(env, a) == RootId(env, b)
    ensures a == b
  {
    hide RootId, Writes, AllHeld, Ranked, FlatTree, Ascending, Wanted, Weight;
    var h := Weight(a) + Weight(b) + 1;
    TreeInverts(env, store, a, h);
    TreeInverts(env, store, b, h);
  }
}
