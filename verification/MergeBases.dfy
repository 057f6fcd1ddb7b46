/** Best common ancestors of src/walk.rs. */
module MergeBases {
  import opened Base
  import opened Graph
  import opened Walk
  import Order

  function ParentsIn(store: Store, id: Id): (r: seq<Id>)
  {
    if id in store && store[id].Commit? then store[id].parents else []
  }

  function Parents(store: Store): Succ { id => ParentsIn(store, id) }

  /** `id` is `tip` or one of its ancestors. */
  ghost predicate Ancestor(store: Store, tip: Id, id: Id) { Reach(Parents(store), {tip}, {}, id) }

  /** `d` reaches `id` by one or more parent edges. */
  ghost predicate Descends(store: Store, d: Id, id: Id)
  {
    exists p :: p in ParentsIn(store, d) && Ancestor(store, p, id)
  }

  /** `s` holds `tip` and the parents of each commit it holds. */
  ghost predicate Upward(store: Store, tip: Id, s: set<Id>)
  {
    && tip in s
    && forall id, p :: id in s && id in store && store[id].Commit? && p in store[id].parents ==> p in s
  }

  /** The least such set. */
  ghost predicate Line(store: Store, tip: Id, s: set<Id>)
  {
    Upward(store, tip, s) && forall other :: Upward(store, tip, other) ==> s <= other
  }

  lemma AncestorsAreLine(store: Store, tip: Id, s: set<Id>)
    requires forall id :: id in s <==> Ancestor(store, tip, id)
    ensures Line(store, tip, s)
  {
    hide Ancestor;
    TipIsAncestor(store, tip);
    forall id, p | id in s && id in store && store[id].Commit? && p in store[id].parents ensures p in s {
      assert p in ParentsIn(store, id);
      ParentsAreAncestors(store, tip, id);
    }
    forall other | Upward(store, tip, other) ensures s <= other { UpwardHolds(store, tip, other); }
  }

  lemma UpwardHolds(store: Store, tip: Id, s: set<Id>)
    requires Upward(store, tip, s)
    ensures forall id :: Ancestor(store, tip, id) ==> id in s
  {
    hide Reach;
    assert forall id, p :: p in Parents(store)(id) ==> p in ParentsIn(store, id);
    ClosedHoldsReach(Parents(store), {tip}, {}, s);
  }

  /** Seen ids are ancestors, and all parents of those already taken off the queue are seen. */
  ghost predicate Climbing(store: Store, tip: Id, seen: set<Id>, queue: seq<Id>)
  {
    && tip in seen
    && (forall id :: id in queue ==> id in seen)
    && (forall id :: id in seen ==> Ancestor(store, tip, id))
    && (forall id, p :: id in seen && id !in queue && p in ParentsIn(store, id) ==> p in seen)
    && (forall id :: id in seen && id !in queue ==> id !in store || !store[id].BadCommit?)
  }

  /** The queue and seen-set after queueing the unseen members of `ids`. */
  ghost predicate Queued(seen0: set<Id>, queue0: seq<Id>, seen: set<Id>, queue: seq<Id>, ids: seq<Id>)
  {
    && seen0 <= seen
    && (forall x :: x in seen <==> x in seen0 || x in ids)
    && (forall x :: x in queue <==> x in queue0 || (x in seen && x !in seen0))
  }

  method QueueUnseen(seen0: set<Id>, queue0: seq<Id>, ids: seq<Id>, ghost universe: set<Id>)
    returns (seen: set<Id>, queue: seq<Id>)
    requires seen0 <= universe && forall x :: x in ids ==> x in universe
    ensures Queued(seen0, queue0, seen, queue, ids)
    ensures seen <= universe && |universe - seen| + |queue| == |universe - seen0| + |queue0|
  {
    seen, queue := seen0, queue0;
    for i := 0 to |ids|
      invariant Queued(seen0, queue0, seen, queue, ids[..i])
      invariant seen <= universe && |universe - seen| + |queue| == |universe - seen0| + |queue0|
    {
      assert ids[..i + 1] == ids[..i] + [ids[i]];
      if ids[i] !in seen {
        assert universe - (seen + {ids[i]}) == (universe - seen) - {ids[i]};
        seen := seen + {ids[i]};
        queue := queue + [ids[i]];
      }
    }
    assert ids[..|ids|] == ids;
  }

  lemma ClimbStep(store: Store, tip: Id, seen: set<Id>, queue: seq<Id>, seen': set<Id>, queue': seq<Id>)
    requires queue != [] && Climbing(store, tip, seen, queue)
    requires queue[0] in store ==> !store[queue[0]].BadCommit?
    requires Queued(seen, queue[1..], seen', queue', ParentsIn(store, queue[0]))
    ensures Climbing(store, tip, seen', queue')
  {
    hide Ancestor;
    var id, rest := queue[0], queue[1..];
    assert queue == [id] + rest;
    ParentsAreAncestors(store, tip, id);
  }

  method CommitAncestors(store: Store, tip: Id) returns (r: Result<set<Id>>)
    ensures r.Ok? ==> forall id :: id in r.value <==> Ancestor(store, tip, id)
    ensures r.Ok? <==> forall id :: Ancestor(store, tip, id) ==> id !in store || !store[id].BadCommit?
    ensures r.Ok? ==> Line(store, tip, r.value)
  {
    hide Ancestor, Queued, Universe, Line;
    var seen, queue := {tip}, [tip];
    ghost var universe := Universe(Parents(store), store.Keys, [tip]);
    TipIsAncestor(store, tip);
    ParentsInside(store, tip, tip);
    while queue != []
      invariant Climbing(store, tip, seen, queue) && seen <= universe
      decreases |universe - seen| + |queue|
    {
      var id := queue[0];
      assert id in seen;
      if id in store && store[id].BadCommit? {
        return Err;
      }
      ParentsInside(store, tip, id);
      var seen', queue' := QueueUnseen(seen, queue[1..], ParentsIn(store, id), universe);
      ClimbStep(store, tip, seen, queue, seen', queue');
      seen, queue := seen', queue';
    }
    ClimbEnds(store, tip, seen);
    AncestorsAreLine(store, tip, seen);
    return Ok(seen);
  }

  lemma TipIsAncestor(store: Store, tip: Id)
    ensures Ancestor(store, tip, tip)
  {
    ReachRoot(Parents(store), {tip}, {}, tip);
  }

  lemma ParentsInside(store: Store, tip: Id, id: Id)
    ensures forall p :: p in ParentsIn(store, id) ==> p in Universe(Parents(store), store.Keys, [tip])
    ensures tip in Universe(Parents(store), store.Keys, [tip])
  {
    assert Parents(store)(id) == ParentsIn(store, id);
  }

  lemma ParentsAreAncestors(store: Store, tip: Id, id: Id)
    requires Ancestor(store, tip, id)
    ensures forall p :: p in ParentsIn(store, id) ==> Ancestor(store, tip, p)
  {
    StepsReach(Parents(store), {tip}, {}, id);
    assert Parents(store)(id) == ParentsIn(store, id);
  }

  lemma ClimbEnds(store: Store, tip: Id, seen: set<Id>)
    requires Climbing(store, tip, seen, [])
    ensures forall id :: id in seen <==> Ancestor(store, tip, id)
  {
    hide Reach;
    assert Closed(Parents(store), {}, seen);
    ClosedHoldsReach(Parents(store), {tip}, {}, seen);
  }

  // -------------------------------------------------------------- merge bases

  ghost predicate Common(store: Store, a: Id, b: Id, id: Id)
  {
    Ancestor(store, a, id) && Ancestor(store, b, id)
  }

  /** A best base: present, common, and not properly reached from any common ancestor. */
  ghost predicate IsBase(store: Store, a: Id, b: Id, id: Id)
  {
    && id in store && Common(store, a, b, id)
    && forall d :: Common(store, a, b, d) ==> !Descends(store, d, id)
  }

  /** `bases` are the present members of `common` that are no parent of a commit in it. */
  ghost predicate AreBases(store: Store, common: set<Id>, bases: seq<Id>)
  {
    forall id :: id in bases <==>
      && id in common && id in store
      && forall c :: c in common && c in store && store[c].Commit? ==> id !in store[c].parents
  }

  method MergeBases(store: Store, a: Id, b: Id) returns (r: Result<seq<Id>>)
    ensures r.Ok? ==> Order.StrictlyIncreasing(r.value)
    ensures r.Ok? ==> forall id :: id in r.value <==> IsBase(store, a, b, id)
    ensures r.Ok? <==>
      forall id :: Ancestor(store, a, id) || Ancestor(store, b, id) ==> id !in store || !store[id].BadCommit?
    ensures r.Ok? ==>
      exists ofA, ofB :: Line(store, a, ofA) && Line(store, b, ofB) && AreBases(store, ofA * ofB, r.value)
  {
    hide Ancestor, IsBase, Line;
    var ofA :- CommitAncestors(store, a);
    var ofB :- CommitAncestors(store, b);
    var common := ofA * ofB;
    var ids := Order.Ascending(common);
    var redundant := Redundant(store, common, ids);
    var bases := Keep(store, ids, redundant);
    forall id ensures id in bases <==> IsBase(store, a, b, id) {
      SingleEdgeSuffices(store, a, b, common, redundant, id);
    }
    assert common == ofA * ofB;
    return Ok(bases);
  }

  /** The common ancestors that some common ancestor has as a parent. */
  method Redundant(store: Store, common: set<Id>, ids: seq<Id>) returns (r: set<Id>)
    requires forall x :: x in ids <==> x in common
    ensures forall p :: p in r <==> p in common && exists c :: c in common && p in ParentsIn(store, c)
  {
    r := {};
    for i := 0 to |ids|
      invariant forall p :: p in r <==> p in common && exists c :: c in ids[..i] && p in ParentsIn(store, c)
    {
      assert ids[..i + 1] == ids[..i] + [ids[i]];
      var parents := ParentsIn(store, ids[i]);
      r := r + set p | p in parents && p in common;
    }
    assert ids[..|ids|] == ids;
  }

  method Keep(store: Store, ids: seq<Id>, redundant: set<Id>) returns (bases: seq<Id>)
    requires Order.StrictlyIncreasing(ids)
    ensures Order.StrictlyIncreasing(bases)
    ensures forall x :: x in bases <==> x in ids && x !in redundant && x in store
  {
    bases := [];
    for i := 0 to |ids|
      invariant Order.StrictlyIncreasing(bases)
      invariant forall x :: x in bases <==> x in ids[..i] && x !in redundant && x in store
    {
      assert ids[..i + 1] == ids[..i] + [ids[i]];
      if ids[i] !in redundant && ids[i] in store {
        forall k | 0 <= k < |bases| ensures Order.Less(bases[k], ids[i]) {
          assert bases[k] in bases;
        }
        bases := bases + [ids[i]];
      }
    }
    assert ids[..|ids|] == ids;
  }

  /** Common ancestors are closed under parents, so being reached at all means being a parent. */
  lemma SingleEdgeSuffices(store: Store, a: Id, b: Id, common: set<Id>, redundant: set<Id>, id: Id)
    requires forall x :: x in common <==> Common(store, a, b, x)
    requires forall p :: p in redundant <==> p in common && exists c :: c in common && p in ParentsIn(store, c)
    ensures id in common && id !in redundant && id in store <==> IsBase(store, a, b, id)
  {
    hide Ancestor;
    if id in common {
      if id in redundant {
        var c :| c in common && id in ParentsIn(store, c);
        TipIsAncestor(store, id);
        assert Descends(store, c, id);
      }
      forall d | Common(store, a, b, d) && Descends(store, d, id) ensures id in redundant {
        var c := LastEdge(store, a, b, d, id);
      }
    }
  }

  lemma CommonParents(store: Store, a: Id, b: Id, c: Id, p: Id)
    requires Common(store, a, b, c) && p in ParentsIn(store, c)
    ensures Common(store, a, b, p)
  {
    ParentsAreAncestors(store, a, c);
    ParentsAreAncestors(store, b, c);
  }

  /** The last edge of a proper descent within the common ancestors. */
  lemma LastEdge(store: Store, a: Id, b: Id, d: Id, id: Id) returns (c: Id)
    requires Common(store, a, b, d) && Descends(store, d, id)
    ensures Common(store, a, b, c) && id in ParentsIn(store, c)
  {
    hide Common;
    var p :| p in ParentsIn(store, d) && Ancestor(store, p, id);
    var path :| Leads(Parents(store), {p}, {}, path, id);
    CommonParents(store, a, b, d, p);
    c := d;
    var k := 0;
    while k < |path| - 1
      invariant 0 <= k < |path| && Common(store, a, b, c) && Common(store, a, b, path[k])
      invariant path[k] in ParentsIn(store, c)
    {
      assert path[k + 1] in Parents(store)(path[k]);
      CommonParents(store, a, b, path[k], path[k + 1]);
      c := path[k];
      k := k + 1;
    }
  }

  // --------------------------------------------------- completeness of bases

  ghost predicate Acyclic(store: Store) { forall id :: !Descends(store, id, id) }

  /** In an acyclic history every present common ancestor hangs below a best base. */
  lemma BaseAbove(store: Store, a: Id, b: Id, common: set<Id>, id: Id) returns (base: Id)
    requires Acyclic(store) && (forall x :: x in common <==> Common(store, a, b, x))
    requires id in store && Common(store, a, b, id)
    ensures IsBase(store, a, b, base) && Ancestor(store, base, id)
  {
    hide Ancestor, Descends, Common;
    TipIsAncestor(store, id);
    base := Climb(store, a, b, common, {}, id, id);
  }

  /** Climbs from `cur` to common children not met before; `met` lie strictly below `cur`. */
  lemma Climb(store: Store, a: Id, b: Id, common: set<Id>, met: set<Id>, cur: Id, id: Id) returns (base: Id)
    requires Acyclic(store) && (forall x :: x in common <==> Common(store, a, b, x))
    requires cur in store && cur in common && Ancestor(store, cur, id)
    requires met <= common && forall m :: m in met ==> Descends(store, cur, m)
    ensures IsBase(store, a, b, base) && Ancestor(store, base, id)
    decreases |common - met|
  {
    hide Ancestor, Descends, Common;
    if IsBase(store, a, b, cur) {
      base := cur;
    } else {
      var d :| Common(store, a, b, d) && Descends(store, d, cur);
      var c := LastEdge(store, a, b, d, cur);
      ParentDescends(store, c, cur);
      ParentAbove(store, c, cur, id);
      forall m | m in met + {cur} ensures Descends(store, c, m) {
        if m != cur { DescendsThrough(store, c, cur, m); }
      }
      assert cur !in met;
      assert common - (met + {cur}) == (common - met) - {cur};
      base := Climb(store, a, b, common, met + {cur}, c, id);
    }
  }

  lemma ParentDescends(store: Store, c: Id, p: Id)
    requires p in ParentsIn(store, c)
    ensures Descends(store, c, p) && c in store
  {
    TipIsAncestor(store, p);
  }

  lemma AncestorThrough(store: Store, c: Id, p: Id, id: Id)
    requires Ancestor(store, c, p) && Ancestor(store, p, id)
    ensures Ancestor(store, c, id)
  {
    var path :| Leads(Parents(store), {p}, {}, path, id);
    Suffix(Parents(store), {c}, path, 0);
  }

  lemma ParentAbove(store: Store, c: Id, p: Id, id: Id)
    requires p in ParentsIn(store, c) && Ancestor(store, p, id)
    ensures Ancestor(store, c, id)
  {
    TipIsAncestor(store, c);
    ParentsAreAncestors(store, c, c);
    AncestorThrough(store, c, p, id);
  }

  lemma DescendsThrough(store: Store, c: Id, p: Id, m: Id)
    requires p in ParentsIn(store, c) && Descends(store, p, m)
    ensures Descends(store, c, m)
  {
    var q :| q in ParentsIn(store, p) && Ancestor(store, q, m);
    ParentAbove(store, p, q, m);
  }
}
