/** Depth-limited history for a shallow fetch (src/walk.rs). */
module Shallow {
  import opened Base
  import opened Graph
  import opened Walk
  import opened ShallowRun
  import opened ShallowBoundary
  import opened ShallowMet

  predicate IsTree(store: Store, id: Id) { id in store && (store[id].Tree? || store[id].BadTree?) }

  /** A visited object that a visit cannot parse. */
  predicate Unreadable(store: Store, id: Id) { id in store && (store[id].BadCommit? || store[id].BadTag?) }

  /** Visited objects sent as they are: everything but trees. */
  ghost predicate Picked(store: Store, best: map<Id, nat>, id: Id)
  {
    id in best && id in store && !IsTree(store, id)
  }

  /** Trees whose whole content is sent: visited trees and the trees of visited commits. */
  ghost predicate TreeRoot(store: Store, best: map<Id, nat>, t: Id)
  {
    (t in best && IsTree(store, t)) || exists c :: c in best && IsCommit(store, c) && store[c].tree == t
  }

  /** The objects and tree roots collected so far are those of the visited objects. */
  ghost predicate Gathered(store: Store, best: map<Id, nat>, commits: set<Id>, trees: seq<Id>)
  {
    && (forall id :: id in commits <==> Picked(store, best, id))
    && (forall t :: t in trees <==> TreeRoot(store, best, t))
    && (forall id :: id in best ==> !Unreadable(store, id))
  }

  // -------------------------------------------------------------------- the walk

  datatype Bounded = Bounded(objects: set<Id>, shallow: set<Id>)

  /** Visits objects breadth-first, recording the least depth of each. */
  method Visit(store: Store, wants: seq<Id>, depth: nat, already: set<Id>)
    returns (ok: bool, commits: set<Id>, trees: seq<Id>, shallow: set<Id>, ghost best: map<Id, nat>, ghost turns: nat)
    requires depth >= 1
    ensures ok <==> forall id :: Within(store, already, wants, id, depth) ==> !Unreadable(store, id)
    ensures ok ==> TurnAt(store, already, depth, wants, turns) == Turn([], best, shallow)
    ensures ok ==> forall id, n: nat :: n <= depth ==>
      (Within(store, already, wants, id, n) <==> id in best && best[id] <= n)
    ensures ok ==> Gathered(store, best, commits, trees) && forall id :: id in best ==> best[id] <= depth
  {
    hide Follow, Gathered, Steps, TurnAt, Within, Everywhere, Slots;
    TurnMoves(store, already, depth, wants, 0);
    var known: map<Id, nat> := map[];
    commits, trees, shallow, best, turns := {}, [], {}, map[], 0;
    var queue: Queue := seq(|wants|, i requires 0 <= i < |wants| => (wants[i], 1));
    ghost var everywhere := Everywhere(store, already, wants);
    NothingGathered(store);
    while queue != []
      invariant Gathered(store, known, commits, trees)
      invariant TurnAt(store, already, depth, wants, turns) == Turn(queue, known, shallow)
      decreases |Slots(everywhere, depth, known)|, |queue|
    {
      var (id, d) := queue[0];
      assert queue[0] in queue;
      QueueReal(store, already, depth, wants, turns);
      TurnMoves(store, already, depth, wants, turns);
      turns := turns + 1;
      if id in known && known[id] <= d {
        queue := queue[1..];
        continue;
      }
      SlotsShrink(everywhere, depth, known, id, d);
      if id in store && (store[id].BadCommit? || store[id].BadTag?) {
        Deeper(store, already, wants, id, d, depth);
        return false, commits, trees, shallow, best, turns;
      }
      ghost var was, c0, t0 := known, commits, trees;
      known := known[id := d];
      if id in store {
        if store[id].Commit? {
          commits, trees := commits + {id}, trees + [store[id].tree];
          if (d >= depth || id in already) && store[id].parents != [] {
            shallow := shallow + {id};
          }
        } else if IsTree(store, id) {
          trees := trees + [id];
        } else {
          commits := commits + {id};
        }
      }
      VisitGathers(store, was, id, d, c0, t0, commits, trees);
      queue := queue[1..] + Follow(store, already, depth, id, d);
    }
    VisitedAll(store, already, depth, wants, turns, commits, trees);
    return true, commits, trees, shallow, known, turns;
  }

  lemma NothingGathered(store: Store)
    ensures Gathered(store, map[], {}, [])
  {}

  lemma Deeper(store: Store, already: set<Id>, wants: seq<Id>, id: Id, n: nat, m: nat)
    requires Within(store, already, wants, id, n) && n <= m
    ensures Within(store, already, wants, id, m)
  {}

  lemma VisitedAll(store: Store, already: set<Id>, depth: nat, wants: seq<Id>, k: nat, commits: set<Id>, trees: seq<Id>)
    requires depth >= 1 && Finished(store, already, depth, wants, k)
    requires Gathered(store, TurnAt(store, already, depth, wants, k).best, commits, trees)
    ensures
      var best := TurnAt(store, already, depth, wants, k).best;
      forall id, n: nat :: n <= depth ==> (Within(store, already, wants, id, n) <==> id in best && best[id] <= n)
    ensures forall id :: id in TurnAt(store, already, depth, wants, k).best ==>
      TurnAt(store, already, depth, wants, k).best[id] <= depth
    ensures forall id :: Within(store, already, wants, id, depth) ==> !Unreadable(store, id)
  {
    hide TurnAt, Within, Picked, TreeRoot;
    BestBounded(store, already, depth, wants, k);
    var best := TurnAt(store, already, depth, wants, k).best;
    forall id, n: nat | n <= depth ensures Within(store, already, wants, id, n) <==> id in best && best[id] <= n {
      BestIsLeast(store, already, depth, wants, k, id, n);
    }
  }

  lemma VisitGathers(store: Store, best: map<Id, nat>, id: Id, d: nat, c0: set<Id>, t0: seq<Id>, c: set<Id>, t: seq<Id>)
    requires Gathered(store, best, c0, t0) && !Unreadable(store, id)
    requires c == if id in store && !IsTree(store, id) then c0 + {id} else c0
    requires t == if IsCommit(store, id) then t0 + [store[id].tree] else if IsTree(store, id) then t0 + [id] else t0
    ensures Gathered(store, best[id := d], c, t)
  {
    var best' := best[id := d];
    forall x ensures x in t <==> TreeRoot(store, best', x) {
      if TreeRoot(store, best, x) && !(x in best && IsTree(store, x)) {
        var k :| k in best && IsCommit(store, k) && store[k].tree == x;
        assert k in best';
      }
      if IsCommit(store, id) && store[id].tree == x { assert id in best'; }
      if TreeRoot(store, best', x) && !(x in best' && IsTree(store, x)) {
        var k :| k in best' && IsCommit(store, k) && store[k].tree == x;
        assert k == id || k in best;
      }
    }
  }

  // ---------------------------------------------------------------- the result

  /** Everything at depth at most the limit is sent, trees with their whole content. */
  ghost predicate Sent(store: Store, already: set<Id>, wants: seq<Id>, depth: nat, id: Id)
  {
    || (id in store && !IsTree(store, id) && Within(store, already, wants, id, depth))
    || (exists t :: SentTree(store, already, wants, depth, t) && Reach(Refs(store), {t}, {}, id))
  }

  ghost predicate SentTree(store: Store, already: set<Id>, wants: seq<Id>, depth: nat, t: Id)
  {
    || (IsTree(store, t) && Within(store, already, wants, t, depth))
    || (exists c :: IsCommit(store, c) && store[c].tree == t && Within(store, already, wants, c, depth))
  }

  /** The same told by what each object names: the depths met are least, what is sent are the
      objects met and the least set holding what the trees met name, and what is marked was cut. */
  ghost predicate Truncated(store: Store, already: set<Id>, wants: seq<Id>, depth: nat, b: Bounded)
  {
    exists met, roots, held ::
      && Depths(store, already, wants, depth, met) && MarkedCut(store, already, depth, met, b.shallow)
      && TreesMet(store, met, roots) && Least(store, roots, {}, held) && SentAll(store, met, held, b.objects)
  }

  lemma GatheredIsMet(store: Store, already: set<Id>, wants: seq<Id>, depth: nat, best: map<Id, nat>,
                      commits: set<Id>, trees: seq<Id>, held: set<Id>)
    requires forall id :: id in best <==> Within(store, already, wants, id, depth)
    requires Gathered(store, best, commits, trees)
    ensures TreesMet(store, Met(store, already, wants, depth), AsSet(trees))
    ensures SentAll(store, Met(store, already, wants, depth), held, held + commits)
  {
    hide Within, Met;
    var met := Met(store, already, wants, depth);
    MetExactly(store, already, wants, depth);
    forall id ensures id in best <==> exists d: nat :: (id, d) in met {
      WithinIsMet(store, already, wants, depth, id, depth);
    }
    TreesAreMet(store, best, met, trees);
  }

  lemma TreesAreMet(store: Store, best: map<Id, nat>, met: set<(Id, nat)>, trees: seq<Id>)
    requires forall id :: id in best <==> exists d: nat :: (id, d) in met
    requires forall t :: t in trees <==> TreeRoot(store, best, t)
    ensures TreesMet(store, met, AsSet(trees))
  {
    forall t ensures t in trees <==>
      || (t in store && (store[t].Tree? || store[t].BadTree?) && exists d: nat :: (t, d) in met)
      || (exists c, d: nat :: (c, d) in met && c in store && store[c].Commit? && store[c].tree == t)
    {
      if c :| c in best && IsCommit(store, c) && store[c].tree == t { var d: nat :| (c, d) in met; }
    }
  }

  method ShallowObjectsToSend(store: Store, wants: seq<Id>, depth0: nat, already: set<Id>)
    returns (r: Result<Bounded>, ghost turns: nat)
    ensures r.Ok? <==> forall id :: Sent(store, already, wants, Max(depth0, 1), id) ==> !Corrupt(store, id)
    ensures r.Ok? ==> forall id :: id in r.value.objects <==> Sent(store, already, wants, Max(depth0, 1), id)
    ensures r.Ok? ==> Finished(store, already, Max(depth0, 1), wants, turns)
    ensures r.Ok? ==> r.value.shallow == TurnAt(store, already, Max(depth0, 1), wants, turns).shallow
    ensures r.Ok? ==> forall id :: Boundary(store, already, wants, Max(depth0, 1), id) ==> id in r.value.shallow
    ensures r.Ok? ==> forall id :: id in r.value.shallow ==>
      && IsCommit(store, id) && store[id].parents != [] && Within(store, already, wants, id, Max(depth0, 1))
      && (id in already || AtDepth(store, already, wants, id, Max(depth0, 1)))
    ensures r.Ok? && Typed(store) && (exists n :: EvenlyTagged(store, wants, n)) ==>
      forall id :: id in r.value.shallow <==> Boundary(store, already, wants, Max(depth0, 1), id)
    ensures r.Ok? ==> Truncated(store, already, wants, if depth0 == 0 then 1 else depth0, r.value)
  {
    hide Truncated, Least, TreesMet, SentAll, MarkedCut, Depths, Met, Within, AtDepth, Sent, Boundary, Gathered, TurnAt,
      EvenlyTagged, Typed, Reach;
    var depth := Max(depth0, 1);
    var ok, commits, trees, shallow;
    ghost var best;
    ok, commits, trees, shallow, best, turns := Visit(store, wants, depth, already);
    if !ok {
      UnreadableSent(store, already, wants, depth);
      return Err, turns;
    }
    var closed := CollectClosure(store, trees, {});
    SentIsGathered(store, already, wants, depth, best, commits, trees);
    if closed.Err? {
      return Err, turns;
    }
    var closure := closed.value;
    PickedSound(store, best, commits, trees);
    MarkedRight(store, already, depth, wants, turns);
    GatheredIsMet(store, already, wants, depth, best, commits, trees, closure);
    MetIsLeast(store, already, wants, depth);
    CutIsMarked(store, already, wants, depth, shallow);
    IsTruncated(store, already, wants, depth, Bounded(closure + commits, shallow), AsSet(trees), closure);
    return Ok(Bounded(closure + commits, shallow)), turns;
  }

  lemma IsTruncated(store: Store, already: set<Id>, wants: seq<Id>, depth: nat, b: Bounded, roots: set<Id>,
                    held: set<Id>)
    requires Depths(store, already, wants, depth, Met(store, already, wants, depth))
    requires MarkedCut(store, already, depth, Met(store, already, wants, depth), b.shallow)
    requires TreesMet(store, Met(store, already, wants, depth), roots) && Least(store, roots, {}, held)
    requires SentAll(store, Met(store, already, wants, depth), held, b.objects)
    ensures Truncated(store, already, wants, depth, b)
  {}

  lemma UnreadableSent(store: Store, already: set<Id>, wants: seq<Id>, depth: nat)
    requires !forall id :: Within(store, already, wants, id, depth) ==> !Unreadable(store, id)
    ensures exists id :: Sent(store, already, wants, depth, id) && Corrupt(store, id)
  {
    hide Within;
    var id :| Within(store, already, wants, id, depth) && Unreadable(store, id);
    assert Sent(store, already, wants, depth, id);
  }

  lemma PickedSound(store: Store, best: map<Id, nat>, commits: set<Id>, trees: seq<Id>)
    requires Gathered(store, best, commits, trees)
    ensures forall id :: id in commits ==> !Corrupt(store, id)
  {}

  /** What a finished run marks, for all the wants there are. */
  lemma MarkedRight(store: Store, already: set<Id>, depth: nat, wants: seq<Id>, k: nat)
    requires depth >= 1 && Finished(store, already, depth, wants, k)
    ensures
      var shallow := TurnAt(store, already, depth, wants, k).shallow;
      && (forall id :: Boundary(store, already, wants, depth, id) ==> id in shallow)
      && (forall id :: id in shallow ==>
            && IsCommit(store, id) && store[id].parents != [] && Within(store, already, wants, id, depth)
            && (id in already || AtDepth(store, already, wants, id, depth)))
      && (Typed(store) && (exists n :: EvenlyTagged(store, wants, n)) ==>
            forall id :: id in shallow <==> Boundary(store, already, wants, depth, id))
  {
    hide Within, AtDepth, Boundary, TurnAt, EvenlyTagged, Typed, Finished;
    var shallow := TurnAt(store, already, depth, wants, k).shallow;
    forall id | Boundary(store, already, wants, depth, id) ensures id in shallow {
      BoundaryMarked(store, already, depth, wants, k, id);
    }
    forall id | id in shallow
      ensures IsCommit(store, id) && store[id].parents != [] && Within(store, already, wants, id, depth)
      ensures id in already || AtDepth(store, already, wants, id, depth)
    {
      MarkedAtLimit(store, already, depth, wants, k, id);
    }
    if n :| Typed(store) && EvenlyTagged(store, wants, n) {
      EvenTagsExact(store, already, wants, depth, n);
    }
  }

  /** The closure of the tree roots and the picked objects are what is to be sent. */
  lemma SentIsGathered(store: Store, already: set<Id>, wants: seq<Id>, depth: nat, best: map<Id, nat>,
                       commits: set<Id>, trees: seq<Id>)
    requires forall id, n: nat :: n <= depth ==> (Within(store, already, wants, id, n) <==> id in best && best[id] <= n)
    requires Gathered(store, best, commits, trees)
    requires forall id :: id in best ==> best[id] <= depth
    ensures forall id :: Sent(store, already, wants, depth, id) <==>
      id in commits || Reach(Refs(store), AsSet(trees), {}, id)
  {
    hide Within, Reach;
    forall x ensures Within(store, already, wants, x, depth) <==> x in best {}
    forall t ensures t in trees <==> SentTree(store, already, wants, depth, t) {}
    forall id
      ensures Sent(store, already, wants, depth, id) <==> id in commits || Reach(Refs(store), AsSet(trees), {}, id)
    {
      OneRoot(Refs(store), AsSet(trees), id);
    }
  }

  lemma OneRoot(next: Succ, roots: set<Id>, id: Id)
    ensures Reach(next, roots, {}, id) <==> exists t :: t in roots && Reach(next, {t}, {}, id)
  {
    if Reach(next, roots, {}, id) {
      var p :| Leads(next, roots, {}, p, id);
      assert Leads(next, {p[0]}, {}, p, id);
    }
    if t :| t in roots && Reach(next, {t}, {}, id) {
      var p :| Leads(next, {t}, {}, p, id);
      assert Leads(next, roots, {}, p, id);
    }
  }
}
