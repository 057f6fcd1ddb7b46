/** What a depth-limited walk meets and at which depths, told by what each object names (src/walk.rs). */
module ShallowMet {
  import opened Graph
  import opened Walk
  import opened ShallowRun
  import opened ShallowBoundary

  /** `met` holds every want at depth 1, with a commit that is neither at the limit nor in the
      client's own boundary its parents one deeper, and with a tag its target at the same depth. */
  ghost predicate Spreads(store: Store, already: set<Id>, wants: seq<Id>, depth: nat, met: set<(Id, nat)>)
  {
    && (forall w :: w in wants ==> (w, 1) in met)
    && (forall id, d: nat :: (id, d) in met && id in store && store[id].Tag? ==> (store[id].target, d) in met)
    && forall id, d: nat, p :: (id, d) in met && id in store && store[id].Commit? && p in store[id].parents ==>
         id in already || d >= depth || (p, d + 1) in met
  }

  /** The least such set. */
  ghost predicate Depths(store: Store, already: set<Id>, wants: seq<Id>, depth: nat, met: set<(Id, nat)>)
  {
    && Spreads(store, already, wants, depth, met)
    && forall other :: Spreads(store, already, wants, depth, other) ==> met <= other
  }

  /** Every depth within the limit at which an object is met. */
  ghost function Met(store: Store, already: set<Id>, wants: seq<Id>, depth: nat): (r: set<(Id, nat)>)
  {
    set id, d | id in Everywhere(store, already, wants) && 0 <= d <= depth && AtDepth(store, already, wants, id, d) ::
      (id, d)
  }

  /** The set is finite and holds exactly those depths. */
  lemma MetExactly(store: Store, already: set<Id>, wants: seq<Id>, depth: nat)
    ensures forall id, d: nat :: (id, d) in Met(store, already, wants, depth) <==>
      d <= depth && AtDepth(store, already, wants, id, d)
  {
    hide Everywhere;
    forall id, d: nat | d <= depth && AtDepth(store, already, wants, id, d)
      ensures id in Everywhere(store, already, wants)
    {
      var p :| Arrives(store, already, wants, p, id) && Cost(store, p) == d;
      var i :| 0 <= i < |wants| && wants[i] == p[0];
      EndIsSomewhere(store, already, depth, wants, Arrival(p, i));
    }
  }

  lemma StepSpreads(store: Store, already: set<Id>, wants: seq<Id>, id: Id, d: nat, s: Id)
    requires AtDepth(store, already, wants, id, d) && s in Steps(store, already, id)
    ensures AtDepth(store, already, wants, s, d + StepCost(store, id))
  {
    hide Steps;
    var p :| Arrives(store, already, wants, p, id) && Cost(store, p) == d;
    RouteGrows(store, already, p, s);
    assert Arrives(store, already, wants, p + [s], s);
  }

  lemma MetSpreads(store: Store, already: set<Id>, wants: seq<Id>, depth: nat)
    requires depth >= 1
    ensures Spreads(store, already, wants, depth, Met(store, already, wants, depth))
  {
    hide AtDepth, Met;
    MetExactly(store, already, wants, depth);
    forall w | w in wants ensures AtDepth(store, already, wants, w, 1) { WantAtOne(store, already, wants, w); }
    forall id, d: nat, s | AtDepth(store, already, wants, id, d) && s in Steps(store, already, id)
      ensures AtDepth(store, already, wants, s, d + StepCost(store, id))
    {
      StepSpreads(store, already, wants, id, d, s);
    }
  }

  lemma WantAtOne(store: Store, already: set<Id>, wants: seq<Id>, w: Id)
    requires w in wants
    ensures AtDepth(store, already, wants, w, 1)
  {
    assert Arrives(store, already, wants, [w], w) && Cost(store, [w]) == 1;
  }

  /** A route within the limit ends inside every set that spreads. */
  lemma {:induction false} RouteSpreads(store: Store, already: set<Id>, wants: seq<Id>, depth: nat, met: set<(Id, nat)>,
                                        p: seq<Id>)
    requires Spreads(store, already, wants, depth, met)
    requires Route(store, already, p) && p[0] in wants && Cost(store, p) <= depth
    ensures (p[|p| - 1], Cost(store, p)) in met
    decreases |p|
  {
    if |p| > 1 {
      RouteShrinks(store, already, p);
      var q := p[..|p| - 1];
      RouteSpreads(store, already, wants, depth, met, q);
      assert (q[|q| - 1], Cost(store, q)) in met && p[|p| - 1] in Steps(store, already, q[|q| - 1]);
    }
  }

  lemma DepthSpreads(store: Store, already: set<Id>, wants: seq<Id>, depth: nat, met: set<(Id, nat)>, id: Id, d: nat)
    requires Spreads(store, already, wants, depth, met) && AtDepth(store, already, wants, id, d) && d <= depth
    ensures (id, d) in met
  {
    hide Spreads, Steps;
    var p :| Arrives(store, already, wants, p, id) && Cost(store, p) == d;
    RouteSpreads(store, already, wants, depth, met, p);
  }

  lemma PairsInside(a: set<(Id, nat)>, b: set<(Id, nat)>)
    requires forall id, d: nat :: (id, d) in a ==> (id, d) in b
    ensures a <= b
  {
    forall e | e in a ensures e in b { assert (e.0, e.1) in a; }
  }

  /** The depths of all routes within the limit are that least set. */
  lemma MetIsLeast(store: Store, already: set<Id>, wants: seq<Id>, depth: nat)
    requires depth >= 1
    ensures Depths(store, already, wants, depth, Met(store, already, wants, depth))
  {
    hide Spreads, Met, AtDepth;
    MetSpreads(store, already, wants, depth);
    MetExactly(store, already, wants, depth);
    forall other | Spreads(store, already, wants, depth, other) ensures Met(store, already, wants, depth) <= other {
      forall id, d: nat | (id, d) in Met(store, already, wants, depth) ensures (id, d) in other {
        DepthSpreads(store, already, wants, depth, other, id, d);
      }
      PairsInside(Met(store, already, wants, depth), other);
    }
  }

  // ------------------------------------------------------------ what is returned

  /** `roots` are the trees met and the trees of the commits met. */
  ghost predicate TreesMet(store: Store, met: set<(Id, nat)>, roots: set<Id>)
  {
    forall t :: t in roots <==>
      || (t in store && (store[t].Tree? || store[t].BadTree?) && exists d: nat :: (t, d) in met)
      || (exists c, d: nat :: (c, d) in met && c in store && store[c].Commit? && store[c].tree == t)
  }

  /** Sent are the commits, tags and blobs met and all that the trees hold. */
  ghost predicate SentAll(store: Store, met: set<(Id, nat)>, held: set<Id>, objects: set<Id>)
  {
    forall id :: id in objects <==>
      id in held ||
      (id in store && (store[id].Commit? || store[id].Tag? || store[id].Blob?) && exists d: nat :: (id, d) in met)
  }

  /** Marked are commits with parents that were met at the limit or in the client's own boundary,
      among them all that were not met nearer. */
  ghost predicate MarkedCut(store: Store, already: set<Id>, depth: nat, met: set<(Id, nat)>, shallow: set<Id>)
  {
    && (forall id :: id in shallow ==>
          && id in store && store[id].Commit? && store[id].parents != []
          && exists d: nat :: (id, d) in met && (d >= depth || id in already))
    && forall id, d: nat :: (id, d) in met && id in store && store[id].Commit? && store[id].parents != [] ==>
         (id in already || forall n: nat :: (id, n) in met ==> n >= depth) ==> id in shallow
  }

  lemma WithinIsMet(store: Store, already: set<Id>, wants: seq<Id>, depth: nat, id: Id, n: int)
    requires n <= depth
    ensures Within(store, already, wants, id, n) <==>
      exists d: nat :: (id, d) in Met(store, already, wants, depth) && d <= n
  {
    hide Met;
    MetExactly(store, already, wants, depth);
    if Within(store, already, wants, id, n) {
      var p :| Arrives(store, already, wants, p, id) && Cost(store, p) <= n;
      assert AtDepth(store, already, wants, id, Cost(store, p));
      assert (id, Cost(store, p)) in Met(store, already, wants, depth);
    }
    if d: nat :| (id, d) in Met(store, already, wants, depth) && d <= n {
      var p :| Arrives(store, already, wants, p, id) && Cost(store, p) == d;
    }
  }

  lemma CutIsMarked(store: Store, already: set<Id>, wants: seq<Id>, depth: nat, shallow: set<Id>)
    requires depth >= 1 && forall id :: Boundary(store, already, wants, depth, id) ==> id in shallow
    requires forall id :: id in shallow ==>
      && IsCommit(store, id) && store[id].parents != [] && Within(store, already, wants, id, depth)
      && (id in already || AtDepth(store, already, wants, id, depth))
    ensures MarkedCut(store, already, depth, Met(store, already, wants, depth), shallow)
  {
    hide Met, Within, AtDepth;
    var met := Met(store, already, wants, depth);
    MetExactly(store, already, wants, depth);
    forall id | id in shallow ensures exists d: nat :: (id, d) in met && (d >= depth || id in already) {
      WithinIsMet(store, already, wants, depth, id, depth);
      if id !in already { assert (id, depth) in met; }
    }
    forall id, d: nat | (id, d) in met && id in store && store[id].Commit? && store[id].parents != []
                        && (id in already || forall n: nat :: (id, n) in met ==> n >= depth)
      ensures id in shallow
    {
      WithinIsMet(store, already, wants, depth, id, depth);
      WithinIsMet(store, already, wants, depth, id, depth - 1);
      assert d <= depth;
      assert Boundary(store, already, wants, depth, id);
    }
  }
}
