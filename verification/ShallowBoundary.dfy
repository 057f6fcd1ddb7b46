/** Which commits a depth-limited walk marks as its boundary, and exactly when those are
    the right ones (src/walk.rs). */
module ShallowBoundary {
  import opened Graph
  import opened Walk
  import opened ShallowRun
  import Tables

  /** The boundary: included commits whose parents are cut off. */
  ghost predicate Boundary(store: Store, already: set<Id>, wants: seq<Id>, depth: nat, id: Id)
  {
    && IsCommit(store, id) && store[id].parents != [] && Within(store, already, wants, id, depth)
    && (id in already || !Within(store, already, wants, id, depth - 1))
  }

  /** Once the run is over, exactly the boundary is marked. */
  ghost predicate BoundaryExact(store: Store, already: set<Id>, wants: seq<Id>, depth: nat)
  {
    forall k: nat, id :: Finished(store, already, depth, wants, k) ==>
      (id in TurnAt(store, already, depth, wants, k).shallow <==> Boundary(store, already, wants, depth, id))
  }

  // --------------------------------------------------------- for every store and want

  /** The whole boundary is always marked. */
  lemma BoundaryMarked(store: Store, already: set<Id>, depth: nat, wants: seq<Id>, k: nat, id: Id)
    requires depth >= 1 && Finished(store, already, depth, wants, k) && Boundary(store, already, wants, depth, id)
    ensures id in TurnAt(store, already, depth, wants, k).shallow
  {
    hide TurnAt, LogAt, AllGenuine, InRank, Improving, Covered, Within, Projects, CostOf, End;
    FinishedTrace(store, already, depth, wants, k);
    var t, l := TurnAt(store, already, depth, wants, k), LogAt(store, already, depth, wants, k);
    BestIsLeast(store, already, depth, wants, k, id, depth);
    BestIsLeast(store, already, depth, wants, k, id, depth - 1);
    var a :| a in l.done && End(a) == id && CostOf(store, a) == t.best[id];
    assert Closes(store, already, depth, id, CostOf(store, a));
  }

  /** What is marked was reached at the limit exactly, or is where the client's history stops. */
  lemma MarkedAtLimit(store: Store, already: set<Id>, depth: nat, wants: seq<Id>, k: nat, id: Id)
    requires depth >= 1 && Finished(store, already, depth, wants, k)
    requires id in TurnAt(store, already, depth, wants, k).shallow
    ensures IsCommit(store, id) && store[id].parents != [] && Within(store, already, wants, id, depth)
    ensures id in already || AtDepth(store, already, wants, id, depth)
  {
    hide TurnAt, LogAt, InRank, Improving, Covered, BestHeld, Within, AtDepth, Projects, CostOf, End, Genuine;
    FinishedTrace(store, already, depth, wants, k);
    var l := LogAt(store, already, depth, wants, k);
    var a :| a in l.done && End(a) == id && Closes(store, already, depth, id, CostOf(store, a));
    VisitIsWithin(store, already, depth, wants, a);
  }

  lemma ShorterIsEarlier(wants: seq<Id>, a: Arrival, b: Arrival)
    requires |b.route| < |a.route| && b.origin < |wants|
    ensures Rank(wants, b) < Rank(wants, a)
  {
    Tables.RowBounds(|b.route|, |a.route|, |wants|);
  }

  /** A wrongly marked commit was first met at the limit, by a shortest route, and is nearer
      by a route that is no shorter. */
  lemma StaleVisits(store: Store, already: set<Id>, depth: nat, wants: seq<Id>, k: nat, id: Id)
    returns (a: Arrival, b: Arrival)
    requires depth >= 1 && Finished(store, already, depth, wants, k)
    requires id in TurnAt(store, already, depth, wants, k).shallow && !Boundary(store, already, wants, depth, id)
    ensures IsCommit(store, id) && store[id].parents != [] && id !in already
    ensures Genuine(store, already, depth, wants, a) && End(a) == id && CostOf(store, a) == depth
    ensures Genuine(store, already, depth, wants, b) && End(b) == id && CostOf(store, b) < depth
    ensures forall p :: Genuine(store, already, depth, wants, p) && End(p) == id ==> |p.route| >= |a.route|
  {
    hide TurnAt, LogAt, InRank, BestHeld, Projects, CostOf, End, Genuine, Covered, Rank;
    FinishedTrace(store, already, depth, wants, k);
    MarkedAtLimit(store, already, depth, wants, k, id);
    var l := LogAt(store, already, depth, wants, k);
    a :| a in l.done && End(a) == id && Closes(store, already, depth, id, CostOf(store, a));
    VisitIsWithin(store, already, depth, wants, a);
    b := NearerRoute(store, already, depth, wants, id);
    forall p | Genuine(store, already, depth, wants, p) && End(p) == id ensures |p.route| >= |a.route| {
      NoneShorter(store, already, depth, wants, l, a, p);
    }
  }

  lemma NearerRoute(store: Store, already: set<Id>, depth: nat, wants: seq<Id>, id: Id) returns (b: Arrival)
    requires Within(store, already, wants, id, depth - 1)
    ensures Genuine(store, already, depth, wants, b) && End(b) == id && CostOf(store, b) < depth
  {
    var p :| Arrives(store, already, wants, p, id) && Cost(store, p) <= depth - 1;
    var i :| 0 <= i < |wants| && wants[i] == p[0];
    b := Arrival(p, i);
  }

  lemma NoneShorter(store: Store, already: set<Id>, depth: nat, wants: seq<Id>, l: Log, a: Arrival, p: Arrival)
    requires AllGenuine(store, already, depth, wants, l) && Covered(store, already, depth, wants, l) && l.trail == []
    requires Improving(store, wants, l) && a in l.done && CostOf(store, a) == depth
    requires Genuine(store, already, depth, wants, p) && End(p) == End(a)
    ensures |p.route| >= |a.route|
  {
    hide AllGenuine, Covered, CostOf, End, Rank, Route;
    assert CostOf(store, p) <= depth by { VisitIsWithin(store, already, depth, wants, p); }
    AllDominated(store, already, depth, wants, l, p);
    var c :| c in l.done && End(c) == End(p) && CostOf(store, c) <= CostOf(store, p)
             && Rank(wants, c) <= Rank(wants, p);
    if |p.route| < |a.route| { ShorterIsEarlier(wants, a, p); }
  }

  // --------------------------------------------------------------- well-typed stores

  predicate IsTag(store: Store, id: Id) { id in store && store[id].Tag? }

  /** No commit names a tag as its parent. */
  ghost predicate Typed(store: Store)
  {
    forall c, p :: IsCommit(store, c) && p in store[c].parents ==> !IsTag(store, p)
  }

  /** `t` tags, then commits only. */
  predicate Shaped(store: Store, r: seq<Id>, t: nat)
  {
    t <= |r| && (forall i :: 0 <= i < t ==> IsTag(store, r[i])) && (forall i :: t <= i < |r| ==> IsCommit(store, r[i]))
  }

  lemma RouteTail(store: Store, already: set<Id>, r: seq<Id>, t: nat)
    requires Route(store, already, r) && t < |r|
    ensures Route(store, already, r[t..])
  {
    hide Steps;
    var q := r[t..];
    forall i | 0 <= i < |q| - 1 ensures q[i + 1] in Steps(store, already, q[i]) {
      assert q[i] == r[t + i] && q[i + 1] == r[(t + i) + 1];
    }
  }

  lemma RouteJoin(store: Store, already: set<Id>, r: seq<Id>, t: nat, q: seq<Id>)
    requires Route(store, already, r) && t < |r| && Route(store, already, q) && q[0] == r[t]
    ensures Route(store, already, r[..t] + q)
  {
    hide Steps;
    var p := r[..t] + q;
    forall i | 0 <= i < |p| - 1 ensures p[i + 1] in Steps(store, already, p[i]) {
      if i < t {
        assert p[i] == r[i] && p[i + 1] == r[i + 1];
      } else {
        assert p[i] == q[i - t] && p[i + 1] == q[(i - t) + 1];
      }
    }
  }

  /** A route that ends at a commit leaves the tags behind once and for all. */
  lemma {:induction false} RouteShape(store: Store, already: set<Id>, r: seq<Id>) returns (t: nat)
    requires Typed(store) && Route(store, already, r) && IsCommit(store, r[|r| - 1])
    ensures t < |r| && Shaped(store, r, t)
    decreases |r|
  {
    if |r| == 1 {
      t := 0;
    } else {
      RouteTail(store, already, r, 1);
      t := RouteShape(store, already, r[1..]);
      assert r[0 + 1] in Steps(store, already, r[0]);
      assert forall i :: 1 <= i < |r| ==> r[i] == r[1..][i - 1];
      if IsTag(store, r[0]) { t := t + 1; }
    }
  }

  lemma {:induction false} ShapedCost(store: Store, r: seq<Id>, t: nat)
    requires r != [] && Shaped(store, r, t)
    ensures Cost(store, r) == if t == |r| then 1 else |r| - t
  {
    if |r| > 1 { ShapedCost(store, r[..|r| - 1], if t == |r| then t - 1 else t); }
  }

  /** Depth counts the commits of a route, length the tags before them too. */
  lemma ArrivalShape(store: Store, already: set<Id>, depth: nat, wants: seq<Id>, a: Arrival) returns (t: nat)
    requires Typed(store) && Genuine(store, already, depth, wants, a) && IsCommit(store, End(a))
    ensures t < |a.route| && Shaped(store, a.route, t) && CostOf(store, a) == |a.route| - t
    ensures Arrives(store, already, [a.route[t]], a.route[t..], End(a)) && Cost(store, a.route[t..]) == |a.route| - t
  {
    hide Steps, Cost;
    t := RouteShape(store, already, a.route);
    ShapedCost(store, a.route, t);
    RouteTail(store, already, a.route, t);
    ShapedCost(store, a.route[t..], 0);
  }

  // ----------------------------------------------------------------- evenly tagged wants

  /** Exactly `n` tags lie before what `id` peels to. */
  predicate TagsDeep(store: Store, id: Id, n: nat)
    decreases n
  {
    if n == 0 then !IsTag(store, id) else IsTag(store, id) && TagsDeep(store, store[id].target, n - 1)
  }

  predicate EvenlyTagged(store: Store, wants: seq<Id>, n: nat)
  {
    forall i :: 0 <= i < |wants| ==> TagsDeep(store, wants[i], n)
  }

  lemma {:induction false} ShapeIsDepth(store: Store, already: set<Id>, r: seq<Id>, t: nat, n: nat)
    requires Route(store, already, r) && t < |r| && Shaped(store, r, t) && TagsDeep(store, r[0], n)
    ensures t == n
    decreases |r|
  {
    if t > 0 {
      RouteTail(store, already, r, 1);
      assert r[0 + 1] in Steps(store, already, r[0]);
      assert forall i :: 1 <= i < |r| ==> r[i] == r[1..][i - 1];
      ShapeIsDepth(store, already, r[1..], t - 1, n - 1);
    }
  }

  /** With equally long tag chains before all wants, none at all for commits, exactly the
      boundary is marked. */
  lemma EvenTagsExact(store: Store, already: set<Id>, wants: seq<Id>, depth: nat, n: nat)
    requires depth >= 1 && Typed(store) && EvenlyTagged(store, wants, n)
    ensures BoundaryExact(store, already, wants, depth)
  {
    hide TurnAt, Finished, Boundary, CostOf, Typed, Shaped, Route, Cost;
    forall k: nat, id | Finished(store, already, depth, wants, k)
      ensures id in TurnAt(store, already, depth, wants, k).shallow <==> Boundary(store, already, wants, depth, id)
    {
      if Boundary(store, already, wants, depth, id) {
        BoundaryMarked(store, already, depth, wants, k, id);
      } else if id in TurnAt(store, already, depth, wants, k).shallow {
        var a, b := StaleVisits(store, already, depth, wants, k, id);
        var s := ArrivalShape(store, already, depth, wants, a);
        var t := ArrivalShape(store, already, depth, wants, b);
        ShapeIsDepth(store, already, a.route, s, n);
        ShapeIsDepth(store, already, b.route, t, n);
      }
    }
  }

  // --------------------------------------------------------------- all wants and depths

  predicate Tagged(store: Store, y: Id) { exists g :: g in store && store[g].Tag? && store[g].target == y }

  /** `y` reaches `c` within depth `n`, `x` only deeper. */
  ghost predicate Nearer(store: Store, already: set<Id>, x: Id, y: Id, c: Id, n: nat)
  {
    && Within(store, already, [y], c, n) && !Within(store, already, [x], c, n)
    && exists m :: Within(store, already, [x], c, m)
  }

  /** A tagged commit `y` is nearer to `c` than another commit is, and `c` can be cut off. */
  ghost predicate Overtaken(store: Store, already: set<Id>, x: Id, y: Id, c: Id)
  {
    && IsCommit(store, x) && IsCommit(store, y) && Tagged(store, y)
    && IsCommit(store, c) && store[c].parents != [] && c !in already
    && exists n: nat :: Nearer(store, already, x, y, c, n)
  }

  /** A wrong mark comes from such a pair. */
  lemma StaleIsOvertaken(store: Store, already: set<Id>, depth: nat, wants: seq<Id>, k: nat, c: Id)
    requires depth >= 1 && Typed(store) && Finished(store, already, depth, wants, k)
    requires c in TurnAt(store, already, depth, wants, k).shallow && !Boundary(store, already, wants, depth, c)
    ensures exists x, y :: Overtaken(store, already, x, y, c)
  {
    hide TurnAt, Finished, Boundary, CostOf, Typed, Route, Cost, Within;
    var a, b := StaleVisits(store, already, depth, wants, k, c);
    var s := ArrivalShape(store, already, depth, wants, a);
    var t := ArrivalShape(store, already, depth, wants, b);
    var x, y, n := a.route[s], b.route[t], CostOf(store, b);
    assert |b.route| >= |a.route|;
    TagBefore(store, already, b.route, t);
    OneWant(store, already, x, a.route[s..], c);
    OneWant(store, already, y, b.route[t..], c);
    StillDeep(store, already, depth, wants, a, s, c, n);
    assert Nearer(store, already, x, y, c, n);
    assert Overtaken(store, already, x, y, c);
  }

  lemma OneWant(store: Store, already: set<Id>, x: Id, r: seq<Id>, c: Id)
    requires Arrives(store, already, [x], r, c)
    ensures Within(store, already, [x], c, Cost(store, r))
  {}

  lemma TagBefore(store: Store, already: set<Id>, r: seq<Id>, t: nat)
    requires Route(store, already, r) && 0 < t < |r| && Shaped(store, r, t)
    ensures Tagged(store, r[t])
  {
    assert r[(t - 1) + 1] in Steps(store, already, r[t - 1]);
  }

  /** From the first commit of a shortest route there is no way to its end below the limit. */
  lemma StillDeep(store: Store, already: set<Id>, depth: nat, wants: seq<Id>, a: Arrival, s: nat, c: Id, n: nat)
    requires Typed(store) && Genuine(store, already, depth, wants, a) && End(a) == c && n < depth && IsCommit(store, c)
    requires s < |a.route| && Shaped(store, a.route, s) && |a.route| - s == depth
    requires forall p :: Genuine(store, already, depth, wants, p) && End(p) == c ==> |p.route| >= |a.route|
    ensures !Within(store, already, [a.route[s]], c, n)
  {
    forall q | Arrives(store, already, [a.route[s]], q, c) ensures Cost(store, q) > n {
      if Cost(store, q) <= depth {
        var p := Arrival(a.route[..s] + q, a.origin);
        RerouteGenuine(store, already, depth, wants, a, s, c, q);
        assert |p.route| == s + |q|;
      }
    }
  }

  lemma RerouteGenuine(store: Store, already: set<Id>, depth: nat, wants: seq<Id>, a: Arrival, s: nat, c: Id,
                       q: seq<Id>)
    requires Typed(store) && Genuine(store, already, depth, wants, a) && IsCommit(store, c)
    requires s < |a.route| && Shaped(store, a.route, s)
    requires Arrives(store, already, [a.route[s]], q, c) && Cost(store, q) <= depth
    ensures
      var p := Arrival(a.route[..s] + q, a.origin);
      Genuine(store, already, depth, wants, p) && End(p) == c && Cost(store, q) == |q|
  {
    hide Steps, Cost;
    var r := a.route[..s] + q;
    RouteJoin(store, already, a.route, s, q);
    var t := RouteShape(store, already, q);
    assert IsCommit(store, q[0]);
    ShapedCost(store, q, 0);
    assert Shaped(store, r, s);
    ShapedCost(store, r, s);
  }

  // ------------------------------------------------- such a pair makes a wrong mark

  lemma {:induction false} LeastDepth(store: Store, already: set<Id>, y: Id, c: Id, n: nat) returns (least: nat)
    requires Within(store, already, [y], c, n)
    ensures 1 <= least <= n && Within(store, already, [y], c, least) && !Within(store, already, [y], c, least - 1)
  {
    if n > 0 && Within(store, already, [y], c, n - 1) {
      least := LeastDepth(store, already, y, c, n - 1);
    } else {
      least := n;
    }
  }

  /** From `x` towards `c` there is a commit just one step farther than `n`. */
  lemma {:induction false} Approach(store: Store, already: set<Id>, x: Id, c: Id, n: nat, r: seq<Id>) returns (near: Id)
    requires Typed(store) && IsCommit(store, x) && IsCommit(store, c) && Arrives(store, already, [x], r, c)
    requires !Within(store, already, [x], c, n) && Cost(store, r) > n
    ensures IsCommit(store, near) && !Within(store, already, [near], c, n) && Within(store, already, [near], c, n + 1)
    decreases |r|
  {
    hide Steps, Cost, Within;
    CommitRoute(store, already, x, c, r);
    if |r| == n + 1 {
      near := x;
      OneWant(store, already, x, r, c);
    } else {
      CommitTail(store, already, x, c, r);
      if Within(store, already, [r[1]], c, n) {
        near := x;
        StepBack(store, already, x, r[1], c, n);
      } else {
        near := Approach(store, already, r[1], c, n, r[1..]);
      }
    }
  }

  lemma CommitRoute(store: Store, already: set<Id>, x: Id, c: Id, r: seq<Id>)
    requires Typed(store) && IsCommit(store, x) && IsCommit(store, c) && Arrives(store, already, [x], r, c)
    ensures Shaped(store, r, 0) && Cost(store, r) == |r|
  {
    hide Steps, Cost;
    var t := RouteShape(store, already, r);
    assert IsCommit(store, r[0]);
    ShapedCost(store, r, 0);
  }

  lemma CommitTail(store: Store, already: set<Id>, x: Id, c: Id, r: seq<Id>)
    requires Arrives(store, already, [x], r, c) && |r| > 1 && Shaped(store, r, 0)
    ensures IsCommit(store, r[1]) && Arrives(store, already, [r[1]], r[1..], c) && Cost(store, r[1..]) == |r| - 1
    ensures r[1] in Steps(store, already, x)
  {
    hide Steps, Cost;
    RouteTail(store, already, r, 1);
    ShapedCost(store, r[1..], 0);
    assert r[0 + 1] in Steps(store, already, r[0]);
  }

  lemma StepBack(store: Store, already: set<Id>, x: Id, p: Id, c: Id, n: nat)
    requires Typed(store) && IsCommit(store, x) && IsCommit(store, p) && IsCommit(store, c)
    requires p in Steps(store, already, x) && Within(store, already, [p], c, n)
    ensures Within(store, already, [x], c, n + 1)
  {
    hide Steps, Cost;
    var q :| Arrives(store, already, [p], q, c) && Cost(store, q) <= n;
    CommitRoute(store, already, p, c, q);
    var r := [x] + q;
    Prepend(store, already, x, q);
    ShapedCost(store, r, 0);
    assert Arrives(store, already, [x], r, c);
  }

  lemma Prepend(store: Store, already: set<Id>, x: Id, q: seq<Id>)
    requires Route(store, already, q) && q[0] in Steps(store, already, x)
    ensures Route(store, already, [x] + q)
  {
    hide Steps;
    var r := [x] + q;
    forall i | 0 <= i < |r| - 1 ensures r[i + 1] in Steps(store, already, r[i]) {
      if i > 0 { assert r[i] == q[i - 1] && r[i + 1] == q[(i - 1) + 1]; }
    }
  }

  /** A tag in front costs nothing. */
  lemma ThroughTag(store: Store, already: set<Id>, x: Id, g: Id, y: Id, c: Id, n: nat)
    requires Typed(store) && IsTag(store, g) && store[g].target == y && IsCommit(store, y) && IsCommit(store, c)
    requires Within(store, already, [y], c, n)
    ensures Within(store, already, [x, g], c, n)
  {
    hide Cost;
    var q :| Arrives(store, already, [y], q, c) && Cost(store, q) <= n;
    CommitRoute(store, already, y, c, q);
    var r := [g] + q;
    Prepend(store, already, g, q);
    ShapedCost(store, r, 1);
    assert Arrives(store, already, [x, g], r, c);
  }

  /** Routes through the tag come after the untagged one of the same length. */
  lemma TagVisitLate(store: Store, already: set<Id>, x: Id, g: Id, y: Id, c: Id, n: nat, d: Arrival)
    requires Typed(store) && IsTag(store, g) && store[g].target == y && IsCommit(store, y) && IsCommit(store, c)
    requires !Within(store, already, [y], c, n - 1)
    requires Genuine(store, already, n + 1, [x, g], d) && d.origin == 1 && End(d) == c
    ensures Rank([x, g], d) >= 2 * (n + 1) + 1
  {
    hide Cost, Within;
    var t := ArrivalShape(store, already, n + 1, [x, g], d);
    assert d.route[0] == g;
    assert t > 0;
    assert d.route[0 + 1] in Steps(store, already, d.route[0]);
    assert d.route[1] == y;
    assert t == 1;
    NotNearer(store, already, y, c, d.route[1..], n);
  }

  lemma NotNearer(store: Store, already: set<Id>, y: Id, c: Id, r: seq<Id>, n: nat)
    requires !Within(store, already, [y], c, n - 1) && Arrives(store, already, [y], r, c)
    ensures Cost(store, r) >= n
  {}

  /** Wanting the farther commit first and the tag second, the walk marks `c` at the limit. */
  lemma WrongMark(store: Store, already: set<Id>, x: Id, g: Id, y: Id, c: Id, n: nat, k: nat)
    requires Typed(store) && IsCommit(store, x) && IsTag(store, g) && store[g].target == y && IsCommit(store, y)
    requires IsCommit(store, c) && store[c].parents != [] && n >= 1 && !Within(store, already, [y], c, n - 1)
    requires !Within(store, already, [x], c, n) && Within(store, already, [x], c, n + 1)
    requires Finished(store, already, n + 1, [x, g], k)
    ensures c in TurnAt(store, already, n + 1, [x, g], k).shallow
  {
    hide TurnAt, LogAt, Projects, InRank, BestHeld, Improving, Covered, Route, Cost, Rank, Typed, Within;
    var wants := [x, g];
    FinishedTrace(store, already, n + 1, wants, k);
    var l := LogAt(store, already, n + 1, wants, k);
    var p := FirstRoute(store, already, x, g, c, n);
    AllDominated(store, already, n + 1, wants, l, p);
    var d :| d in l.done && End(d) == End(p) && CostOf(store, d) <= CostOf(store, p)
             && Rank(wants, d) <= Rank(wants, p);
    FirstVisit(store, already, x, g, y, c, n, d);
    assert Closes(store, already, n + 1, c, CostOf(store, d));
  }

  lemma FirstRoute(store: Store, already: set<Id>, x: Id, g: Id, c: Id, n: nat) returns (p: Arrival)
    requires Typed(store) && IsCommit(store, x) && IsCommit(store, c)
    requires !Within(store, already, [x], c, n) && Within(store, already, [x], c, n + 1)
    ensures Genuine(store, already, n + 1, [x, g], p) && End(p) == c && CostOf(store, p) == n + 1
    ensures Rank([x, g], p) == 2 * (n + 1)
  {
    hide Cost;
    var r :| Arrives(store, already, [x], r, c) && Cost(store, r) <= n + 1;
    CommitRoute(store, already, x, c, r);
    p := Arrival(r, 0);
  }

  /** Only a visit at the limit can have come that early. */
  lemma FirstVisit(store: Store, already: set<Id>, x: Id, g: Id, y: Id, c: Id, n: nat, d: Arrival)
    requires Typed(store) && IsTag(store, g) && store[g].target == y && IsCommit(store, y) && IsCommit(store, c)
    requires !Within(store, already, [y], c, n - 1) && !Within(store, already, [x], c, n)
    requires Genuine(store, already, n + 1, [x, g], d) && End(d) == c && Rank([x, g], d) <= 2 * (n + 1)
    ensures CostOf(store, d) == n + 1
  {
    hide Cost, Rank;
    if d.origin == 0 {
      assert Arrives(store, already, [x], d.route, c);
    } else {
      TagVisitLate(store, already, x, g, y, c, n, d);
    }
  }

  lemma OvertakenBreaks(store: Store, already: set<Id>, x: Id, y: Id, c: Id) returns (wants: seq<Id>, depth: nat)
    requires Typed(store) && Overtaken(store, already, x, y, c)
    ensures depth >= 1 && !BoundaryExact(store, already, wants, depth)
  {
    hide TurnAt, Cost, Finished, Typed, Within, Route;
    var far: nat :| Nearer(store, already, x, y, c, far);
    var n := LeastDepth(store, already, y, c, far);
    WithinGrows(store, already, [x], c, n, far);
    var r := SomeRoute(store, already, x, c, n);
    var near := Approach(store, already, x, c, n, r);
    var g :| g in store && store[g].Tag? && store[g].target == y;
    wants, depth := [near, g], n + 1;
    var k := RunEnds(store, already, depth, wants, 0);
    WrongMark(store, already, near, g, y, c, n, k);
    ThroughTag(store, already, near, g, y, c, n);
    assert !Boundary(store, already, wants, depth, c);
  }

  lemma WithinGrows(store: Store, already: set<Id>, wants: seq<Id>, c: Id, n: nat, m: nat)
    requires n <= m && !Within(store, already, wants, c, m)
    ensures !Within(store, already, wants, c, n)
  {}

  lemma SomeRoute(store: Store, already: set<Id>, x: Id, c: Id, n: nat) returns (r: seq<Id>)
    requires !Within(store, already, [x], c, n) && exists m :: Within(store, already, [x], c, m)
    ensures Arrives(store, already, [x], r, c) && Cost(store, r) > n
  {
    var m :| Within(store, already, [x], c, m);
    r :| Arrives(store, already, [x], r, c) && Cost(store, r) <= m;
  }

  /** In a well-typed store the marks are exact for all wants and all depths if and only if
      no tagged commit is nearer than another commit to a commit that can be cut off. */
  lemma ExactForAllWants(store: Store, already: set<Id>)
    requires Typed(store)
    ensures (forall wants: seq<Id>, depth: nat :: depth >= 1 ==> BoundaryExact(store, already, wants, depth)) <==>
            !exists x, y, c :: Overtaken(store, already, x, y, c)
  {
    hide TurnAt, Finished, Boundary, Overtaken, Typed;
    if x, y, c :| Overtaken(store, already, x, y, c) {
      var wants, depth := OvertakenBreaks(store, already, x, y, c);
    } else {
      forall wants: seq<Id>, depth: nat | depth >= 1 ensures BoundaryExact(store, already, wants, depth) {
        NeverOvertakenExact(store, already, wants, depth);
      }
    }
  }

  lemma NeverOvertakenExact(store: Store, already: set<Id>, wants: seq<Id>, depth: nat)
    requires depth >= 1 && Typed(store) && !exists x, y, c :: Overtaken(store, already, x, y, c)
    ensures BoundaryExact(store, already, wants, depth)
  {
    hide TurnAt, Finished, Boundary, Overtaken, Typed;
    forall k: nat, id | Finished(store, already, depth, wants, k)
      ensures id in TurnAt(store, already, depth, wants, k).shallow <==> Boundary(store, already, wants, depth, id)
    {
      if Boundary(store, already, wants, depth, id) {
        BoundaryMarked(store, already, depth, wants, k, id);
      } else if id in TurnAt(store, already, depth, wants, k).shallow {
        StaleIsOvertaken(store, already, depth, wants, k, id);
      }
    }
  }

  // ------------------------------------------------------------------ a wrong mark

  /** A commit `1` whose parent `2` is also named by the tag `4`. */
  const TAGGED: Store := map[
    [1] := Commit([9], [[2]], 0), [2] := Commit([9], [[3]], 0), [4] := Tag([2])
  ]

  lemma TaggedDepths()
    ensures Typed(TAGGED) && Within(TAGGED, {}, [[2]], [2], 1) && Within(TAGGED, {}, [[1]], [2], 2)
    ensures !Within(TAGGED, {}, [[2]], [2], 0) && !Within(TAGGED, {}, [[1]], [2], 1)
  {
    assert Arrives(TAGGED, {}, [[2]], [[2]], [2]) && Cost(TAGGED, [[2]]) == 1;
    assert [[1], [2]][..1] == [[1]];
    assert Arrives(TAGGED, {}, [[1]], [[1], [2]], [2]) && Cost(TAGGED, [[1], [2]]) == 2;
    forall q | Arrives(TAGGED, {}, [[1]], q, [2]) ensures Cost(TAGGED, q) > 1 {
      CommitRoute(TAGGED, {}, [1], [2], q);
    }
  }

  /** Wanting `1` and the tag of its parent at depth two, the parent is met at the limit
      first and nearer later; it stays marked although its parents were walked. */
  lemma StaleBoundary(k: nat)
    requires Finished(TAGGED, {}, 2, [[1], [4]], k)
    ensures [2] in TurnAt(TAGGED, {}, 2, [[1], [4]], k).shallow && !Boundary(TAGGED, {}, [[1], [4]], 2, [2])
  {
    hide Within, TurnAt, Typed;
    TaggedDepths();
    WrongMark(TAGGED, {}, [1], [4], [2], [2], 1, k);
    ThroughTag(TAGGED, {}, [1], [4], [2], [2], 1);
  }
}
