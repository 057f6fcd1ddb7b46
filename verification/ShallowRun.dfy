/** The breadth-first run of a depth-limited walk, turn by turn, and the order in which
    routes arrive (the loop of `shallow_objects_to_send`, src/walk.rs). */
module ShallowRun {
  import opened Graph
  import opened Walk

  // -------------------------------------------------------------------- routes

  /** Where a visit leads next: a commit to its parents unless the client's history
      already stops there, a tag to its target. */
  function Steps(store: Store, already: set<Id>, id: Id): (r: seq<Id>)
  {
    if id !in store then []
    else match store[id]
      case Commit(_, parents, _) => if id in already then [] else parents
      case Tag(target) => [target]
      case _ => []
  }

  /** Only the step from a commit to a parent goes one deeper. */
  function StepCost(store: Store, id: Id): (r: nat)
    ensures r <= 1
  { if IsCommit(store, id) then 1 else 0 }

  ghost predicate Route(store: Store, already: set<Id>, p: seq<Id>)
  {
    p != [] && forall i :: 0 <= i < |p| - 1 ==> p[i + 1] in Steps(store, already, p[i])
  }

  /** The depth at which `p` arrives; a want is at depth 1. */
  function Cost(store: Store, p: seq<Id>): (r: nat)
    requires p != []
    ensures r >= 1
  {
    if |p| == 1 then 1 else Cost(store, p[..|p| - 1]) + StepCost(store, p[|p| - 2])
  }

  ghost predicate Arrives(store: Store, already: set<Id>, wants: seq<Id>, p: seq<Id>, id: Id)
  {
    Route(store, already, p) && p[0] in wants && p[|p| - 1] == id
  }

  /** `id` is at depth at most `n`. */
  ghost predicate Within(store: Store, already: set<Id>, wants: seq<Id>, id: Id, n: int)
  {
    exists p :: Arrives(store, already, wants, p, id) && Cost(store, p) <= n
  }

  /** Some route reaches `id` at depth exactly `n`. */
  ghost predicate AtDepth(store: Store, already: set<Id>, wants: seq<Id>, id: Id, n: int)
  {
    exists p :: Arrives(store, already, wants, p, id) && Cost(store, p) == n
  }

  lemma RouteGrows(store: Store, already: set<Id>, p: seq<Id>, s: Id)
    requires Route(store, already, p) && s in Steps(store, already, p[|p| - 1])
    ensures Route(store, already, p + [s]) && Cost(store, p + [s]) == Cost(store, p) + StepCost(store, p[|p| - 1])
  {
    hide Steps;
    var q := p + [s];
    assert q[..|q| - 1] == p;
    forall i | 0 <= i < |q| - 1 ensures q[i + 1] in Steps(store, already, q[i]) {
      if i < |p| - 1 { assert q[i] == p[i] && q[i + 1] == p[i + 1]; }
    }
  }

  lemma RouteShrinks(store: Store, already: set<Id>, p: seq<Id>)
    requires Route(store, already, p) && |p| > 1
    ensures
      var q, s := p[..|p| - 1], p[|p| - 1];
      && Route(store, already, q) && s in Steps(store, already, q[|q| - 1]) && p == q + [s]
      && Cost(store, p) == Cost(store, q) + StepCost(store, q[|q| - 1])
  {
    hide Steps;
    var q := p[..|p| - 1];
    forall i | 0 <= i < |q| - 1 ensures q[i + 1] in Steps(store, already, q[i]) {
      assert q[i] == p[i] && q[i + 1] == p[i + 1];
    }
    assert p[(|p| - 2) + 1] in Steps(store, already, p[|p| - 2]);
  }

  // --------------------------------------------------------------------- turns

  type Queue = seq<(Id, nat)>

  /** The entries a visit at depth `d` queues. */
  function Follow(store: Store, already: set<Id>, depth: nat, id: Id, d: nat): (r: Queue)
    ensures forall e :: e in r ==> e.0 in Steps(store, already, id)
  {
    var steps := Steps(store, already, id);
    if d + StepCost(store, id) > depth then []
    else seq(|steps|, i requires 0 <= i < |steps| => (steps[i], d + StepCost(store, id)))
  }

  /** The state of the walk: what is queued, the least depths so far, the boundary so far. */
  datatype Turn = Turn(queue: Queue, best: map<Id, nat>, shallow: set<Id>)

  predicate Closes(store: Store, already: set<Id>, depth: nat, id: Id, d: nat)
  {
    IsCommit(store, id) && store[id].parents != [] && (d >= depth || id in already)
  }

  /** The entry at the head of the queue is no improvement. */
  predicate Stale(t: Turn)
    requires t.queue != []
  { t.queue[0].0 in t.best && t.best[t.queue[0].0] <= t.queue[0].1 }

  /** One round of the loop. */
  function NextTurn(store: Store, already: set<Id>, depth: nat, t: Turn): (r: Turn)
  {
    if t.queue == [] then t
    else
      var (id, d) := t.queue[0];
      if Stale(t) then Turn(t.queue[1..], t.best, t.shallow)
      else
        Turn(t.queue[1..] + Follow(store, already, depth, id, d), t.best[id := d],
             if Closes(store, already, depth, id, d) then t.shallow + {id} else t.shallow)
  }

  function FirstTurn(wants: seq<Id>): (r: Turn)
  { Turn(seq(|wants|, i requires 0 <= i < |wants| => (wants[i], 1)), map[], {}) }

  function TurnAt(store: Store, already: set<Id>, depth: nat, wants: seq<Id>, k: nat): (r: Turn)
  { if k == 0 then FirstTurn(wants) else NextTurn(store, already, depth, TurnAt(store, already, depth, wants, k - 1)) }

  lemma TurnMoves(store: Store, already: set<Id>, depth: nat, wants: seq<Id>, k: nat)
    ensures TurnAt(store, already, depth, wants, 0) == FirstTurn(wants)
    ensures TurnAt(store, already, depth, wants, k + 1) ==
      NextTurn(store, already, depth, TurnAt(store, already, depth, wants, k))
  {}

  /** Once the queue is empty nothing changes any more. */
  lemma {:induction false} TurnsEnd(store: Store, already: set<Id>, depth: nat, wants: seq<Id>, j: nat, k: nat)
    requires j <= k && TurnAt(store, already, depth, wants, j).queue == []
    ensures TurnAt(store, already, depth, wants, k) == TurnAt(store, already, depth, wants, j)
    decreases k
  {
    if j < k { TurnsEnd(store, already, depth, wants, j, k - 1); }
  }

  // ------------------------------------------------------------------- arrivals

  /** A visit with the route that leads to it and the position of the want it starts from. */
  datatype Arrival = Arrival(route: seq<Id>, origin: nat)

  function End(a: Arrival): (r: Id) { if a.route == [] then [] else a.route[|a.route| - 1] }

  function CostOf(store: Store, a: Arrival): (r: nat) { if a.route == [] then 0 else Cost(store, a.route) }

  /** First-in first-out order: by length of route, then by want. */
  function Rank(wants: seq<Id>, a: Arrival): (r: nat) { |a.route| * |wants| + a.origin }

  ghost predicate Genuine(store: Store, already: set<Id>, depth: nat, wants: seq<Id>, a: Arrival)
  {
    && a.origin < |wants| && Route(store, already, a.route) && a.route[0] == wants[a.origin]
    && Cost(store, a.route) <= depth
  }

  function Extended(a: Arrival, s: Id): (r: Arrival) { Arrival(a.route + [s], a.origin) }

  /** The arrivals a visit queues. */
  function Extends(store: Store, already: set<Id>, depth: nat, a: Arrival): (r: seq<Arrival>)
    ensures forall e :: e in r ==> exists s :: s in Steps(store, already, End(a)) && e == Extended(a, s)
    ensures CostOf(store, a) + StepCost(store, End(a)) <= depth ==>
      forall s :: s in Steps(store, already, End(a)) ==> Extended(a, s) in r
  {
    var steps := Steps(store, already, End(a));
    if CostOf(store, a) + StepCost(store, End(a)) > depth then []
    else
      var r := seq(|steps|, i requires 0 <= i < |steps| => Extended(a, steps[i]));
      assert forall i :: 0 <= i < |steps| ==> r[i] == Extended(a, steps[i]);
      r
  }

  lemma RankGrows(wants: seq<Id>, a: Arrival, s: Id)
    ensures Rank(wants, Extended(a, s)) == Rank(wants, a) + |wants| && End(Extended(a, s)) == s
  {}

  lemma ExtendsGenuine(store: Store, already: set<Id>, depth: nat, wants: seq<Id>, a: Arrival, e: Arrival)
    requires Genuine(store, already, depth, wants, a) && e in Extends(store, already, depth, a)
    ensures Genuine(store, already, depth, wants, e) && Rank(wants, e) == Rank(wants, a) + |wants|
    ensures CostOf(store, e) == CostOf(store, a) + StepCost(store, End(a)) && End(e) in Steps(store, already, End(a))
  {
    hide Steps, Rank;
    var s :| s in Steps(store, already, End(a)) && e == Extended(a, s);
    RouteGrows(store, already, a.route, s);
    RankGrows(wants, a, s);
  }

  /** What is queued and what was visited, as arrivals. */
  datatype Log = Log(trail: seq<Arrival>, done: seq<Arrival>)

  function NextLog(store: Store, already: set<Id>, depth: nat, t: Turn, l: Log): (r: Log)
  {
    if t.queue == [] || l.trail == [] then l
    else if Stale(t) then Log(l.trail[1..], l.done)
    else Log(l.trail[1..] + Extends(store, already, depth, l.trail[0]), l.done + [l.trail[0]])
  }

  function FirstLog(wants: seq<Id>): (r: Log)
    ensures |r.trail| == |wants| && forall i :: 0 <= i < |wants| ==> r.trail[i] == Arrival([wants[i]], i)
    ensures r.done == []
  { Log(seq(|wants|, i requires 0 <= i < |wants| => Arrival([wants[i]], i)), []) }

  function LogAt(store: Store, already: set<Id>, depth: nat, wants: seq<Id>, k: nat): (r: Log)
  {
    if k == 0 then FirstLog(wants)
    else
      var t, l := TurnAt(store, already, depth, wants, k - 1), LogAt(store, already, depth, wants, k - 1);
      NextLog(store, already, depth, t, l)
  }

  // ------------------------------------------------------------- what a run keeps

  /** The trail is the queue with its routes. */
  predicate Projects(store: Store, t: Turn, l: Log)
  {
    && |t.queue| == |l.trail|
    && forall i :: 0 <= i < |l.trail| ==> t.queue[i] == (End(l.trail[i]), CostOf(store, l.trail[i]))
  }

  ghost predicate AllGenuine(store: Store, already: set<Id>, depth: nat, wants: seq<Id>, l: Log)
  {
    && (forall a :: a in l.trail ==> Genuine(store, already, depth, wants, a))
    && (forall a :: a in l.done ==> Genuine(store, already, depth, wants, a))
  }

  /** The trail is in rank order within one step, after everything visited. */
  ghost predicate InRank(wants: seq<Id>, l: Log)
  {
    && Spread(wants, l.trail)
    && (forall a, b :: a in l.done && b in l.trail ==> Rank(wants, a) <= Rank(wants, b))
  }

  /** Recorded depths are those of visits, and no visit was nearer. */
  ghost predicate BestHeld(store: Store, t: Turn, l: Log)
  {
    && (forall id :: id in t.best ==> exists a :: a in l.done && End(a) == id && CostOf(store, a) == t.best[id])
    && (forall a :: a in l.done ==> End(a) in t.best && t.best[End(a)] <= CostOf(store, a))
  }

  /** Of two visits to one object the later is nearer. */
  ghost predicate Improving(store: Store, wants: seq<Id>, l: Log)
  {
    forall a, b :: a in l.done && b in l.done && End(a) == End(b) && Rank(wants, b) < Rank(wants, a) ==>
      CostOf(store, a) < CostOf(store, b)
  }

  /** A visit reached the end of `e` no later and no deeper. */
  ghost predicate Dominated(store: Store, wants: seq<Id>, done: seq<Arrival>, e: Arrival)
  {
    exists a ::
      a in done && End(a) == End(e) && CostOf(store, a) <= CostOf(store, e) && Rank(wants, a) <= Rank(wants, e)
  }

  ghost predicate Due(store: Store, wants: seq<Id>, l: Log, e: Arrival)
  {
    e in l.trail || Dominated(store, wants, l.done, e)
  }

  /** Every want and every step from a visit is queued or was met. */
  ghost predicate Covered(store: Store, already: set<Id>, depth: nat, wants: seq<Id>, l: Log)
  {
    && (forall i :: 0 <= i < |wants| ==> Due(store, wants, l, Arrival([wants[i]], i)))
    && (forall a, e :: a in l.done && e in Extends(store, already, depth, a) ==> Due(store, wants, l, e))
  }

  /** The boundary is what some visit closed. */
  ghost predicate Marked(store: Store, already: set<Id>, depth: nat, t: Turn, l: Log)
  {
    forall id :: id in t.shallow <==>
      exists a :: a in l.done && End(a) == id && Closes(store, already, depth, id, CostOf(store, a))
  }

  ghost predicate Traced(store: Store, already: set<Id>, depth: nat, wants: seq<Id>, t: Turn, l: Log)
  {
    && Projects(store, t, l) && AllGenuine(store, already, depth, wants, l) && InRank(wants, l) && BestHeld(store, t, l)
    && Improving(store, wants, l) && Covered(store, already, depth, wants, l) && Marked(store, already, depth, t, l)
  }

  lemma Starts(store: Store, already: set<Id>, depth: nat, wants: seq<Id>)
    requires depth >= 1
    ensures Traced(store, already, depth, wants, FirstTurn(wants), FirstLog(wants))
  {
    hide Steps;
    var l := FirstLog(wants);
    forall i | 0 <= i < |wants| ensures Due(store, wants, l, Arrival([wants[i]], i)) { assert l.trail[i] in l.trail; }
  }

  lemma ProjectsStep(store: Store, already: set<Id>, depth: nat, wants: seq<Id>, t: Turn, l: Log)
    requires t.queue != [] && Projects(store, t, l) && AllGenuine(store, already, depth, wants, l)
    ensures Projects(store, NextTurn(store, already, depth, t), NextLog(store, already, depth, t, l))
  {
    hide Closes, Extends, Follow, CostOf, End, Genuine;
    assert l.trail[0] in l.trail;
    FollowMatches(store, already, depth, wants, l.trail[0]);
  }

  lemma FollowMatches(store: Store, already: set<Id>, depth: nat, wants: seq<Id>, a: Arrival)
    requires Genuine(store, already, depth, wants, a)
    ensures
      var x, f := Extends(store, already, depth, a), Follow(store, already, depth, End(a), CostOf(store, a));
      |x| == |f| && forall i :: 0 <= i < |x| ==> f[i] == (End(x[i]), CostOf(store, x[i]))
  {
    hide Steps, Rank, Genuine, CostOf;
    var x, f := Extends(store, already, depth, a), Follow(store, already, depth, End(a), CostOf(store, a));
    forall i | 0 <= i < |x| ensures f[i] == (End(x[i]), CostOf(store, x[i])) {
      assert x[i] in x;
      ExtendsGenuine(store, already, depth, wants, a, x[i]);
    }
  }

  lemma GenuineStep(store: Store, already: set<Id>, depth: nat, wants: seq<Id>, t: Turn, l: Log)
    requires t.queue != [] && Projects(store, t, l) && AllGenuine(store, already, depth, wants, l)
    ensures AllGenuine(store, already, depth, wants, NextLog(store, already, depth, t, l))
  {
    hide Extends, Genuine, Stale;
    var a := l.trail[0];
    assert a in l.trail;
    forall e | e in Extends(store, already, depth, a) ensures Genuine(store, already, depth, wants, e) {
      ExtendsGenuine(store, already, depth, wants, a, e);
    }
  }

  lemma RankStep(store: Store, already: set<Id>, depth: nat, wants: seq<Id>, t: Turn, l: Log)
    requires t.queue != [] && Projects(store, t, l) && AllGenuine(store, already, depth, wants, l) && InRank(wants, l)
    ensures InRank(wants, NextLog(store, already, depth, t, l))
  {
    hide Extends, Genuine, Stale, Rank, Spread;
    var a := l.trail[0];
    var x := Extends(store, already, depth, a);
    assert a in l.trail;
    forall e | e in x ensures Rank(wants, e) == Rank(wants, a) + |wants| {
      ExtendsGenuine(store, already, depth, wants, a, e);
    }
    RanksJoin(wants, l.trail, x);
    RanksJoin(wants, l.trail, []);
    assert l.trail[1..] + [] == l.trail[1..];
  }

  ghost predicate Spread(wants: seq<Id>, trail: seq<Arrival>)
  {
    forall i, j :: 0 <= i <= j < |trail| ==>
      Rank(wants, trail[i]) <= Rank(wants, trail[j]) <= Rank(wants, trail[i]) + |wants|
  }

  /** Popping the head and queueing one step after it keeps the order. */
  lemma RanksJoin(wants: seq<Id>, trail: seq<Arrival>, x: seq<Arrival>)
    requires trail != [] && Spread(wants, trail) && forall e :: e in x ==>
      Rank(wants, e) == Rank(wants, trail[0]) + |wants|
    ensures Spread(wants, trail[1..] + x) && forall b :: b in trail[1..] + x ==> Rank(wants, trail[0]) <= Rank(wants, b)
  {
    hide Rank;
    var rest := trail[1..];
    var all := rest + x;
    forall i | 0 <= i < |all| ensures Rank(wants, trail[0]) <= Rank(wants, all[i]) <= Rank(wants, trail[0]) + |wants| {
      if i < |rest| { assert all[i] == trail[i + 1]; } else { assert all[i] in x; }
    }
    forall i, j | 0 <= i <= j < |all|
      ensures Rank(wants, all[i]) <= Rank(wants, all[j]) <= Rank(wants, all[i]) + |wants|
    {
      if j < |rest| { assert all[i] == trail[i + 1] && all[j] == trail[j + 1]; } else { assert all[j] in x; }
    }
  }

  lemma BestStep(store: Store, already: set<Id>, depth: nat, wants: seq<Id>, t: Turn, l: Log)
    requires t.queue != [] && Projects(store, t, l) && BestHeld(store, t, l)
    ensures BestHeld(store, NextTurn(store, already, depth, t), NextLog(store, already, depth, t, l))
  {
    hide Extends, Follow, Closes, CostOf, End;
    if !Stale(t) {
      var t', l' := NextTurn(store, already, depth, t), NextLog(store, already, depth, t, l);
      var a := l.trail[0];
      forall id | id in t'.best ensures exists b :: b in l'.done && End(b) == id && CostOf(store, b) == t'.best[id] {
        if id == End(a) {
          assert a in l'.done;
        } else {
          var b :| b in l.done && End(b) == id && CostOf(store, b) == t.best[id];
          assert b in l'.done;
        }
      }
    }
  }

  lemma ImprovingStep(store: Store, already: set<Id>, depth: nat, wants: seq<Id>, t: Turn, l: Log)
    requires t.queue != [] && Projects(store, t, l) && BestHeld(store, t, l) && InRank(wants, l)
    requires Improving(store, wants, l)
    ensures Improving(store, wants, NextLog(store, already, depth, t, l))
  {
    hide Extends, CostOf, End, Rank;
    var a := l.trail[0];
    assert a in l.trail;
  }

  lemma CoveredStep(store: Store, already: set<Id>, depth: nat, wants: seq<Id>, t: Turn, l: Log)
    requires t.queue != [] && Projects(store, t, l) && BestHeld(store, t, l) && InRank(wants, l)
    requires Covered(store, already, depth, wants, l)
    ensures Covered(store, already, depth, wants, NextLog(store, already, depth, t, l))
  {
    hide Extends, CostOf, End, Rank, Dominated;
    var l' := NextLog(store, already, depth, t, l);
    forall e | Due(store, wants, l, e) ensures Due(store, wants, l', e) {
      DueStays(store, already, depth, wants, t, l, e);
    }
    if !Stale(t) {
      var a := l.trail[0];
      forall b, e | b in l'.done && e in Extends(store, already, depth, b) ensures Due(store, wants, l', e) {
        if b != a { assert b in l.done; }
      }
    }
  }

  lemma DueStays(store: Store, already: set<Id>, depth: nat, wants: seq<Id>, t: Turn, l: Log, e: Arrival)
    requires t.queue != [] && Projects(store, t, l) && BestHeld(store, t, l) && InRank(wants, l)
    requires Due(store, wants, l, e)
    ensures Due(store, wants, NextLog(store, already, depth, t, l), e)
  {
    hide Extends, CostOf, End, Rank;
    var a, l' := l.trail[0], NextLog(store, already, depth, t, l);
    assert l.trail == [a] + l.trail[1..] && a in l.trail;
    if e == a {
      if Stale(t) {
        var b :| b in l.done && End(b) == End(a) && CostOf(store, b) == t.best[End(a)];
        assert b in l'.done;
      } else {
        assert a in l'.done;
      }
    } else if Dominated(store, wants, l.done, e) {
      var b :| b in l.done && End(b) == End(e) && CostOf(store, b) <= CostOf(store, e)
               && Rank(wants, b) <= Rank(wants, e);
      assert b in l'.done;
    } else {
      assert e in l.trail[1..];
    }
  }

  lemma MarkedStep(store: Store, already: set<Id>, depth: nat, wants: seq<Id>, t: Turn, l: Log)
    requires t.queue != [] && Projects(store, t, l) && Marked(store, already, depth, t, l)
    ensures Marked(store, already, depth, NextTurn(store, already, depth, t), NextLog(store, already, depth, t, l))
  {
    hide Extends, Follow, CostOf, End, Closes;
    if !Stale(t) {
      var t', l' := NextTurn(store, already, depth, t), NextLog(store, already, depth, t, l);
      var a := l.trail[0];
      assert a in l'.done && forall b :: b in l'.done <==> b == a || b in l.done;
    }
  }

  lemma {:induction false} RunTraced(store: Store, already: set<Id>, depth: nat, wants: seq<Id>, k: nat)
    requires depth >= 1
    ensures
      var t, l := TurnAt(store, already, depth, wants, k), LogAt(store, already, depth, wants, k);
      Traced(store, already, depth, wants, t, l)
  {
    hide Projects, AllGenuine, InRank, BestHeld, Improving, Covered, Marked;
    if k == 0 {
      Starts(store, already, depth, wants);
    } else {
      var t, l := TurnAt(store, already, depth, wants, k - 1), LogAt(store, already, depth, wants, k - 1);
      RunTraced(store, already, depth, wants, k - 1);
      if t.queue != [] {
        ProjectsStep(store, already, depth, wants, t, l);
        GenuineStep(store, already, depth, wants, t, l);
        RankStep(store, already, depth, wants, t, l);
        BestStep(store, already, depth, wants, t, l);
        ImprovingStep(store, already, depth, wants, t, l);
        CoveredStep(store, already, depth, wants, t, l);
        MarkedStep(store, already, depth, wants, t, l);
      }
    }
  }

  // ------------------------------------------------------------- a finished run

  /** The run has ended after `k` turns, with these visits. */
  ghost predicate Finished(store: Store, already: set<Id>, depth: nat, wants: seq<Id>, k: nat)
  {
    TurnAt(store, already, depth, wants, k).queue == []
  }

  lemma FinishedTrace(store: Store, already: set<Id>, depth: nat, wants: seq<Id>, k: nat)
    requires depth >= 1 && Finished(store, already, depth, wants, k)
    ensures
      var t, l := TurnAt(store, already, depth, wants, k), LogAt(store, already, depth, wants, k);
      Traced(store, already, depth, wants, t, l) && l.trail == []
  {
    hide AllGenuine, InRank, BestHeld, Improving, Covered, Marked;
    RunTraced(store, already, depth, wants, k);
  }

  /** Every route within the limit was beaten to its end, in rank and in depth, by a visit. */
  lemma {:induction false} AllDominated(store: Store, already: set<Id>, depth: nat, wants: seq<Id>, l: Log, a: Arrival)
    requires AllGenuine(store, already, depth, wants, l) && Covered(store, already, depth, wants, l) && l.trail == []
    requires Genuine(store, already, depth, wants, a)
    ensures Dominated(store, wants, l.done, a)
    decreases |a.route|
  {
    hide Covered, AllGenuine, Rank, Dominated, Steps;
    if |a.route| == 1 {
      assert a == Arrival([wants[a.origin]], a.origin);
      WantMet(store, already, depth, wants, l, a.origin);
    } else {
      var init := Arrival(a.route[..|a.route| - 1], a.origin);
      RouteShrinks(store, already, a.route);
      AllDominated(store, already, depth, wants, l, init);
      assert Extended(init, End(a)) == a;
      StepDominated(store, already, depth, wants, l, init, End(a));
    }
  }

  lemma WantMet(store: Store, already: set<Id>, depth: nat, wants: seq<Id>, l: Log, i: nat)
    requires Covered(store, already, depth, wants, l) && l.trail == [] && i < |wants|
    ensures Dominated(store, wants, l.done, Arrival([wants[i]], i))
  {
    hide Dominated, Extends;
    assert Due(store, wants, l, Arrival([wants[i]], i));
  }

  lemma StepDominated(store: Store, already: set<Id>, depth: nat, wants: seq<Id>, l: Log, init: Arrival, s: Id)
    requires AllGenuine(store, already, depth, wants, l) && Covered(store, already, depth, wants, l) && l.trail == []
    requires Dominated(store, wants, l.done, init) && s in Steps(store, already, End(init))
    requires CostOf(store, Extended(init, s)) == CostOf(store, init) + StepCost(store, End(init)) <= depth
    ensures Dominated(store, wants, l.done, Extended(init, s))
  {
    hide Covered, AllGenuine, Rank, Steps, CostOf, End;
    RankGrows(wants, init, s);
    var b :| b in l.done && End(b) == End(init) && CostOf(store, b) <= CostOf(store, init)
             && Rank(wants, b) <= Rank(wants, init);
    ExtensionMet(store, already, depth, wants, l, b, s);
    var e := Extended(b, s);
    var c :| c in l.done && End(c) == End(e) && CostOf(store, c) <= CostOf(store, e)
             && Rank(wants, c) <= Rank(wants, e);
    assert CostOf(store, c) <= CostOf(store, Extended(init, s)) && Rank(wants, c) <= Rank(wants, Extended(init, s));
  }

  lemma ExtensionMet(store: Store, already: set<Id>, depth: nat, wants: seq<Id>, l: Log, b: Arrival, s: Id)
    requires AllGenuine(store, already, depth, wants, l) && Covered(store, already, depth, wants, l) && l.trail == []
    requires b in l.done && s in Steps(store, already, End(b)) && CostOf(store, b) + StepCost(store, End(b)) <= depth
    ensures Dominated(store, wants, l.done, Extended(b, s)) && End(Extended(b, s)) == s
    ensures Rank(wants, Extended(b, s)) == Rank(wants, b) + |wants|
    ensures CostOf(store, Extended(b, s)) == CostOf(store, b) + StepCost(store, End(b))
  {
    hide Steps, Rank, Dominated;
    RankGrows(wants, b, s);
    assert Due(store, wants, l, Extended(b, s));
    ExtendsGenuine(store, already, depth, wants, b, Extended(b, s));
  }

  /** A visit reached `id` no deeper than any route to it. */
  lemma VisitedWithin(store: Store, already: set<Id>, depth: nat, wants: seq<Id>, l: Log, id: Id, n: nat)
    returns (a: Arrival)
    requires AllGenuine(store, already, depth, wants, l) && Covered(store, already, depth, wants, l) && l.trail == []
    requires Within(store, already, wants, id, n) && n <= depth
    ensures a in l.done && End(a) == id && CostOf(store, a) <= n
  {
    hide AllGenuine, Covered, Rank, Steps;
    var p :| Arrives(store, already, wants, p, id) && Cost(store, p) <= n;
    var i :| 0 <= i < |wants| && wants[i] == p[0];
    AllDominated(store, already, depth, wants, l, Arrival(p, i));
    a :| a in l.done && End(a) == id && CostOf(store, a) <= Cost(store, p);
  }

  lemma VisitIsWithin(store: Store, already: set<Id>, depth: nat, wants: seq<Id>, a: Arrival)
    requires Genuine(store, already, depth, wants, a)
    ensures Arrives(store, already, wants, a.route, End(a)) && AtDepth(store, already, wants, End(a), CostOf(store, a))
    ensures forall n :: CostOf(store, a) <= n ==> Within(store, already, wants, End(a), n)
    ensures 1 <= CostOf(store, a) <= depth
  {
    hide Steps;
    assert Arrives(store, already, wants, a.route, End(a));
  }

  /** The recorded depth of an object is its least depth. */
  lemma BestIsLeast(store: Store, already: set<Id>, depth: nat, wants: seq<Id>, k: nat, id: Id, n: nat)
    requires depth >= 1 && Finished(store, already, depth, wants, k) && n <= depth
    ensures var best := TurnAt(store, already, depth, wants, k).best;
      Within(store, already, wants, id, n) <==> id in best && best[id] <= n
  {
    hide TurnAt, LogAt, InRank, Improving, Marked, Covered, Projects, Within, Genuine, CostOf, End;
    FinishedTrace(store, already, depth, wants, k);
    var t, l := TurnAt(store, already, depth, wants, k), LogAt(store, already, depth, wants, k);
    if Within(store, already, wants, id, n) {
      var a := VisitedWithin(store, already, depth, wants, l, id, n);
    }
    if id in t.best && t.best[id] <= n {
      var a :| a in l.done && End(a) == id && CostOf(store, a) == t.best[id];
      VisitIsWithin(store, already, depth, wants, a);
    }
  }

  lemma BestBounded(store: Store, already: set<Id>, depth: nat, wants: seq<Id>, k: nat)
    requires depth >= 1
    ensures var best := TurnAt(store, already, depth, wants, k).best; forall id :: id in best ==> best[id] <= depth
  {
    hide TurnAt, LogAt, InRank, Improving, Marked, Covered, Projects, Genuine, CostOf, End;
    RunTraced(store, already, depth, wants, k);
    var t, l := TurnAt(store, already, depth, wants, k), LogAt(store, already, depth, wants, k);
    forall id | id in t.best ensures t.best[id] <= depth {
      var a :| a in l.done && End(a) == id && CostOf(store, a) == t.best[id];
      VisitIsWithin(store, already, depth, wants, a);
    }
  }

  // --------------------------------------------------------------- termination

  ghost function UpTo(n: nat): (r: set<nat>)
    ensures forall k :: k in r <==> 1 <= k <= n
  { if n == 0 then {} else UpTo(n - 1) + {n} }

  /** Depths an id could still improve to. */
  ghost function Slots(universe: set<Id>, depth: nat, best: map<Id, nat>): (r: set<(Id, nat)>)
  {
    set id, d | id in universe && d in UpTo(depth) && (id !in best || d < best[id]) :: (id, d)
  }

  lemma SlotsShrink(universe: set<Id>, depth: nat, best: map<Id, nat>, id: Id, d: nat)
    requires id in universe && 1 <= d <= depth && (id in best ==> d < best[id])
    ensures |Slots(universe, depth, best[id := d])| < |Slots(universe, depth, best)|
  {
    var a, b := Slots(universe, depth, best[id := d]), Slots(universe, depth, best);
    assert a <= b && (id, d) in b && (id, d) !in a;
    Smaller(a, b, (id, d));
  }

  lemma Smaller<T>(a: set<T>, b: set<T>, x: T)
    requires a <= b && x in b && x !in a
    ensures |a| < |b|
  {
    assert a <= b - {x};
    assert |b| == |a| + |b - a|;
  }

  ghost function Everywhere(store: Store, already: set<Id>, wants: seq<Id>): (r: set<Id>)
  {
    AsSet(wants) + (set id, s | id in store && s in Steps(store, already, id) :: s)
  }

  /** Whatever is queued is at a real depth within the limit, and is a want or a step away from one. */
  lemma QueueReal(store: Store, already: set<Id>, depth: nat, wants: seq<Id>, k: nat)
    requires depth >= 1
    ensures forall e :: e in TurnAt(store, already, depth, wants, k).queue ==>
      1 <= e.1 <= depth && e.0 in Everywhere(store, already, wants) && Within(store, already, wants, e.0, e.1)
  {
    hide TurnAt, LogAt, InRank, BestHeld, Improving, Covered, Marked, Within, Genuine, Everywhere;
    RunTraced(store, already, depth, wants, k);
    var t, l := TurnAt(store, already, depth, wants, k), LogAt(store, already, depth, wants, k);
    forall e | e in t.queue
      ensures 1 <= e.1 <= depth && e.0 in Everywhere(store, already, wants) && Within(store, already, wants, e.0, e.1)
    {
      var i :| 0 <= i < |t.queue| && t.queue[i] == e;
      assert l.trail[i] in l.trail;
      VisitIsWithin(store, already, depth, wants, l.trail[i]);
      EndIsSomewhere(store, already, depth, wants, l.trail[i]);
    }
  }

  lemma EndIsSomewhere(store: Store, already: set<Id>, depth: nat, wants: seq<Id>, a: Arrival)
    requires Genuine(store, already, depth, wants, a)
    ensures End(a) in Everywhere(store, already, wants)
  {
    if |a.route| == 1 {
      assert End(a) == wants[a.origin];
    } else {
      RouteShrinks(store, already, a.route);
      assert a.route[|a.route| - 2] in store;
    }
  }

  /** Every run ends. */
  lemma RunEnds(store: Store, already: set<Id>, depth: nat, wants: seq<Id>, k: nat) returns (m: nat)
    requires depth >= 1
    ensures Finished(store, already, depth, wants, m)
    decreases |Slots(Everywhere(store, already, wants), depth, TurnAt(store, already, depth, wants, k).best)|,
              |TurnAt(store, already, depth, wants, k).queue|
  {
    hide TurnAt, Slots, Everywhere, Within, Follow, Closes;
    var t := TurnAt(store, already, depth, wants, k);
    if t.queue == [] {
      m := k;
    } else {
      assert t.queue[0] in t.queue;
      QueueReal(store, already, depth, wants, k);
      TurnMoves(store, already, depth, wants, k);
      if !Stale(t) {
        SlotsShrink(Everywhere(store, already, wants), depth, t.best, t.queue[0].0, t.queue[0].1);
      }
      m := RunEnds(store, already, depth, wants, k + 1);
    }
  }
}
