/** Paths and reachability in a finite graph given by its successor lists. */
module Graph {
  import opened Base

  type Id = Bytes
  type Succ = Id -> seq<Id>

  ghost predicate IsPath(next: Succ, p: seq<Id>)
  {
    p != [] && forall i :: 0 <= i < |p| - 1 ==> p[i + 1] in next(p[i])
  }

  /** `p` leads from one of `roots` to `id` without entering `avoid`. */
  ghost predicate Leads(next: Succ, roots: set<Id>, avoid: set<Id>, p: seq<Id>, id: Id)
  {
    && IsPath(next, p) && p[0] in roots && p[|p| - 1] == id
    && forall i :: 0 <= i < |p| ==> p[i] !in avoid
  }

  ghost predicate Reach(next: Succ, roots: set<Id>, avoid: set<Id>, id: Id)
  {
    exists p :: Leads(next, roots, avoid, p, id)
  }

  lemma ReachRoot(next: Succ, roots: set<Id>, avoid: set<Id>, id: Id)
    requires id in roots && id !in avoid
    ensures Reach(next, roots, avoid, id)
  {
    assert Leads(next, roots, avoid, [id], id);
  }

  lemma ReachStep(next: Succ, roots: set<Id>, avoid: set<Id>, id: Id, s: Id)
    requires Reach(next, roots, avoid, id) && s in next(id) && s !in avoid
    ensures Reach(next, roots, avoid, s)
  {
    var p :| Leads(next, roots, avoid, p, id);
    var q := p + [s];
    forall i | 0 <= i < |q| - 1 ensures q[i + 1] in next(q[i]) {
      if i < |p| - 1 { assert q[i] == p[i] && q[i + 1] == p[i + 1]; }
    }
    assert Leads(next, roots, avoid, q, s);
  }

  /** `s` keeps, with every member, the successors outside `avoid`. */
  ghost predicate Closed(next: Succ, avoid: set<Id>, s: set<Id>)
  {
    forall id, r :: id in s && r in next(id) && r !in avoid ==> r in s
  }

  lemma {:induction false} PathStays(next: Succ, avoid: set<Id>, s: set<Id>, p: seq<Id>, k: nat)
    requires IsPath(next, p) && k < |p| && p[0] in s && Closed(next, avoid, s)
    requires forall i :: 0 <= i < |p| ==> p[i] !in avoid
    ensures p[k] in s
  {
    if k > 0 {
      PathStays(next, avoid, s, p, k - 1);
      assert p[(k - 1) + 1] in next(p[k - 1]);
    }
  }

  /** A closed set holding the roots holds everything reachable. */
  lemma ClosedHoldsReach(next: Succ, roots: set<Id>, avoid: set<Id>, s: set<Id>)
    requires Closed(next, avoid, s) && forall r :: r in roots && r !in avoid ==> r in s
    ensures forall id :: Reach(next, roots, avoid, id) ==> id in s
  {
    forall id | Reach(next, roots, avoid, id) ensures id in s {
      var p :| Leads(next, roots, avoid, p, id);
      assert p[0] in s;
      PathStays(next, avoid, s, p, |p| - 1);
    }
  }

  /** What a path reaches, every later point of it reaches too. */
  lemma Suffix(next: Succ, roots: set<Id>, p: seq<Id>, k: nat)
    requires IsPath(next, p) && k < |p| && Reach(next, roots, {}, p[k])
    ensures Reach(next, roots, {}, p[|p| - 1])
    decreases |p| - k
  {
    if k < |p| - 1 {
      assert p[k + 1] in next(p[k]);
      ReachStep(next, roots, {}, p[k], p[k + 1]);
      Suffix(next, roots, p, k + 1);
    }
  }

  /** A path whose end is not reachable from `from` never touches what is. */
  lemma AvoidsReach(next: Succ, roots: set<Id>, from: set<Id>, id: Id)
    requires Reach(next, roots, {}, id) && !Reach(next, from, {}, id)
    ensures exists p :: Leads(next, roots, {}, p, id) && forall i :: 0 <= i < |p| ==> !Reach(next, from, {}, p[i])
  {
    var p :| Leads(next, roots, {}, p, id);
    forall i | 0 <= i < |p| ensures !Reach(next, from, {}, p[i]) {
      if Reach(next, from, {}, p[i]) { Suffix(next, from, p, i); }
    }
  }
}
