/** The date-ordered revision walk of src/walk.rs. */
module RevWalk {
  import opened Base
  import opened Graph
  import opened Walk
  import opened MergeBases
  import Order

  /** A commit waiting in the queue. */
  datatype Waiting = Waiting(time: int, ticket: nat, id: Id, parents: seq<Id>)

  /** Heap order: the later date first, among equal dates the one queued first. */
  predicate Before(a: Waiting, b: Waiting) { a.time > b.time || (a.time == b.time && a.ticket < b.ticket) }

  /** Present, but not a commit that parses. */
  predicate NotCommit(store: Store, id: Id) { id in store && !store[id].Commit? }

  /** `id` is a tip or a parent of something emitted. */
  ghost predicate Sourced(store: Store, tips: seq<Id>, emitted: seq<Id>, id: Id)
  {
    id in tips || exists e :: e in emitted && id in ParentsIn(store, e)
  }

  ghost predicate InQueue(queue: set<Waiting>, id: Id) { exists q :: q in queue && q.id == id }

  // ------------------------------------------------------- what every step keeps

  /** Everything due has been met or is still owed. */
  ghost predicate Due(store: Store, tips: seq<Id>, owed: seq<Id>, seen: set<Id>, emitted: seq<Id>)
  {
    && (forall t :: t in tips ==> t in seen || t in owed)
    && (forall e, p :: e in emitted && p in ParentsIn(store, e) ==> p in seen || p in owed)
    && (forall id :: id in owed || id in seen ==> Sourced(store, tips, emitted, id))
    && (forall id :: id in seen ==> !NotCommit(store, id))
  }

  /** A commit met is queued or emitted, never both; queue entries carry their commit's data. */
  ghost predicate Placed(store: Store, queue: set<Waiting>, seen: set<Id>, last: nat, emitted: seq<Id>)
  {
    && (forall id :: id in seen && id in store ==> InQueue(queue, id) || id in emitted)
    && (forall q :: q in queue ==>
          && q.id in seen && q.id !in emitted && IsCommit(store, q.id)
          && q.parents == store[q.id].parents && q.time == store[q.id].time && q.ticket <= last)
    && (forall q, r :: q in queue && r in queue && q != r ==> q.id != r.id && q.ticket != r.ticket)
    && (forall e :: e in emitted ==> e in seen && IsCommit(store, e))
    && Order.Distinct(emitted)
  }

  /** Each emitted commit is a tip or comes after one of its children. */
  ghost predicate AfterChild(store: Store, tips: seq<Id>, emitted: seq<Id>)
  {
    forall k :: 0 <= k < |emitted| ==> Sourced(store, tips, emitted[..k], emitted[k])
  }

  ghost predicate OnCourse(store: Store, tips: seq<Id>, owed: seq<Id>, queue: set<Waiting>,
                          seen: set<Id>, last: nat, emitted: seq<Id>)
  {
    && Due(store, tips, owed, seen, emitted)
    && Placed(store, queue, seen, last, emitted)
    && AfterChild(store, tips, emitted)
  }

  lemma MeetSeen(store: Store, tips: seq<Id>, owed: seq<Id>, queue: set<Waiting>, seen: set<Id>, last: nat,
                 emitted: seq<Id>)
    requires owed != [] && owed[0] in seen && OnCourse(store, tips, owed, queue, seen, last, emitted)
    ensures OnCourse(store, tips, owed[1..], queue, seen, last, emitted)
  {
    hide Placed, AfterChild, Sourced;
    assert owed == [owed[0]] + owed[1..];
  }

  lemma MeetMissing(store: Store, tips: seq<Id>, owed: seq<Id>, queue: set<Waiting>, seen: set<Id>, last: nat,
                    emitted: seq<Id>)
    requires owed != [] && owed[0] !in store && OnCourse(store, tips, owed, queue, seen, last, emitted)
    ensures OnCourse(store, tips, owed[1..], queue, seen + {owed[0]}, last, emitted)
  {
    hide AfterChild, Sourced;
    assert owed == [owed[0]] + owed[1..];
  }

  lemma MeetCommit(store: Store, tips: seq<Id>, owed: seq<Id>, queue: set<Waiting>, seen: set<Id>, last: nat,
                   emitted: seq<Id>)
    requires owed != [] && owed[0] !in seen && IsCommit(store, owed[0])
    requires OnCourse(store, tips, owed, queue, seen, last, emitted)
    ensures
      var c := store[owed[0]];
      OnCourse(store, tips, owed[1..], queue + {Waiting(c.time, last + 1, owed[0], c.parents)},
              seen + {owed[0]}, last + 1, emitted)
  {
    var id, c := owed[0], store[owed[0]];
    var q := Waiting(c.time, last + 1, id, c.parents);
    assert Due(store, tips, owed[1..], seen + {id}, emitted) by {
      hide Placed, AfterChild, Sourced;
      assert owed == [id] + owed[1..];
    }
    assert Placed(store, queue + {q}, seen + {id}, last + 1, emitted) by {
      hide Due, AfterChild, Sourced;
      PlaceNew(store, queue, seen, last, emitted, id);
    }
  }

  lemma PlaceNew(store: Store, queue: set<Waiting>, seen: set<Id>, last: nat, emitted: seq<Id>, id: Id)
    requires Placed(store, queue, seen, last, emitted) && id !in seen && IsCommit(store, id)
    ensures
      var q := Waiting(store[id].time, last + 1, id, store[id].parents);
      Placed(store, queue + {q}, seen + {id}, last + 1, emitted)
  {
    var q := Waiting(store[id].time, last + 1, id, store[id].parents);
    var queue' := queue + {q};
    forall x | x in seen + {id} && x in store ensures InQueue(queue', x) || x in emitted {
      if x == id {
        assert q in queue' && q.id == id;
      } else if InQueue(queue, x) {
        var r :| r in queue && r.id == x;
        assert r in queue';
      }
    }
  }

  lemma Emit(store: Store, tips: seq<Id>, queue: set<Waiting>, seen: set<Id>, last: nat, emitted: seq<Id>, q: Waiting)
    requires q in queue && OnCourse(store, tips, [], queue, seen, last, emitted)
    ensures OnCourse(store, tips, q.parents, queue - {q}, seen, last, emitted + [q.id])
  {
    var emitted' := emitted + [q.id];
    assert Due(store, tips, q.parents, seen, emitted') by {
      hide AfterChild;
      EmitDue(store, tips, seen, emitted, q);
    }
    assert Placed(store, queue - {q}, seen, last, emitted') by {
      hide Due, AfterChild;
      EmitPlaced(store, queue, seen, last, emitted, q);
    }
    forall k | 0 <= k < |emitted'| ensures Sourced(store, tips, emitted'[..k], emitted'[k]) {
      hide Placed, Sourced;
      assert emitted'[..k] == emitted[..k];
      if k == |emitted| {
        assert emitted[..k] == emitted && q.id in seen by { QueuedIsSeen(store, queue, seen, last, emitted, q); }
      }
    }
  }

  lemma QueuedIsSeen(store: Store, queue: set<Waiting>, seen: set<Id>, last: nat, emitted: seq<Id>, q: Waiting)
    requires Placed(store, queue, seen, last, emitted) && q in queue
    ensures q.id in seen && emitted[..|emitted|] == emitted && q.parents == ParentsIn(store, q.id)
  {}

  lemma EmitDue(store: Store, tips: seq<Id>, seen: set<Id>, emitted: seq<Id>, q: Waiting)
    requires Due(store, tips, [], seen, emitted) && q.parents == ParentsIn(store, q.id)
    ensures Due(store, tips, q.parents, seen, emitted + [q.id])
  {
    var emitted' := emitted + [q.id];
    assert q.id in emitted';
    forall id | id in q.parents || id in seen ensures Sourced(store, tips, emitted', id) {
      if id !in q.parents && id !in tips {
        var e :| e in emitted && id in ParentsIn(store, e);
        assert e in emitted';
      }
    }
  }

  lemma EmitPlaced(store: Store, queue: set<Waiting>, seen: set<Id>, last: nat, emitted: seq<Id>, q: Waiting)
    requires Placed(store, queue, seen, last, emitted) && q in queue
    ensures Placed(store, queue - {q}, seen, last, emitted + [q.id])
  {
    var queue', emitted' := queue - {q}, emitted + [q.id];
    forall x | x in seen && x in store ensures InQueue(queue', x) || x in emitted' {
      if x != q.id && x !in emitted {
        var r :| r in queue && r.id == x;
        assert r in queue';
      }
    }
  }

  // ----------------------------------------------------------- dates along a run

  /** No present parent is newer than its child. */
  ghost predicate DatesFall(store: Store)
  {
    forall c, p :: IsCommit(store, c) && p in store[c].parents && IsCommit(store, p) ==> store[p].time <= store[c].time
  }

  /** Every present parent is strictly older than its child. */
  ghost predicate DatesFallStrictly(store: Store)
  {
    forall c, p :: IsCommit(store, c) && p in store[c].parents && IsCommit(store, p) ==> store[p].time < store[c].time
  }

  predicate NoLater(store: Store, emitted: seq<Id>, time: int)
  {
    forall e :: e in emitted && IsCommit(store, e) ==> time <= store[e].time
  }

  /** Dates emitted never increase, and nothing still to come is newer than anything emitted. */
  ghost predicate Ordered(store: Store, owed: seq<Id>, queue: set<Waiting>, emitted: seq<Id>)
  {
    && (forall k :: 0 <= k < |emitted| && IsCommit(store, emitted[k]) ==>
          NoLater(store, emitted[..k], store[emitted[k]].time))
    && (forall q :: q in queue ==> NoLater(store, emitted, q.time))
    && (forall id :: id in owed && IsCommit(store, id) ==> NoLater(store, emitted, store[id].time))
  }

  lemma EmitOrdered(store: Store, queue: set<Waiting>, emitted: seq<Id>, q: Waiting)
    requires DatesFall(store) && Ordered(store, [], queue, emitted) && q in queue
    requires forall r :: r in queue && r != q ==> Before(q, r)
    requires IsCommit(store, q.id) && q.time == store[q.id].time && q.parents == store[q.id].parents
    ensures Ordered(store, q.parents, queue - {q}, emitted + [q.id])
  {
    var emitted' := emitted + [q.id];
    forall k | 0 <= k < |emitted'| && IsCommit(store, emitted'[k])
      ensures NoLater(store, emitted'[..k], store[emitted'[k]].time)
    {
      assert emitted'[..k] == emitted[..k];
      if k == |emitted| { assert emitted[..k] == emitted; }
    }
    assert NoLater(store, emitted, q.time);
    forall t | t <= q.time ensures NoLater(store, emitted', t) {}
  }

  // ------------------------------------------------------- what is yielded next

  /** Every id met once `done` has been yielded, in the order it was met: the tips, then the
      parents of each commit yielded. */
  ghost function MetBy(store: Store, tips: seq<Id>, done: seq<Id>): (r: seq<Id>)
  {
    if done == [] then tips
    else MetBy(store, tips, done[..|done| - 1]) + ParentsIn(store, done[|done| - 1])
  }

  /** `a` occurs in `met` with no `b` in front of it. */
  ghost predicate MetBefore(met: seq<Id>, a: Id, b: Id) { exists i :: 0 <= i < |met| && met[i] == a && b !in met[..i] }

  /** No commit that waits once `done` has been yielded is newer than `id`, and any other of the
      same date was met later. */
  ghost predicate Newest(store: Store, tips: seq<Id>, done: seq<Id>, id: Id)
  {
    var met := MetBy(store, tips, done);
    forall x :: x in met && x !in done && x != id && IsCommit(store, x) ==>
      IsCommit(store, id) &&
      (store[x].time < store[id].time || (store[x].time == store[id].time && MetBefore(met, id, x)))
  }

  ghost predicate NewestFirst(store: Store, tips: seq<Id>, emitted: seq<Id>)
  {
    forall k :: 0 <= k < |emitted| ==> Newest(store, tips, emitted[..k], emitted[k])
  }

  /** Queue entries are numbered in the order their ids were met. */
  ghost predicate Lined(queue: set<Waiting>, seen: set<Id>, met: seq<Id>)
  {
    && (forall x :: x in seen <==> x in met)
    && forall q, r :: q in queue && r in queue && q.ticket < r.ticket ==> MetBefore(met, q.id, r.id)
  }

  lemma MetBeforeMore(met: seq<Id>, id: Id, a: Id, b: Id)
    requires MetBefore(met, a, b)
    ensures MetBefore(met + [id], a, b)
  {
    var i :| 0 <= i < |met| && met[i] == a && b !in met[..i];
    assert (met + [id])[i] == a && (met + [id])[..i] == met[..i];
  }

  lemma LineKnown(queue: set<Waiting>, seen: set<Id>, met: seq<Id>, id: Id)
    requires Lined(queue, seen, met)
    ensures Lined(queue, seen + {id}, met + [id])
  {
    hide MetBefore;
    forall q, r | q in queue && r in queue && q.ticket < r.ticket ensures MetBefore(met + [id], q.id, r.id) {
      MetBeforeMore(met, id, q.id, r.id);
    }
  }

  lemma LineUp(queue: set<Waiting>, seen: set<Id>, met: seq<Id>, q: Waiting)
    requires Lined(queue, seen, met) && q.id !in seen
    requires forall r :: r in queue ==> r.ticket < q.ticket && r.id in seen
    ensures Lined(queue + {q}, seen + {q.id}, met + [q.id])
  {
    LineKnown(queue, seen, met, q.id);
    forall r | r in queue ensures MetBefore(met + [q.id], r.id, q.id) {
      var i :| 0 <= i < |met| && met[i] == r.id;
      assert (met + [q.id])[i] == r.id && (met + [q.id])[..i] == met[..i];
    }
  }

  lemma EmitNewest(store: Store, tips: seq<Id>, queue: set<Waiting>, seen: set<Id>, last: nat, emitted: seq<Id>,
                   q: Waiting)
    requires Placed(store, queue, seen, last, emitted) && Lined(queue, seen, MetBy(store, tips, emitted))
    requires q in queue && forall r :: r in queue && r != q ==> Before(q, r)
    ensures Newest(store, tips, emitted, q.id)
  {
    hide MetBefore, MetBy;
    var met := MetBy(store, tips, emitted);
    forall x | x in met && x !in emitted && x != q.id && IsCommit(store, x)
      ensures store[x].time < store[q.id].time || (store[x].time == store[q.id].time && MetBefore(met, q.id, x))
    {
      var r :| r in queue && r.id == x;
      assert Before(q, r);
    }
  }

  lemma NewestNext(store: Store, tips: seq<Id>, emitted: seq<Id>, id: Id)
    requires NewestFirst(store, tips, emitted) && Newest(store, tips, emitted, id)
    ensures NewestFirst(store, tips, emitted + [id])
    ensures MetBy(store, tips, emitted + [id]) == MetBy(store, tips, emitted) + ParentsIn(store, id)
  {
    hide Newest;
    var all := emitted + [id];
    assert all[..|emitted|] == emitted;
    forall k | 0 <= k < |all| ensures Newest(store, tips, all[..k], all[k]) {
      assert all[..k] == emitted[..k];
    }
  }

  // ---------------------------------------------------------------- the walker

  class Walker {
    const store: Store
    ghost const tips: seq<Id>
    var pending: seq<Id>
    var queue: set<Waiting>
    var seen: set<Id>
    var ticket: nat
    /** The commits yielded so far. */
    ghost var emitted: seq<Id>
    /** Every id met so far, in order. */
    ghost var met: seq<Id>

    ghost predicate Valid()
      reads this
    {
      && OnCourse(store, tips, pending, queue, seen, ticket, emitted)
      && (pending != [] ==> emitted == [])
      && (DatesFall(store) ==> Ordered(store, pending, queue, emitted))
      && Lined(queue, seen, met) && met + pending == MetBy(store, tips, emitted)
      && NewestFirst(store, tips, emitted)
    }

    constructor (store: Store, tips: seq<Id>)
      ensures Valid() && pending == tips && queue == {} && seen == {} && emitted == []
      ensures this.store == store && this.tips == tips
    {
      this.store, this.tips, pending := store, tips, tips;
      queue, seen, ticket, emitted, met := {}, {}, 0, [], [];
    }

    /** Reads `owed[0]` and queues it once; a missing commit is skipped. */
    method Enqueue(id: Id, ghost owed: seq<Id>) returns (ok: bool)
      requires owed != [] && owed[0] == id && OnCourse(store, tips, owed, queue, seen, ticket, emitted)
      requires DatesFall(store) ==> Ordered(store, owed, queue, emitted)
      requires Lined(queue, seen, met)
      modifies this`queue, this`seen, this`ticket, this`met
      ensures ok ==> Lined(queue, seen, met) && met == old(met) + [id]
      ensures ok <==> id in old(seen) || !NotCommit(store, id)
      ensures ok ==> OnCourse(store, tips, owed[1..], queue, seen, ticket, emitted)
      ensures ok && DatesFall(store) ==> Ordered(store, owed[1..], queue, emitted)
    {
      hide Due, AfterChild, NoLater, Lined;
      LineKnown(queue, seen, met, id);
      ghost var line := met;
      met := met + [id];
      if id in seen {
        assert seen + {id} == seen;
        MeetSeen(store, tips, owed, queue, seen, ticket, emitted);
        return true;
      }
      ghost var was := seen;
      seen := seen + {id};
      if id !in store {
        MeetMissing(store, tips, owed, queue, was, ticket, emitted);
        return true;
      }
      if !store[id].Commit? {
        return false;
      }
      MeetCommit(store, tips, owed, queue, was, ticket, emitted);
      LineUp(queue, was, line, Waiting(store[id].time, ticket + 1, id, store[id].parents));
      ticket := ticket + 1;
      queue := queue + {Waiting(store[id].time, ticket, id, store[id].parents)};
      return true;
    }

    /** Queues each id of a list in turn. */
    method EnqueueAll(ids: seq<Id>) returns (ok: bool)
      requires OnCourse(store, tips, ids, queue, seen, ticket, emitted)
      requires DatesFall(store) ==> Ordered(store, ids, queue, emitted)
      requires Lined(queue, seen, met)
      modifies this`queue, this`seen, this`ticket, this`met
      ensures ok ==> Lined(queue, seen, met) && met == old(met) + ids
      ensures ok ==> OnCourse(store, tips, [], queue, seen, ticket, emitted)
      ensures ok && DatesFall(store) ==> Ordered(store, [], queue, emitted)
      ensures !ok ==> exists id :: id in ids && NotCommit(store, id)
    {
      hide OnCourse, Ordered, Lined;
      assert ids[0..] == ids;
      for i := 0 to |ids|
        invariant OnCourse(store, tips, ids[i..], queue, seen, ticket, emitted)
        invariant DatesFall(store) ==> Ordered(store, ids[i..], queue, emitted)
        invariant Lined(queue, seen, met) && met == old(met) + ids[..i]
      {
        assert ids[i..][1..] == ids[i + 1..] && ids[..i + 1] == ids[..i] + [ids[i]];
        var good := Enqueue(ids[i], ids[i..]);
        if !good {
          return false;
        }
      }
      assert ids[..|ids|] == ids && ids[|ids|..] == [];
      return true;
    }

    /** Removes the front of the queue. */
    method Pop() returns (q: Waiting)
      requires queue != {}
      requires forall a, b :: a in queue && b in queue && a != b ==> a.ticket != b.ticket
      modifies this`queue
      ensures q in old(queue) && queue == old(queue) - {q}
      ensures forall r :: r in queue ==> Before(q, r)
    {
      q :| q in queue;
      var rest := queue - {q};
      while rest != {}
        invariant q in queue && rest <= queue
        invariant forall r :: r in queue && r !in rest && r != q ==> Before(q, r)
        decreases |rest|
      {
        var r :| r in rest;
        rest := rest - {r};
        if Before(r, q) {
          q := r;
        }
      }
      queue := queue - {q};
    }

    /** Yields the next commit, or nothing at the end; an id that is not a commit is an error. */
    method Step() returns (r: Result<Option<Id>>)
      requires Valid()
      modifies this
      ensures r.Ok? ==> Valid() && pending == []
      ensures r.Ok? && r.value.None? ==> queue == {} && emitted == old(emitted)
      ensures r.Ok? && r.value.Some? ==> emitted == old(emitted) + [r.value.value]
      ensures r.Err? ==> AfterChild(store, tips, emitted)
      ensures r.Err? ==> exists id :: Sourced(store, tips, emitted, id) && NotCommit(store, id)
    {
      hide Due, Placed, AfterChild, Ordered, Sourced, Lined, MetBy, Newest, NewestFirst;
      ghost var owed := pending;
      var start := pending;
      pending := [];
      var ok := EnqueueAll(start);
      if !ok {
        OwedIsSourced(store, tips, owed, old(seen), emitted);
        return Err;
      }
      if queue == {} {
        return Ok(None);
      }
      ghost var before := queue;
      QueueKeys(store, queue, seen, ticket, emitted);
      var q := Pop();
      Emit(store, tips, before, seen, ticket, emitted, q);
      QueueEntry(store, before, seen, ticket, emitted, q);
      assert met + [] == met;
      EmitNewest(store, tips, before, seen, ticket, emitted, q);
      NewestNext(store, tips, emitted, q.id);
      LineOut(before, seen, met, q);
      if DatesFall(store) {
        EmitOrdered(store, before, emitted, q);
      }
      emitted := emitted + [q.id];
      OwedIsSourced(store, tips, q.parents, seen, emitted);
      ok := EnqueueAll(q.parents);
      if !ok {
        return Err;
      }
      return Ok(Some(q.id));
    }
  }

  lemma LineOut(queue: set<Waiting>, seen: set<Id>, met: seq<Id>, q: Waiting)
    requires Lined(queue, seen, met)
    ensures Lined(queue - {q}, seen, met)
  {}

  lemma OwedIsSourced(store: Store, tips: seq<Id>, owed: seq<Id>, seen: set<Id>, emitted: seq<Id>)
    requires Due(store, tips, owed, seen, emitted)
    ensures forall id :: id in owed ==> Sourced(store, tips, emitted, id)
  {}

  lemma QueueKeys(store: Store, queue: set<Waiting>, seen: set<Id>, last: nat, emitted: seq<Id>)
    requires Placed(store, queue, seen, last, emitted)
    ensures forall a, b :: a in queue && b in queue && a != b ==> a.ticket != b.ticket
  {}

  lemma QueueEntry(store: Store, queue: set<Waiting>, seen: set<Id>, last: nat, emitted: seq<Id>, q: Waiting)
    requires Placed(store, queue, seen, last, emitted) && q in queue
    ensures IsCommit(store, q.id) && q.time == store[q.id].time && q.parents == store[q.id].parents
    ensures q.parents == ParentsIn(store, q.id)
  {}

  // ----------------------------------------------------------------- whole runs

  ghost predicate Reachable(store: Store, tips: seq<Id>, id: Id) { Reach(Parents(store), AsSet(tips), {}, id) }

  lemma SourcedIsReachable(store: Store, tips: seq<Id>, emitted: seq<Id>, id: Id)
    requires Sourced(store, tips, emitted, id) && forall e :: e in emitted ==> Reachable(store, tips, e)
    ensures Reachable(store, tips, id)
  {
    if id in tips {
      ReachRoot(Parents(store), AsSet(tips), {}, id);
    } else {
      var e :| e in emitted && id in ParentsIn(store, e);
      ReachStep(Parents(store), AsSet(tips), {}, e, id);
    }
  }

  lemma {:induction false} EmittedIsReachable(store: Store, tips: seq<Id>, emitted: seq<Id>, k: nat)
    requires AfterChild(store, tips, emitted) && k <= |emitted|
    ensures forall e :: e in emitted[..k] ==> Reachable(store, tips, e)
  {
    hide Reachable, Sourced;
    if k > 0 {
      EmittedIsReachable(store, tips, emitted, k - 1);
      SourcedIsReachable(store, tips, emitted[..k - 1], emitted[k - 1]);
      assert emitted[..k] == emitted[..k - 1] + [emitted[k - 1]];
    }
  }

  lemma RunIsComplete(store: Store, tips: seq<Id>, seen: set<Id>, last: nat, emitted: seq<Id>)
    requires OnCourse(store, tips, [], {}, seen, last, emitted)
    ensures forall id :: id in emitted <==> IsCommit(store, id) && Reachable(store, tips, id)
    ensures forall id :: Reachable(store, tips, id) ==> !NotCommit(store, id)
  {
    hide Reach, Sourced;
    EmittedIsReachable(store, tips, emitted, |emitted|);
    assert emitted[..|emitted|] == emitted;
    forall id, p | id in seen && p in Parents(store)(id) ensures p in seen {
      assert p in ParentsIn(store, id);
      assert id in emitted;
    }
    ClosedHoldsReach(Parents(store), AsSet(tips), {}, seen);
  }

  /** Dates along `ids` never increase. */
  predicate NonIncreasing(store: Store, ids: seq<Id>)
  {
    forall i, j :: 0 <= i < j < |ids| && IsCommit(store, ids[i]) && IsCommit(store, ids[j]) ==>
      store[ids[j]].time <= store[ids[i]].time
  }

  lemma OrderedRun(store: Store, queue: set<Waiting>, emitted: seq<Id>)
    requires Ordered(store, [], queue, emitted)
    ensures NonIncreasing(store, emitted)
  {
    forall i, j | 0 <= i < j < |emitted| && IsCommit(store, emitted[i]) && IsCommit(store, emitted[j])
      ensures store[emitted[j]].time <= store[emitted[i]].time
    {
      assert emitted[..j][i] == emitted[i];
    }
  }

  /** No commit is yielded before a child of it that the walk also yields. */
  predicate ChildrenFirst(store: Store, ids: seq<Id>)
  {
    forall i, j :: 0 <= i < |ids| && 0 <= j < |ids| && ids[i] in ParentsIn(store, ids[j]) ==> j < i
  }

  lemma StrictDatesPutChildrenFirst(store: Store, ids: seq<Id>)
    requires DatesFallStrictly(store) && NonIncreasing(store, ids)
    requires forall id :: id in ids ==> IsCommit(store, id)
    ensures ChildrenFirst(store, ids)
  {
    forall i, j | 0 <= i < |ids| && 0 <= j < |ids| && ids[i] in ParentsIn(store, ids[j]) ensures j < i {
      assert ids[i] in ids && ids[j] in ids;
      assert store[ids[i]].time < store[ids[j]].time;
    }
  }

  /** Drives a walk to its end. */
  method RevList(store: Store, tips: seq<Id>) returns (r: Result<seq<Id>>)
    ensures r.Ok? ==> Order.Distinct(r.value)
    ensures r.Ok? ==> forall id :: id in r.value <==> IsCommit(store, id) && Reachable(store, tips, id)
    ensures r.Ok? ==> AfterChild(store, tips, r.value)
    ensures r.Ok? ==> NewestFirst(store, tips, r.value)
    ensures r.Ok? && DatesFall(store) ==> NonIncreasing(store, r.value)
    ensures r.Ok? && DatesFallStrictly(store) ==> ChildrenFirst(store, r.value)
    ensures r.Ok? <==> forall id :: Reachable(store, tips, id) ==> !NotCommit(store, id)
  {
    hide Due, AfterChild, Ordered, Sourced, Reachable, Lined, MetBy, NewestFirst;
    var w := new Walker(store, tips);
    var out: seq<Id> := [];
    while true
      invariant fresh(w) && w.Valid() && w.store == store && w.tips == tips
      invariant out == w.emitted
      decreases |store.Keys - (set e | e in w.emitted)|
    {
      ghost var before := w.emitted;
      var next := w.Step();
      if next.Err? {
        FailureIsReachable(store, tips, w.emitted);
        return Err;
      }
      if next.value.None? {
        break;
      }
      out := out + [next.value.value];
      MoreEmitted(store, before, w.emitted);
    }
    RunIsComplete(store, tips, w.seen, w.ticket, out);
    if DatesFall(store) { OrderedRun(store, w.queue, out); }
    if DatesFallStrictly(store) { StrictDatesPutChildrenFirst(store, out); }
    return Ok(out);
  }

  lemma FailureIsReachable(store: Store, tips: seq<Id>, emitted: seq<Id>)
    requires AfterChild(store, tips, emitted)
    requires exists id :: Sourced(store, tips, emitted, id) && NotCommit(store, id)
    ensures exists id :: Reachable(store, tips, id) && NotCommit(store, id)
  {
    hide Reachable, Sourced;
    var id :| Sourced(store, tips, emitted, id) && NotCommit(store, id);
    EmittedIsReachable(store, tips, emitted, |emitted|);
    assert emitted[..|emitted|] == emitted;
    SourcedIsReachable(store, tips, emitted, id);
  }

  lemma MoreEmitted(store: Store, before: seq<Id>, after: seq<Id>)
    requires after != [] && before == after[..|after| - 1] && Order.Distinct(after)
    requires forall e :: e in after ==> IsCommit(store, e)
    ensures |store.Keys - (set e | e in after)| < |store.Keys - (set e | e in before)|
  {
    var last := after[|after| - 1];
    assert after == before + [last];
    assert last in after && last !in before;
    assert store.Keys - (set e | e in after) == (store.Keys - (set e | e in before)) - {last};
    assert last in store.Keys - (set e | e in before);
  }
}
