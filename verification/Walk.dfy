/** The object graph and its closures: reachable sets and transfer sets (src/walk.rs). */
module Walk {
  import opened Base
  import opened Graph

  datatype TreeEntry = TreeEntry(id: Id, gitlink: bool)

  /** A stored object as the walks see it; the `Bad` forms do not parse. */
  datatype Node =
    | Commit(tree: Id, parents: seq<Id>, time: int)
    | Tree(entries: seq<TreeEntry>)
    | Tag(target: Id)
    | Blob
    | BadCommit | BadTree | BadTag

  type Store = map<Id, Node>

  function EntryIds(entries: seq<TreeEntry>): (r: seq<Id>)
    ensures forall id :: id in r <==> exists i :: 0 <= i < |entries| && !entries[i].gitlink && entries[i].id == id
  {
    if entries == [] then []
    else
      var init, last := EntryIds(entries[..|entries| - 1]), entries[|entries| - 1];
      if last.gitlink then init else init + [last.id]
  }

  /** The objects an object names; an absent object names none. */
  function RefsIn(store: Store, id: Id): (r: seq<Id>)
  {
    if id !in store then []
    else match store[id]
      case Commit(tree, parents, _) => [tree] + parents
      case Tree(entries) => EntryIds(entries)
      case Tag(target) => [target]
      case _ => []
  }

  function Refs(store: Store): Succ { id => RefsIn(store, id) }

  predicate IsCommit(store: Store, id: Id) { id in store && store[id].Commit? }

  predicate Corrupt(store: Store, id: Id) {
    id in store && (store[id].BadCommit? || store[id].BadTree? || store[id].BadTag?)
  }

  function AsSet(ids: seq<Id>): (r: set<Id>) { set id | id in ids }

  /** Everything a walk from `roots` could ever meet. */
  ghost function Universe(next: Succ, nodes: set<Id>, roots: seq<Id>): (r: set<Id>)
  {
    AsSet(roots) + nodes + (set id, s | id in nodes && s in next(id) :: s)
  }

  // ------------------------------------------------------- what objects name

  /** `s` holds the roots and, with every commit, its tree and its parents, with every tree
      what its entries name, gitlinks apart, and with every tag its target, except for what
      is in `avoid`. */
  ghost predicate Complete(store: Store, roots: set<Id>, avoid: set<Id>, s: set<Id>)
  {
    && roots <= s + avoid
    && forall id :: id in s && id in store ==>
         match store[id]
         case Commit(tree, parents, _) => tree in s + avoid && forall p :: p in parents ==> p in s + avoid
         case Tree(entries) => forall i :: 0 <= i < |entries| && !entries[i].gitlink ==> entries[i].id in s + avoid
         case Tag(target) => target in s + avoid
         case _ => true
  }

  /** The least such set. */
  ghost predicate Least(store: Store, roots: set<Id>, avoid: set<Id>, s: set<Id>)
  {
    && Complete(store, roots, avoid, s) && s !! avoid
    && forall other :: Complete(store, roots, avoid, other) ==> s <= other
  }

  lemma CompleteIsClosed(store: Store, roots: set<Id>, avoid: set<Id>, s: set<Id>)
    ensures Complete(store, roots, avoid, s) <==>
      roots <= s + avoid && Closed(Refs(store), avoid, s)
  {
    var next := Refs(store);
    if Closed(next, avoid, s) {
      forall id, x | id in s && x in RefsIn(store, id) ensures x in s + avoid { assert x in next(id); }
    }
    if Complete(store, roots, avoid, s) {
      forall id, x | id in s && x in next(id) && x !in avoid ensures x in s { assert x in RefsIn(store, id); }
    }
  }

  /** What is reachable is the least complete set. */
  lemma ReachIsLeast(store: Store, roots: set<Id>, avoid: set<Id>, s: set<Id>)
    requires forall id :: id in s <==> Reach(Refs(store), roots, avoid, id)
    ensures Least(store, roots, avoid, s)
  {
    hide Reach, RefsIn, Complete;
    var next := Refs(store);
    RootsReach(next, roots, avoid);
    forall id | id in s ensures id !in avoid { ReachAvoids(next, roots, avoid, id); }
    forall id, x | id in s && x in next(id) && x !in avoid ensures x in s { StepsReach(next, roots, avoid, id); }
    CompleteIsClosed(store, roots, avoid, s);
    forall other | Complete(store, roots, avoid, other) ensures s <= other {
      CompleteIsClosed(store, roots, avoid, other);
      ClosedHoldsReach(next, roots, avoid, other);
    }
  }

  lemma CorruptEverywhere(store: Store, roots: set<Id>, avoid: set<Id>, bad: Id)
    requires Reach(Refs(store), roots, avoid, bad) && Corrupt(store, bad)
    ensures forall s :: Complete(store, roots, avoid, s) ==> Unreadable(store, s)
  {
    hide Reach, RefsIn, Complete;
    forall s | Complete(store, roots, avoid, s) ensures Unreadable(store, s) {
      CompleteIsClosed(store, roots, avoid, s);
      ClosedHoldsReach(Refs(store), roots, avoid, s);
      assert bad in s;
    }
  }

  /** Some stored member of `s` does not parse. */
  ghost predicate Unreadable(store: Store, s: set<Id>)
  {
    exists id :: id in s && id in store && store[id] in {BadCommit, BadTree, BadTag}
  }

  /** What only gitlinks name is in no least set, unless it is a root. */
  lemma GitlinksAlone(store: Store, roots: set<Id>, avoid: set<Id>, s: set<Id>, id: Id)
    requires Least(store, roots, avoid, s) && id !in roots
    requires forall x :: x in s && x in store ==>
      match store[x]
      case Commit(tree, parents, _) => id != tree && id !in parents
      case Tree(entries) => forall i :: 0 <= i < |entries| && !entries[i].gitlink ==> entries[i].id != id
      case Tag(target) => id != target
      case _ => true
    ensures id !in s
  {
    assert Complete(store, roots, avoid, s - {id});
  }

  // ----------------------------------------------------------------- closure

  /** What was seen is reachable and sound, what is stacked is reachable, and every
      successor still owed is on the stack. */
  ghost predicate Walking(store: Store, from: set<Id>, avoid: set<Id>, seen: set<Id>, stack: seq<Id>)
  {
    var next := Refs(store);
    && (forall id :: id in seen ==> Reach(next, from, avoid, id) && !Corrupt(store, id))
    && (forall s :: s in stack ==> Reach(next, from, avoid, s))
    && (forall s :: s in from && s !in avoid ==> s in seen || s in stack)
    && (forall id, s :: id in seen && s in next(id) && s !in avoid ==> s in seen || s in stack)
  }

  /** `stack` is `stack0` with the new members of `ids` pushed. */
  ghost predicate Pushed(stack0: seq<Id>, stack: seq<Id>, seen: set<Id>, avoid: set<Id>, ids: seq<Id>)
  {
    && (forall s :: s in stack0 ==> s in stack)
    && (forall s :: s in stack ==> s in stack0 || (s in ids && s !in avoid))
    && (forall s :: s in ids && s !in avoid && s !in seen ==> s in stack)
  }

  method PushNew(stack0: seq<Id>, seen: set<Id>, avoid: set<Id>, ids: seq<Id>) returns (stack: seq<Id>)
    ensures Pushed(stack0, stack, seen, avoid, ids)
  {
    stack := stack0;
    for i := 0 to |ids|
      invariant forall s :: s in stack0 ==> s in stack
      invariant forall s :: s in stack ==> s in stack0 || (s in ids && s !in avoid)
      invariant forall s :: s in ids[..i] && s !in avoid && s !in seen ==> s in stack
    {
      assert ids[..i + 1] == ids[..i] + [ids[i]];
      if ids[i] !in seen && ids[i] !in avoid {
        stack := stack + [ids[i]];
      }
    }
    assert ids[..|ids|] == ids;
  }

  lemma WalkStarts(store: Store, roots: seq<Id>, avoid: set<Id>, stack: seq<Id>)
    requires Pushed([], stack, {}, avoid, roots)
    ensures Walking(store, AsSet(roots), avoid, {}, stack)
  {
    hide Reach, RefsIn;
    RootsReach(Refs(store), AsSet(roots), avoid);
  }

  lemma PopKnown(store: Store, from: set<Id>, avoid: set<Id>, seen: set<Id>, stack: seq<Id>)
    requires stack != [] && Walking(store, from, avoid, seen, stack)
    requires stack[|stack| - 1] in seen || stack[|stack| - 1] in avoid
    ensures Walking(store, from, avoid, seen, stack[..|stack| - 1])
  {
    hide Reach, RefsIn;
    var id := stack[|stack| - 1];
    ReachAvoids(Refs(store), from, avoid, id);
    assert stack == stack[..|stack| - 1] + [id];
  }

  lemma PopNew(store: Store, from: set<Id>, avoid: set<Id>, seen: set<Id>, stack: seq<Id>, stack': seq<Id>)
    requires stack != [] && Walking(store, from, avoid, seen, stack) && !Corrupt(store, stack[|stack| - 1])
    requires
      var id := stack[|stack| - 1];
      Pushed(stack[..|stack| - 1], stack', seen + {id}, avoid, RefsIn(store, id))
    ensures Walking(store, from, avoid, seen + {stack[|stack| - 1]}, stack')
  {
    hide Reach, RefsIn;
    var id := stack[|stack| - 1];
    assert stack == stack[..|stack| - 1] + [id];
    StepsReach(Refs(store), from, avoid, id);
  }

  lemma WalkEnds(store: Store, from: set<Id>, avoid: set<Id>, seen: set<Id>)
    requires Walking(store, from, avoid, seen, [])
    ensures forall id :: id in seen <==> Reach(Refs(store), from, avoid, id)
  {
    hide Reach, RefsIn;
    assert Closed(Refs(store), avoid, seen);
    ClosedHoldsReach(Refs(store), from, avoid, seen);
  }

  method CollectClosure(store: Store, roots: seq<Id>, exclude: set<Id>) returns (r: Result<set<Id>>)
    ensures r.Ok? ==> forall id :: id in r.value <==> Reach(Refs(store), AsSet(roots), exclude, id)
    ensures r.Ok? <==> forall id :: Reach(Refs(store), AsSet(roots), exclude, id) ==> !Corrupt(store, id)
    ensures r.Ok? ==> Least(store, AsSet(roots), exclude, r.value) && !Unreadable(store, r.value)
    ensures r.Err? ==> forall s :: Complete(store, AsSet(roots), exclude, s) ==> Unreadable(store, s)
  {
    hide Reach, RefsIn, Pushed, Universe, Least, Complete, Unreadable;
    ghost var universe := Universe(Refs(store), store.Keys, roots);
    var seen: set<Id> := {};
    var stack: seq<Id> := PushNew([], {}, exclude, roots);
    WalkStarts(store, roots, exclude, stack);
    RootsInside(store, roots);
    StackInside([], stack, {}, exclude, roots, universe);
    while stack != []
      invariant seen <= universe && forall s :: s in stack ==> s in universe
      invariant Walking(store, AsSet(roots), exclude, seen, stack)
      decreases |universe - seen|, |stack|
    {
      hide Walking;
      var id := stack[|stack| - 1];
      if id in exclude || id in seen {
        PopKnown(store, AsSet(roots), exclude, seen, stack);
        stack := stack[..|stack| - 1];
      } else if Corrupt(store, id) {
        var bad := CorruptReached(store, AsSet(roots), exclude, seen, stack, id);
        CorruptEverywhere(store, AsSet(roots), exclude, bad);
        return Err;
      } else {
        var rest := stack[..|stack| - 1];
        var grown := PushNew(rest, seen + {id}, exclude, RefsIn(store, id));
        PopNew(store, AsSet(roots), exclude, seen, stack, grown);
        NamesStayInside(store, roots, id);
        StackInside(rest, grown, seen + {id}, exclude, RefsIn(store, id), universe);
        Shrinks(universe, seen, id);
        seen, stack := seen + {id}, grown;
      }
    }
    WalkEnds(store, AsSet(roots), exclude, seen);
    ReachIsLeast(store, AsSet(roots), exclude, seen);
    AllRead(store, AsSet(roots), exclude, seen);
    return Ok(seen);
  }

  lemma AllRead(store: Store, from: set<Id>, avoid: set<Id>, seen: set<Id>)
    requires Walking(store, from, avoid, seen, [])
    ensures !Unreadable(store, seen)
  {}

  lemma CorruptReached(store: Store, from: set<Id>, avoid: set<Id>, seen: set<Id>, stack: seq<Id>, id: Id)
    returns (bad: Id)
    requires Walking(store, from, avoid, seen, stack) && id in stack && Corrupt(store, id)
    ensures Reach(Refs(store), from, avoid, bad) && Corrupt(store, bad)
  {
    bad := id;
  }

  lemma StackInside(stack0: seq<Id>, stack: seq<Id>, seen: set<Id>, avoid: set<Id>, ids: seq<Id>, universe: set<Id>)
    requires Pushed(stack0, stack, seen, avoid, ids)
    requires (forall s :: s in stack0 ==> s in universe) && (forall s :: s in ids ==> s in universe)
    ensures forall s :: s in stack ==> s in universe
  {}

  lemma RootsReach(next: Succ, from: set<Id>, avoid: set<Id>)
    ensures forall id :: id in from && id !in avoid ==> Reach(next, from, avoid, id)
  {
    forall id | id in from && id !in avoid ensures Reach(next, from, avoid, id) {
      ReachRoot(next, from, avoid, id);
    }
  }

  lemma StepsReach(next: Succ, from: set<Id>, avoid: set<Id>, id: Id)
    requires Reach(next, from, avoid, id)
    ensures forall s :: s in next(id) && s !in avoid ==> Reach(next, from, avoid, s)
  {
    forall s | s in next(id) && s !in avoid ensures Reach(next, from, avoid, s) {
      ReachStep(next, from, avoid, id, s);
    }
  }

  lemma ReachAvoids(next: Succ, from: set<Id>, avoid: set<Id>, id: Id)
    requires Reach(next, from, avoid, id)
    ensures id !in avoid
  {
    var p :| Leads(next, from, avoid, p, id);
    assert p[|p| - 1] !in avoid;
  }

  lemma RootsInside(store: Store, roots: seq<Id>)
    ensures forall s :: s in roots ==> s in Universe(Refs(store), store.Keys, roots)
  {}

  lemma NamesStayInside(store: Store, roots: seq<Id>, id: Id)
    ensures forall s :: s in RefsIn(store, id) ==> s in Universe(Refs(store), store.Keys, roots)
  {
    assert id !in store ==> RefsIn(store, id) == [];
    assert RefsIn(store, id) == Refs(store)(id);
  }

  lemma Shrinks(universe: set<Id>, seen: set<Id>, id: Id)
    requires id in universe && id !in seen
    ensures |universe - (seen + {id})| < |universe - seen|
  {
    assert universe - (seen + {id}) == (universe - seen) - {id};
  }

  /** The set a transfer sends: reachable from `wants` and not from `haves`. The walk only
      refuses to enter what `haves` reach, and that is enough. */
  method ObjectsToSend(store: Store, wants: seq<Id>, haves: seq<Id>) returns (r: Result<set<Id>>)
    ensures r.Ok? ==> forall id :: id in r.value <==>
      Reach(Refs(store), AsSet(wants), {}, id) && !Reach(Refs(store), AsSet(haves), {}, id)
    ensures r.Ok? <==>
      forall id :: Reach(Refs(store), AsSet(wants), {}, id) || Reach(Refs(store), AsSet(haves), {}, id) ==>
        !Corrupt(store, id)
    ensures r.Ok? ==>
      exists held :: Least(store, AsSet(haves), {}, held) && Least(store, AsSet(wants), held, r.value)
  {
    hide Reach, RefsIn, Least;
    var next := Refs(store);
    var exclude :- CollectClosure(store, haves, {});
    r := CollectClosure(store, wants, exclude);
    forall id ensures Reach(next, AsSet(wants), exclude, id) <==>
                      Reach(next, AsSet(wants), {}, id) && !Reach(next, AsSet(haves), {}, id)
    {
      RefusingIsSubtracting(next, AsSet(wants), AsSet(haves), exclude, id);
    }
  }

  lemma RefusingIsSubtracting(next: Succ, wants: set<Id>, haves: set<Id>, exclude: set<Id>, id: Id)
    requires forall x :: x in exclude <==> Reach(next, haves, {}, x)
    ensures Reach(next, wants, exclude, id) <==> Reach(next, wants, {}, id) && !Reach(next, haves, {}, id)
  {
    if Reach(next, wants, exclude, id) {
      var p :| Leads(next, wants, exclude, p, id);
      assert Leads(next, wants, {}, p, id);
      assert p[|p| - 1] !in exclude;
    }
    if Reach(next, wants, {}, id) && !Reach(next, haves, {}, id) {
      AvoidsReach(next, wants, haves, id);
      var p :| Leads(next, wants, {}, p, id) && forall i :: 0 <= i < |p| ==> !Reach(next, haves, {}, p[i]);
      assert Leads(next, wants, exclude, p, id);
    }
  }

  /** After the transfer, a receiver that held what `haves` reach holds what `wants` reach,
      and nothing it was sent names an object it lacks. */
  lemma ReceiverComplete(store: Store, wants: set<Id>, haves: set<Id>, sent: set<Id>, held: set<Id>)
    requires forall x :: x in sent <==> Reach(Refs(store), wants, {}, x) && !Reach(Refs(store), haves, {}, x)
    requires forall x :: Reach(Refs(store), haves, {}, x) ==> x in held
    ensures forall id :: Reach(Refs(store), wants, {}, id) ==> id in held + sent
    ensures forall id, s :: id in sent && s in RefsIn(store, id) ==> s in held + sent
  {
    hide Reach, RefsIn;
    forall id, s | id in sent && s in RefsIn(store, id) ensures s in held + sent {
      StepsReach(Refs(store), wants, {}, id);
      assert s in Refs(store)(id);
    }
  }
}
