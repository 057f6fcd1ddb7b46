/** Generation numbers by repeated relaxation (src/commit_graph.rs). */
module Generations {
  import opened Base

  /** Parent positions of each commit of a parent-closed set. */
  type Parents = seq<seq<nat>>

  predicate WellFormed(parents: Parents) {
    forall i, k :: 0 <= i < |parents| && 0 <= k < |parents[i]| ==> parents[i][k] < |parents|
  }

  // ------------------------------------------------------------------- chains

  /** A walk from commit to parent. */
  predicate Chain(parents: Parents, c: seq<nat>)
  {
    && c != [] && (forall k :: 0 <= k < |c| ==> c[k] < |parents|)
    && forall k :: 0 <= k < |c| - 1 ==> c[k + 1] in parents[c[k]]
  }

  ghost predicate Acyclic(parents: Parents)
  {
    forall c :: Chain(parents, c) && |c| >= 2 ==> c[0] != c[|c| - 1]
  }

  lemma SubChain(parents: Parents, c: seq<nat>, i: nat, j: nat)
    requires Chain(parents, c) && i < j <= |c|
    ensures Chain(parents, c[i..j])
  {
    var d := c[i..j];
    forall k | 0 <= k < |d| - 1 ensures d[k + 1] in parents[d[k]] {
      assert d[k] == c[i + k] && d[k + 1] == c[(i + k) + 1];
    }
  }

  lemma ChainPrepend(parents: Parents, i: nat, c: seq<nat>)
    requires Chain(parents, c) && i < |parents| && c[0] in parents[i]
    ensures Chain(parents, [i] + c)
  {
    var d := [i] + c;
    forall k | 0 <= k < |d| - 1 ensures d[k + 1] in parents[d[k]] {
      if k > 0 { assert d[k] == c[k - 1] && d[k + 1] == c[(k - 1) + 1]; }
    }
  }

  ghost function Below(n: nat): (r: set<nat>)
    ensures |r| == n && forall k: nat :: k in r <==> k < n
  { if n == 0 then {} else Below(n - 1) + {n - 1} }

  lemma {:induction false} Pigeonhole(c: seq<nat>, n: nat)
    requires (forall k :: 0 <= k < |c| ==> c[k] < n) && forall i, j :: 0 <= i < j < |c| ==> c[i] != c[j]
    ensures |c| <= n
  {
    var seen := DistinctSet(c);
    assert seen <= Below(n);
    SubsetSize(seen, Below(n));
  }

  lemma {:induction false} DistinctSet(c: seq<nat>) returns (s: set<nat>)
    requires forall i, j :: 0 <= i < j < |c| ==> c[i] != c[j]
    ensures |s| == |c| && forall x :: x in s <==> x in c
  {
    s := {};
    for i := 0 to |c|
      invariant |s| == i && forall x :: x in s <==> x in c[..i]
    {
      assert c[..i + 1] == c[..i] + [c[i]];
      s := s + {c[i]};
    }
    assert c[..|c|] == c;
  }

  lemma SubsetSize<T>(a: set<T>, b: set<T>)
    requires a <= b
    ensures |a| <= |b|
  {
    assert b == a + (b - a);
  }

  /** Without a cycle no chain is longer than the number of commits. */
  lemma ChainsAreShort(parents: Parents, c: seq<nat>)
    requires Acyclic(parents) && Chain(parents, c)
    ensures |c| <= |parents|
  {
    forall i, j | 0 <= i < j < |c| ensures c[i] != c[j] {
      SubChain(parents, c, i, j + 1);
      var d := c[i..j + 1];
      assert d[0] == c[i] && d[|d| - 1] == c[j];
    }
    Pigeonhole(c, |parents|);
  }

  // -------------------------------------------------------------- one more round

  /** One plus the largest value among the listed parents, one for a root. */
  function Next(g: seq<nat>, ps: seq<nat>): (r: nat)
    requires forall k :: 0 <= k < |ps| ==> ps[k] < |g|
    ensures r >= 1
  {
    if ps == [] then 1 else Max(Next(g, ps[..|ps| - 1]), g[ps[|ps| - 1]] + 1)
  }

  lemma {:induction false} NextMonotone(g: seq<nat>, h: seq<nat>, ps: seq<nat>)
    requires |g| == |h| && (forall k :: 0 <= k < |ps| ==> ps[k] < |g|) && forall i :: 0 <= i < |g| ==> g[i] <= h[i]
    ensures Next(g, ps) <= Next(h, ps)
  {
    if ps != [] { NextMonotone(g, h, ps[..|ps| - 1]); }
  }

  lemma {:induction false} NextBounds(g: seq<nat>, ps: seq<nat>)
    requires forall k :: 0 <= k < |ps| ==> ps[k] < |g|
    ensures forall k :: 0 <= k < |ps| ==> g[ps[k]] < Next(g, ps)
    ensures Next(g, ps) == 1 || exists k :: 0 <= k < |ps| && Next(g, ps) == g[ps[k]] + 1
  {
    if ps != [] { NextBounds(g, ps[..|ps| - 1]); }
  }

  /** The values after `r` rounds done all at once, starting from zero. */
  function Round(parents: Parents, r: nat): (g: seq<nat>)
    requires WellFormed(parents)
    ensures |g| == |parents|
    decreases r
  {
    if r == 0 then seq(|parents|, _ => 0)
    else
      var prev := Round(parents, r - 1);
      seq(|parents|, i requires 0 <= i < |parents| => Next(prev, parents[i]))
  }

  predicate AtMost(g: seq<nat>, h: seq<nat>) { |g| == |h| && forall i :: 0 <= i < |g| ==> g[i] <= h[i] }

  lemma {:induction false} RoundsGrow(parents: Parents, r: nat)
    requires WellFormed(parents)
    ensures AtMost(Round(parents, r), Round(parents, r + 1))
    decreases r
  {
    if r > 0 {
      RoundsGrow(parents, r - 1);
      forall i | 0 <= i < |parents| ensures Round(parents, r)[i] <= Round(parents, r + 1)[i] {
        NextMonotone(Round(parents, r - 1), Round(parents, r), parents[i]);
      }
    }
  }

  lemma RoundIs(parents: Parents, r: nat, i: nat)
    requires WellFormed(parents) && i < |parents|
    ensures Round(parents, r)[i] == if r == 0 then 0 else Next(Round(parents, r - 1), parents[i])
  {}

  /** A value that still grows in round `r + 1` sits on a chain of `r + 1` commits. */
  lemma {:induction false} GrowthHasChain(parents: Parents, r: nat, i: nat) returns (c: seq<nat>)
    requires WellFormed(parents) && i < |parents| && Round(parents, r)[i] < Round(parents, r + 1)[i]
    ensures Chain(parents, c) && c[0] == i && |c| == r + 1
    decreases r
  {
    hide Round, Next;
    RoundIs(parents, r, i);
    RoundIs(parents, r + 1, i);
    if r == 0 {
      c := [i];
    } else {
      var before, now := Round(parents, r - 1), Round(parents, r);
      NextBounds(now, parents[i]);
      NextBounds(before, parents[i]);
      var k :| 0 <= k < |parents[i]| && Next(now, parents[i]) == now[parents[i][k]] + 1;
      var p := parents[i][k];
      assert before[p] < Next(before, parents[i]);
      c := GrowthHasChain(parents, r - 1, p);
      ChainPrepend(parents, i, c);
      c := [i] + c;
    }
  }

  /** Without a cycle, `n` rounds are final. */
  lemma RoundsSettle(parents: Parents)
    requires WellFormed(parents) && Acyclic(parents)
    ensures Round(parents, |parents| + 1) == Round(parents, |parents|)
  {
    var n := |parents|;
    RoundsGrow(parents, n);
    forall i | 0 <= i < n ensures Round(parents, n + 1)[i] == Round(parents, n)[i] {
      if Round(parents, n)[i] < Round(parents, n + 1)[i] {
        var c := GrowthHasChain(parents, n, i);
        ChainsAreShort(parents, c);
      }
    }
  }

  // ----------------------------------------------------------------- relaxation

  /** Each value is one more than the largest among its parents. */
  predicate Fixed(parents: Parents, g: seq<nat>)
    requires WellFormed(parents) && |g| == |parents|
  {
    forall i :: 0 <= i < |g| ==> g[i] == Next(g, parents[i])
  }

  /** The in-place sweeps are at least as far as `r` rounds and, without a cycle, never overshoot. */
  ghost predicate Between(parents: Parents, r: nat, g: seq<nat>)
    requires WellFormed(parents)
  {
    && AtMost(Round(parents, r), g)
    && (Acyclic(parents) ==> AtMost(g, Round(parents, |parents|)))
  }

  lemma RelaxOne(parents: Parents, r: nat, g: seq<nat>, i: nat)
    requires WellFormed(parents) && i < |parents| && Between(parents, r, g)
    ensures Next(g, parents[i]) >= Round(parents, r + 1)[i]
    ensures Acyclic(parents) ==> Next(g, parents[i]) <= Round(parents, |parents|)[i]
  {
    NextMonotone(Round(parents, r), g, parents[i]);
    if Acyclic(parents) {
      NextMonotone(g, Round(parents, |parents|), parents[i]);
      RoundsSettle(parents);
      assert Round(parents, |parents| + 1)[i] == Next(Round(parents, |parents|), parents[i]);
    }
  }

  /** One sweep over all commits, updating in place. */
  method Sweep(parents: Parents, gens: array<nat>, ghost r: nat) returns (changed: bool)
    requires WellFormed(parents) && gens.Length == |parents| && Between(parents, r, gens[..])
    modifies gens
    ensures Between(parents, r + 1, gens[..])
    ensures changed <==> gens[..] != old(gens[..])
    ensures !changed ==> Fixed(parents, gens[..])
  {
    hide Acyclic, Round;
    RoundsGrow(parents, r);
    changed := false;
    for i := 0 to |parents|
      invariant Between(parents, r, gens[..])
      invariant forall k :: 0 <= k < i ==> Round(parents, r + 1)[k] <= gens[k]
      invariant forall k :: i <= k < |parents| ==> gens[k] == old(gens[k])
      invariant changed <==> exists k :: 0 <= k < i && gens[k] != old(gens[k])
      invariant !changed ==> gens[..] == old(gens[..]) && forall k :: 0 <= k < i ==>
        gens[k] == Next(gens[..], parents[k])
    {
      var g: nat := 1;
      for k := 0 to |parents[i]|
        invariant g == Next(gens[..], parents[i][..k])
      {
        assert parents[i][..k + 1][..k] == parents[i][..k];
        var v := gens[parents[i][k]] + 1;
        if v > g {
          g := v;
        }
      }
      assert parents[i][..|parents[i]|] == parents[i];
      RelaxOne(parents, r, gens[..], i);
      ghost var before := gens[..];
      if g != gens[i] {
        gens[i] := g;
        changed := true;
      }
      assert forall k :: 0 <= k < |parents| && k != i ==> gens[k] == before[k];
    }
  }

  /** Sweeps until nothing changes; more than `n + 1` sweeps mean a cycle. */
  method Relax(parents: Parents) returns (r: Result<seq<nat>>)
    requires WellFormed(parents)
    ensures r.Ok? <==> Acyclic(parents)
    ensures r.Ok? ==> |r.value| == |parents| && Fixed(parents, r.value)
    ensures r.Ok? ==> forall i :: 0 <= i < |parents| ==> Longest(parents, i, r.value[i]) && r.value[i] <= |parents|
  {
    hide Acyclic, Longest;
    var n := |parents|;
    var gens := new nat[n](_ => 0);
    var changed, guard := true, 0;
    StartsBetween(parents, gens[..]);
    while changed
      invariant gens.Length == n && 0 <= guard <= n + 1
      invariant Between(parents, guard, gens[..])
      invariant !changed ==> Fixed(parents, gens[..])
      invariant guard == n + 1 && Acyclic(parents) ==> !changed
      decreases n + 1 - guard, changed
    {
      if guard + 1 > n + 1 {
        return Err;
      }
      ghost var before := gens[..];
      changed := Sweep(parents, gens, guard);
      if guard == n && Acyclic(parents) {
        Settled(parents, before, gens[..]);
      }
      guard := guard + 1;
    }
    FixedIsLongest(parents, gens[..]);
    return Ok(gens[..]);
  }

  lemma StartsBetween(parents: Parents, g: seq<nat>)
    requires WellFormed(parents) && |g| == |parents| && forall i :: 0 <= i < |g| ==> g[i] == 0
    ensures Between(parents, 0, g)
  {}

  /** After `n` sweeps of an acyclic set the next one changes nothing. */
  lemma Settled(parents: Parents, before: seq<nat>, after: seq<nat>)
    requires WellFormed(parents) && Acyclic(parents)
    requires Between(parents, |parents|, before) && Between(parents, |parents| + 1, after)
    ensures before == after
  {
    hide Acyclic, Round;
    RoundsSettle(parents);
    assert forall i :: 0 <= i < |parents| ==> before[i] == after[i];
  }

  // -------------------------------------------------------- what the numbers mean

  /** `g` is the length of a longest chain from commit `i` towards a root. */
  ghost predicate Longest(parents: Parents, i: nat, g: nat)
  {
    && (exists c :: Chain(parents, c) && c[0] == i && |c| == g)
    && (forall c :: Chain(parents, c) && c[0] == i ==> |c| <= g)
  }

  lemma {:induction false} ChainFits(parents: Parents, g: seq<nat>, c: seq<nat>)
    requires WellFormed(parents) && |g| == |parents| && Fixed(parents, g) && Chain(parents, c)
    ensures |c| <= g[c[0]] && (|c| >= 2 ==> g[c[|c| - 1]] < g[c[0]])
    decreases |c|
  {
    var i := c[0];
    NextBounds(g, parents[i]);
    if |c| >= 2 {
      assert c[0 + 1] in parents[c[0]];
      var k :| 0 <= k < |parents[i]| && parents[i][k] == c[1];
      SubChain(parents, c, 1, |c|);
      ChainFits(parents, g, c[1..]);
    }
  }

  lemma {:induction false} ChainExists(parents: Parents, g: seq<nat>, i: nat) returns (c: seq<nat>)
    requires WellFormed(parents) && |g| == |parents| && Fixed(parents, g) && i < |parents|
    ensures Chain(parents, c) && c[0] == i && |c| == g[i]
    decreases g[i]
  {
    NextBounds(g, parents[i]);
    if g[i] == 1 {
      c := [i];
    } else {
      var k :| 0 <= k < |parents[i]| && g[i] == g[parents[i][k]] + 1;
      c := ChainExists(parents, g, parents[i][k]);
      ChainPrepend(parents, i, c);
      c := [i] + c;
    }
  }

  /** Numbers that fit their parents exactly are chain lengths, and rule out cycles. */
  lemma FixedIsLongest(parents: Parents, g: seq<nat>)
    requires WellFormed(parents) && |g| == |parents| && Fixed(parents, g)
    ensures Acyclic(parents)
    ensures forall i :: 0 <= i < |parents| ==> Longest(parents, i, g[i]) && g[i] <= |parents|
  {
    forall c | Chain(parents, c) ensures |c| <= g[c[0]] && (|c| >= 2 ==> g[c[|c| - 1]] < g[c[0]]) {
      ChainFits(parents, g, c);
    }
    forall i | 0 <= i < |parents| ensures Longest(parents, i, g[i]) && g[i] <= |parents| {
      var c := ChainExists(parents, g, i);
      ChainsAreShort(parents, c);
    }
  }

  /** A root has 1, and any other commit one more than the largest among its parents. */
  lemma LongestMeans(parents: Parents, g: seq<nat>, i: nat)
    requires WellFormed(parents) && |g| == |parents| && i < |parents|
    requires forall j :: 0 <= j < |parents| ==> Longest(parents, j, g[j])
    ensures parents[i] == [] ==> g[i] == 1
    ensures forall k :: 0 <= k < |parents[i]| ==> g[parents[i][k]] + 1 <= g[i]
    ensures parents[i] != [] ==> exists k :: 0 <= k < |parents[i]| && g[i] == g[parents[i][k]] + 1
  {
    assert Chain(parents, [i]);
    forall k | 0 <= k < |parents[i]| ensures g[parents[i][k]] + 1 <= g[i] {
      var c :| Chain(parents, c) && c[0] == parents[i][k] && |c| == g[parents[i][k]];
      ChainPrepend(parents, i, c);
      assert ([i] + c)[0] == i;
    }
    var c :| Chain(parents, c) && c[0] == i && |c| == g[i];
    assert |c| >= 2 ==> c[0 + 1] in parents[c[0]];
    if parents[i] != [] {
      assert g[parents[i][0]] + 1 <= g[i];
      OneIsLeast(parents, g[parents[i][0]], parents[i][0]);
      SubChain(parents, c, 1, |c|);
      var k :| 0 <= k < |parents[i]| && parents[i][k] == c[1];
      assert c[1..][0] == parents[i][k];
    }
  }

  lemma OneIsLeast(parents: Parents, g: nat, i: nat)
    requires Longest(parents, i, g) && i < |parents|
    ensures g >= 1
  {}
}
