/** What a three-way line merge is, told by the lines both matches keep (src/diff.rs). */
module MergeShape {
  import opened Base
  import opened Diff
  import opened Merge3

  /** A position in each of the three files. */
  datatype Place = Place(b: nat, o: nat, t: nat)

  /** What a merge makes of the lines between two places: what both sides have, or what the
      only side that changed them has, and else both behind markers. */
  ghost predicate Settles(base: seq<Line>, ours: seq<Line>, theirs: seq<Line>, from: Place, to: Place, piece: Merged)
  {
    && from.b <= to.b <= |base| && from.o <= to.o <= |ours| && from.t <= to.t <= |theirs|
    && var b, o, t := base[from.b..to.b], ours[from.o..to.o], theirs[from.t..to.t];
       && (piece.conflicted <==> o != t && o != b && t != b)
       && (o == t || o == b ==> piece.bytes == Join(t))
       && (t == b ==> piece.bytes == Join(o))
       && (piece.conflicted ==>
             piece.bytes ==
               [0x3C, 0x3C, 0x3C, 0x3C, 0x3C, 0x3C, 0x3C, 0x20, 0x6F, 0x75, 0x72, 0x73, 0x0A] + Join(o) +
               [0x3D, 0x3D, 0x3D, 0x3D, 0x3D, 0x3D, 0x3D, 0x0A] + Join(t) +
               [0x3E, 0x3E, 0x3E, 0x3E, 0x3E, 0x3E, 0x3E, 0x20, 0x74, 0x68, 0x65, 0x69, 0x72, 0x73, 0x0A])
  }

  /** The pieces with the lines that stand between them. */
  function Laced(pieces: seq<Merged>, lines: seq<Line>): (r: Bytes)
    requires |pieces| == |lines| + 1
    decreases |lines|
  {
    if lines == [] then pieces[0].bytes else pieces[0].bytes + lines[0] + Laced(pieces[1..], lines[1..])
  }

  ghost predicate SomeConflict(pieces: seq<Merged>) { exists g :: 0 <= g < |pieces| && pieces[g].conflicted }

  lemma RegionSettles(base: seq<Line>, ours: seq<Line>, theirs: seq<Line>, from: Place, to: Place)
    requires from.b <= to.b <= |base| && from.o <= to.o <= |ours| && from.t <= to.t <= |theirs|
    ensures Settles(base, ours, theirs, from, to,
                    Region(base[from.b..to.b], ours[from.o..to.o], theirs[from.t..to.t]))
  {
    hide Join;
  }

  function After(a: Anchor): (r: Place) { Place(a.b + 1, a.o + 1, a.t + 1) }

  function AnchorPlace(a: Anchor): (r: Place) { Place(a.b, a.o, a.t) }

  function AnchorLines(anchors: seq<Anchor>, base: seq<Line>): (r: seq<Line>)
    requires anchors != [] && forall i :: 0 <= i < |anchors| - 1 ==> anchors[i].b < |base|
    ensures |r| == |anchors| - 1 && forall i :: 0 <= i < |r| ==> r[i] == base[anchors[i].b]
  { seq(|anchors| - 1, i requires 0 <= i < |anchors| - 1 => base[anchors[i].b]) }

  /** Where the lines before anchor `g` start. */
  function StartOf(anchors: seq<Anchor>, from: Place, g: nat): (r: Place)
    requires g < |anchors|
  { if g == 0 then from else After(anchors[g - 1]) }

  /** Each piece settles the lines up to its anchor. */
  ghost predicate Pieced(anchors: seq<Anchor>, from: Place, base: seq<Line>, ours: seq<Line>, theirs: seq<Line>,
                         pieces: seq<Merged>)
  {
    && |pieces| == |anchors|
    && forall g :: 0 <= g < |anchors| ==>
         Settles(base, ours, theirs, StartOf(anchors, from, g), AnchorPlace(anchors[g]), pieces[g])
  }

  lemma PiecesCons(anchors: seq<Anchor>, from: Place, base: seq<Line>, ours: seq<Line>, theirs: seq<Line>,
                   here: Merged, rest: seq<Merged>)
    requires anchors != [] && Settles(base, ours, theirs, from, AnchorPlace(anchors[0]), here)
    requires Pieced(anchors[1..], After(anchors[0]), base, ours, theirs, rest)
    ensures Pieced(anchors, from, base, ours, theirs, [here] + rest)
  {
    hide Settles;
    forall g | 0 <= g < |anchors|
      ensures Settles(base, ours, theirs, StartOf(anchors, from, g), AnchorPlace(anchors[g]), ([here] + rest)[g])
    {
      if g > 0 {
        assert anchors[1..][g - 1] == anchors[g] && ([here] + rest)[g] == rest[g - 1];
        assert StartOf(anchors, from, g) == StartOf(anchors[1..], After(anchors[0]), g - 1);
      }
    }
  }

  /** The pieces a chain of anchors is merged into. */
  lemma {:induction false} Weave(anchors: seq<Anchor>, from: Place, base: seq<Line>, ours: seq<Line>,
                                 theirs: seq<Line>)
    returns (pieces: seq<Merged>)
    requires anchors != [] && EndsAtEnd(anchors, base) && Chain(anchors, from.b, from.o, from.t, base, ours, theirs)
    ensures Pieced(anchors, from, base, ours, theirs, pieces) && |pieces| == |anchors|
    ensures MergeFrom(anchors, from.b, from.o, from.t, base, ours, theirs) ==
      Merged(Laced(pieces, AnchorLines(anchors, base)), SomeConflict(pieces))
    decreases |anchors|
  {
    hide Settles, Pieced, Region, MergeFrom, SomeConflict, EndsAtEnd;
    var a := anchors[0];
    MergeStep(anchors, from.b, from.o, from.t, base, ours, theirs);
    RegionSettles(base, ours, theirs, from, AnchorPlace(a));
    var here := Region(base[from.b..a.b], ours[from.o..a.o], theirs[from.t..a.t]);
    if a.b < |base| {
      EndsLater(anchors, base);
      var rest := Weave(anchors[1..], After(a), base, ours, theirs);
      PiecesCons(anchors, from, base, ours, theirs, here, rest);
      pieces := [here] + rest;
      assert pieces[1..] == rest && AnchorLines(anchors, base)[1..] == AnchorLines(anchors[1..], base);
      ConflictCons(here, rest);
    } else {
      TheirsEnd(anchors, from.b, from.o, from.t, base, ours, theirs);
      LastPiece(anchors, from, base, ours, theirs, here);
      pieces := [here];
    }
  }

  /** The piece before the end. */
  lemma LastPiece(anchors: seq<Anchor>, from: Place, base: seq<Line>, ours: seq<Line>, theirs: seq<Line>, here: Merged)
    requires |anchors| == 1 && Settles(base, ours, theirs, from, AnchorPlace(anchors[0]), here)
    ensures Pieced(anchors, from, base, ours, theirs, [here])
    ensures Laced([here], []) == here.bytes && (SomeConflict([here]) <==> here.conflicted)
  {
    hide Settles;
    assert [here][0] == here;
  }

  lemma ConflictCons(here: Merged, rest: seq<Merged>)
    ensures SomeConflict([here] + rest) <==> here.conflicted || SomeConflict(rest)
  {
    var all := [here] + rest;
    assert all[0] == here && forall g :: 0 <= g < |rest| ==> all[g + 1] == rest[g];
  }

  /** The anchors are the lines both matches keep, then the end. */
  lemma {:induction false} CommonLines(om: Match, tm: Match, from: nat, base: seq<Line>, ours: seq<Line>,
                                       theirs: seq<Line>)
    returns (common: seq<nat>)
    requires from <= |base| && (forall k :: k in om && k in tm ==> k < |base|)
    ensures Rising(common, om, tm, from)
    ensures Anchored(Anchors(om, tm, from, base, ours, theirs), common, om, tm, Anchor(|base|, |ours|, |theirs|))
    decreases |base| - from
  {
    hide Rising, Anchored;
    if from == |base| {
      common := [];
      NoneRising(om, tm, from, Anchor(|base|, |ours|, |theirs|));
    } else {
      var rest := CommonLines(om, tm, from + 1, base, ours, theirs);
      common := if from in om && from in tm then [from] + rest else rest;
      RisingStep(rest, om, tm, from);
      AnchoredStep(Anchors(om, tm, from + 1, base, ours, theirs), rest, om, tm, Anchor(|base|, |ours|, |theirs|), from);
    }
  }

  /** The lines from `from` on that both matches keep, in order. */
  ghost predicate Rising(common: seq<nat>, om: Match, tm: Match, from: nat)
  {
    && (forall i, j :: 0 <= i < j < |common| ==> common[i] < common[j])
    && forall k: nat :: k in common <==> from <= k && k in om && k in tm
  }

  ghost predicate Anchored(anchors: seq<Anchor>, common: seq<nat>, om: Match, tm: Match, end: Anchor)
  {
    && |anchors| == |common| + 1 && anchors[|common|] == end
    && forall g :: 0 <= g < |common| ==>
         common[g] in om && common[g] in tm && anchors[g] == Anchor(common[g], om[common[g]], tm[common[g]])
  }

  lemma NoneRising(om: Match, tm: Match, from: nat, end: Anchor)
    requires forall k :: k in om && k in tm ==> k < from
    ensures Rising([], om, tm, from) && Anchored([end], [], om, tm, end)
  {}

  lemma RisingStep(rest: seq<nat>, om: Match, tm: Match, from: nat)
    requires Rising(rest, om, tm, from + 1)
    ensures Rising(if from in om && from in tm then [from] + rest else rest, om, tm, from)
  {
    forall i | 0 <= i < |rest| ensures from < rest[i] { assert rest[i] in rest; }
  }

  lemma AnchoredStep(anchors: seq<Anchor>, rest: seq<nat>, om: Match, tm: Match, end: Anchor, from: nat)
    requires Anchored(anchors, rest, om, tm, end)
    ensures from in om && from in tm ==>
      Anchored([Anchor(from, om[from], tm[from])] + anchors, [from] + rest, om, tm, end)
  {}

  /** The place just after the common line before gap `g`, or the start. */
  function GapStart(om: Match, tm: Match, common: seq<nat>, g: nat): (r: Place)
    requires g <= |common| && forall k :: k in common ==> k in om && k in tm
  {
    if g == 0 then Place(0, 0, 0) else Place(common[g - 1] + 1, om[common[g - 1]] + 1, tm[common[g - 1]] + 1)
  }

  /** The common line after gap `g`, or the end. */
  function GapEnd(om: Match, tm: Match, common: seq<nat>, g: nat, end: Place): (r: Place)
    requires g <= |common| && forall k :: k in common ==> k in om && k in tm
  {
    if g == |common| then end else Place(common[g], om[common[g]], tm[common[g]])
  }

  /** The ordered list of the lines both matches keep. */
  ghost predicate Lists(common: seq<nat>, om: Match, tm: Match, n: nat)
  {
    && (forall k: nat :: k in common <==> k in om && k in tm)
    && (forall i, j :: 0 <= i < j < |common| ==> common[i] < common[j])
    && forall g :: 0 <= g < |common| ==> common[g] < n
  }

  /** Each piece settles the lines between two neighbours. */
  ghost predicate Laid(base: seq<Line>, ours: seq<Line>, theirs: seq<Line>, om: Match, tm: Match, common: seq<nat>,
                       pieces: seq<Merged>)
    requires Lists(common, om, tm, |base|)
  {
    && |pieces| == |common| + 1
    && forall g :: 0 <= g < |pieces| ==>
         Settles(base, ours, theirs, GapStart(om, tm, common, g),
                 GapEnd(om, tm, common, g, Place(|base|, |ours|, |theirs|)), pieces[g])
  }

  lemma LaidOut(base: seq<Line>, ours: seq<Line>, theirs: seq<Line>, om: Match, tm: Match, common: seq<nat>,
                pieces: seq<Merged>, anchors: seq<Anchor>)
    requires Lists(common, om, tm, |base|) && Pieced(anchors, Place(0, 0, 0), base, ours, theirs, pieces)
    requires |anchors| == |common| + 1 && anchors[|common|] == Anchor(|base|, |ours|, |theirs|)
    requires forall g :: 0 <= g < |common| ==>
      common[g] in om && common[g] in tm && anchors[g] == Anchor(common[g], om[common[g]], tm[common[g]])
    ensures Laid(base, ours, theirs, om, tm, common, pieces)
  {
    hide Settles, Lists;
    forall g | 0 <= g < |pieces|
      ensures Settles(base, ours, theirs, GapStart(om, tm, common, g),
                      GapEnd(om, tm, common, g, Place(|base|, |ours|, |theirs|)), pieces[g])
    {
      assert Settles(base, ours, theirs, StartOf(anchors, Place(0, 0, 0), g), AnchorPlace(anchors[g]), pieces[g]);
      assert StartOf(anchors, Place(0, 0, 0), g) == GapStart(om, tm, common, g);
      assert AnchorPlace(anchors[g]) == GapEnd(om, tm, common, g, Place(|base|, |ours|, |theirs|));
    }
  }

  /** Exactly the lines both matches keep stand between the pieces, each piece settles the
      lines between two neighbours, and the merge conflicts if one of them does. */
  lemma Shape(base: seq<Line>, ours: seq<Line>, theirs: seq<Line>) returns (common: seq<nat>, pieces: seq<Merged>)
    ensures
      var om, tm := Matches(base, ours), Matches(base, theirs);
      && Lists(common, om, tm, |base|) && Laid(base, ours, theirs, om, tm, common, pieces)
      && MergeLines(base, ours, theirs) ==
           Merged(Laced(pieces, seq(|common|, g requires 0 <= g < |common| => base[common[g]])), SomeConflict(pieces))
  {
    hide Matches, MergeFrom, Chain, Anchors, Laced, SomeConflict, Pieced, Laid;
    var om, tm := Matches(base, ours), Matches(base, theirs);
    MatchesFaithful(base, ours);
    AllAnchorsChain(base, ours, theirs);
    AnchorsEnd(om, tm, 0, base, ours, theirs);
    common := CommonLines(om, tm, 0, base, ours, theirs);
    var anchors := Anchors(om, tm, 0, base, ours, theirs);
    pieces := Weave(anchors, Place(0, 0, 0), base, ours, theirs);
    forall g | 0 <= g < |common| ensures common[g] < |base| { assert common[g] in common; }
    LaidOut(base, ours, theirs, om, tm, common, pieces, anchors);
    assert AnchorLines(anchors, base) == seq(|common|, g requires 0 <= g < |common| => base[common[g]]);
  }

  // ------------------------------------------------------------------- clean

  /** `p` is the start or just after a line both matches keep, `q` the next such line or the end. */
  ghost predicate Gap(om: Match, tm: Match, end: Place, p: Place, q: Place)
  {
    && (p == Place(0, 0, 0) || exists k :: k in om && k in tm && p == Place(k + 1, om[k] + 1, tm[k] + 1))
    && (q == end || exists k :: k in om && k in tm && q == Place(k, om[k], tm[k]))
    && p.b <= q.b && forall k :: k in om && k in tm ==> k < p.b || q.b <= k
  }

  /** All three files differ between two places. */
  ghost predicate AllDiffer(base: seq<Line>, ours: seq<Line>, theirs: seq<Line>, p: Place, q: Place)
  {
    && p.b <= q.b <= |base| && p.o <= q.o <= |ours| && p.t <= q.t <= |theirs|
    && var b, o, t := base[p.b..q.b], ours[p.o..q.o], theirs[p.t..q.t];
       o != t && o != b && t != b
  }

  lemma ListedGap(om: Match, tm: Match, common: seq<nat>, g: nat, end: Place)
    requires Lists(common, om, tm, end.b) && g <= |common|
    ensures Gap(om, tm, end, GapStart(om, tm, common, g), GapEnd(om, tm, common, g, end))
  {
    var p, q := GapStart(om, tm, common, g), GapEnd(om, tm, common, g, end);
    assert g > 0 ==> common[g - 1] in common;
    assert g < |common| ==> common[g] in common;
    forall k | k in om && k in tm ensures k < p.b || q.b <= k {
      var i :| 0 <= i < |common| && common[i] == k;
    }
  }

  lemma GapListed(om: Match, tm: Match, common: seq<nat>, end: Place, p: Place, q: Place) returns (g: nat)
    requires Lists(common, om, tm, end.b) && Gap(om, tm, end, p, q)
    ensures g <= |common| && p == GapStart(om, tm, common, g) && q == GapEnd(om, tm, common, g, end)
  {
    forall i | 0 <= i < |common|
      ensures common[i] in om && common[i] in tm && (p.b <= common[i] ==> q.b <= common[i])
    { assert common[i] in common; }
    if q == end {
      g := |common|;
    } else {
      var k :| k in om && k in tm && q == Place(k, om[k], tm[k]);
      g :| 0 <= g < |common| && common[g] == k;
    }
    if p == Place(0, 0, 0) {
      assert forall i :: 0 <= i < |common| ==> q.b <= common[i];
    } else {
      var k :| k in om && k in tm && p == Place(k + 1, om[k] + 1, tm[k] + 1);
      var h :| 0 <= h < |common| && common[h] == k;
      assert h < g && forall i :: h < i < |common| ==> q.b <= common[i];
    }
  }

  /** A merge conflicts exactly if between two neighbouring lines that both matches keep, or the
      ends, no two of the three files agree. */
  lemma ConflictsBetween(base: seq<Line>, ours: seq<Line>, theirs: seq<Line>)
    ensures
      var om, tm := Matches(base, ours), Matches(base, theirs);
      MergeLines(base, ours, theirs).conflicted <==>
      exists p, q :: Gap(om, tm, Place(|base|, |ours|, |theirs|), p, q) && AllDiffer(base, ours, theirs, p, q)
  {
    hide Matches, MergeLines, Laced, Gap, GapStart, GapEnd;
    var om, tm := Matches(base, ours), Matches(base, theirs);
    var end := Place(|base|, |ours|, |theirs|);
    var common, pieces := Shape(base, ours, theirs);
    if g :| 0 <= g < |pieces| && pieces[g].conflicted { ListedGap(om, tm, common, g, end); }
    if p, q :| Gap(om, tm, end, p, q) && AllDiffer(base, ours, theirs, p, q) {
      var g := GapListed(om, tm, common, end, p, q);
      assert pieces[g].conflicted;
    }
  }

  // ---------------------------------------------------------------- instances

  /** One whole line. */
  predicate Whole(l: Line) {
    l != [] && l[|l| - 1] == 0x0A && forall i :: 0 <= i < |l| - 1 ==> l[i] != 0x0A
  }

  lemma WholeFirst(l: Line, rest: Bytes)
    requires Whole(l)
    ensures Lines(l + rest) == [l] + Lines(rest)
  {
    var all := l + rest;
    LineEndAt(all, |l| - 1);
    assert all[..|l|] == l && all[|l|..] == rest;
  }

  lemma ThreeLines(x: Line, y: Line, z: Line)
    requires Whole(x) && Whole(y) && Whole(z)
    ensures Lines(x + y + z) == [x, y, z]
  {
    hide Whole, Lines;
    WholeFirst(x, y + z);
    WholeFirst(y, z);
    WholeFirst(z, []);
    NoLines([]);
    assert x + (y + z) == x + y + z && z + [] == z;
  }

  lemma {:induction false} LcsAtMost(a: seq<Line>, b: seq<Line>)
    ensures Lcs(a, b) <= |a| && Lcs(a, b) <= |b|
    decreases |a| + |b|
  {
    if a != [] && b != [] {
      LcsAtMost(a[1..], b);
      LcsAtMost(a, b[1..]);
      LcsAtMost(a[1..], b[1..]);
    }
  }

  lemma {:induction false} LcsSelf(a: seq<Line>)
    ensures Lcs(a, a) == |a|
  {
    if a != [] { LcsSelf(a[1..]); }
  }

  /** The matches of a script of four edits. */
  lemma FourEdits(ops: seq<Edit>)
    requires |ops| == 4
    ensures ops[0].0.Delete? && ops[1].0.Insert? && ops[2].0.Equal? && ops[3].0.Equal? ==>
      MatchOf(ops, 0, 0) == map[1 := 1, 2 := 2]
    ensures ops[0].0.Equal? && ops[1].0.Equal? && ops[2].0.Delete? && ops[3].0.Insert? ==>
      MatchOf(ops, 0, 0) == map[0 := 0, 1 := 1]
  {
    assert ops[1..][1..] == ops[2..] && ops[2..][1..] == ops[3..] && ops[3..][1..] == [];
    assert MatchOf(ops[3..], 2, 2) == if ops[3].0.Equal? then map[2 := 2] else map[];
    assert ops[2].0.Equal? && ops[1].0.Insert? ==> MatchOf(ops[1..], 1, 0) == MatchOf(ops[3..], 2, 2)[1 := 1];
    assert MatchOf(ops[3..], 3, 2) == if ops[3].0.Equal? then map[3 := 2] else map[];
    assert ops[2].0.Delete? && ops[3].0.Insert? ==> MatchOf(ops[2..], 2, 2) == map[];
  }

  lemma FirstChanged(a: Line, b: Line, c: Line, x: Line)
    requires x != a && x != b && x != c && a != b
    ensures Matches([a, b, c], [x, b, c]) == map[1 := 1, 2 := 2]
  {
    hide Lcs, Script;
    var s := [b, c];
    LcsAtMost([a, b, c], s);
    LcsAtMost([c], [x, b, c]);
    LcsSelf(s);
    LcsDrop(s, [x, b, c]);
    ScriptSteps([a, b, c], [x, b, c]);
    ScriptSteps(s, [x, b, c]);
    ScriptSteps(s, s);
    ScriptSteps([c], [c]);
    ScriptSteps([], []);
    assert [a, b, c][1..] == s && [x, b, c][1..] == s && s[1..] == [c] && [c][1..] == [];
    var ops: seq<Edit> := [(Delete, a), (Insert, x), (Equal, b), (Equal, c)];
    assert Script([a, b, c], [x, b, c]) == ops;
    assert ops[1..] == [(Insert, x), (Equal, b), (Equal, c)] && ops[1..][1..] == [(Equal, b), (Equal, c)];
    FourEdits(ops);
  }

  lemma LastChanged(a: Line, b: Line, c: Line, x: Line)
    requires x != c
    ensures Matches([a, b, c], [a, b, x]) == map[0 := 0, 1 := 1]
  {
    hide Script;
    ScriptSteps([a, b, c], [a, b, x]);
    ScriptSteps([b, c], [b, x]);
    ScriptSteps([c], [x]);
    ScriptSteps([], [x]);
    ScriptSteps([], []);
    assert [a, b, c][1..] == [b, c] && [a, b, x][1..] == [b, x];
    assert [b, c][1..] == [c] && [b, x][1..] == [x] && [c][1..] == [] && [x][1..] == [];
    var ops: seq<Edit> := [(Equal, a), (Equal, b), (Delete, c), (Insert, x)];
    assert Script([a, b, c], [a, b, x]) == ops;
    FourEdits(ops);
  }

  lemma BothChangesLines(a: Line, b: Line, c: Line, x: Line, z: Line)
    requires Matches([a, b, c], [x, b, c]) == map[1 := 1, 2 := 2]
    requires Matches([a, b, c], [a, b, z]) == map[0 := 0, 1 := 1]
    ensures MergeLines([a, b, c], [x, b, c], [a, b, z]) == Merged(x + b + z, false)
  {
    hide Matches, MergeLines, Lists;
    var common, pieces := Shape([a, b, c], [x, b, c], [a, b, z]);
    OnlyOne(common, map[1 := 1, 2 := 2], map[0 := 0, 1 := 1], 1);
    assert Settles([a, b, c], [x, b, c], [a, b, z], Place(0, 0, 0), Place(1, 1, 1), pieces[0]);
    assert Settles([a, b, c], [x, b, c], [a, b, z], Place(2, 2, 2), Place(3, 3, 3), pieces[1]);
    JoinOne(x);
    JoinOne(z);
    assert [a, b, c][0..1] == [a] && [x, b, c][0..1] == [x] && [a, b, z][0..1] == [a];
    assert [a, b, c][2..3] == [c] && [x, b, c][2..3] == [c] && [a, b, z][2..3] == [z];
    assert pieces[1..] == [pieces[1]] && Laced(pieces, [b]) == x + b + z;
  }

  lemma JoinOne(l: Line)
    ensures Join([l]) == l
  {
    assert Join([]) == [] && l + [] == l;
  }

  lemma OnlyOne(common: seq<nat>, om: Match, tm: Match, k: nat)
    requires Lists(common, om, tm, 3) && forall i: nat :: i in om && i in tm <==> i == k
    ensures common == [k]
  {
    assert k in om && k in tm;
    forall i | 0 <= i < |common| ensures common[i] == k && (i > 0 ==> common[0] < common[i]) {
      assert common[i] in common;
    }
    assert common[|common| - 1] == common[0] == k;
  }

  /** Both sides change a different line: both changes, no conflict. */
  lemma BothChanges(a: Line, b: Line, c: Line, x: Line, z: Line)
    requires Whole(a) && Whole(b) && Whole(c) && Whole(x) && Whole(z)
    requires a != b && x != a && x != b && x != c && z != c
    ensures Merge(a + b + c, x + b + c, a + b + z) == Merged(x + b + z, false)
  {
    hide Whole, Lines, Script;
    ThreeLines(a, b, c);
    ThreeLines(x, b, c);
    ThreeLines(a, b, z);
    FirstChanged(a, b, c, x);
    LastChanged(a, b, c, z);
    BothChangesLines(a, b, c, x, z);
  }
}
