/** The three-way line merge of src/diff.rs. */
module Merge3 {
  import opened Base
  import opened Diff

  /** Matched line indexes: base line to the equal line of the other side. */
  type Match = map<nat, nat>

  /** The pairs a script keeps, numbering base lines from `b` and other lines from `o`. */
  function MatchOf(ops: seq<Edit>, b: nat, o: nat): (m: Match)
    decreases |ops|
  {
    if ops == [] then map[]
    else match ops[0].0
      case Equal => MatchOf(ops[1..], b + 1, o + 1)[b := o]
      case Delete => MatchOf(ops[1..], b + 1, o)
      case Insert => MatchOf(ops[1..], b, o + 1)
  }

  function Matches(base: seq<Line>, other: seq<Line>): (m: Match) { MatchOf(Script(base, other), 0, 0) }

  method ComputeMatches(base: seq<Line>, other: seq<Line>) returns (m: Match)
    ensures m == Matches(base, other)
  {
    hide Script, OldSide, NewSide, Kept;
    var ops := LineOps(base, other);
    m := map[];
    var bi: nat, oi: nat := 0, 0;
    assert ops[0..] == ops;
    for i := 0 to |ops|
      invariant forall k :: k in m ==> k < bi
      invariant m + MatchOf(ops[i..], bi, oi) == MatchOf(ops, 0, 0)
    {
      assert ops[i..][1..] == ops[i + 1..];
      match ops[i].0 {
        case Equal =>
          MatchKeys(ops[i + 1..], bi + 1, oi + 1);
          m := m[bi := oi];
          bi, oi := bi + 1, oi + 1;
        case Delete => bi := bi + 1;
        case Insert => oi := oi + 1;
      }
    }
  }

  lemma {:induction false} MatchKeys(ops: seq<Edit>, b: nat, o: nat)
    ensures forall k :: k in MatchOf(ops, b, o) ==> b <= k
    decreases |ops|
  {
    if ops != [] {
      match ops[0].0
      case Equal => MatchKeys(ops[1..], b + 1, o + 1);
      case Delete => MatchKeys(ops[1..], b + 1, o);
      case Insert => MatchKeys(ops[1..], b, o + 1);
    }
  }

  /** Matches pair equal lines, in range and in order. */
  ghost predicate Faithful(m: Match, base: seq<Line>, other: seq<Line>)
  {
    && (forall k :: k in m ==> k < |base| && m[k] < |other| && base[k] == other[m[k]])
    && (forall k, l :: k in m && l in m && k < l ==> m[k] < m[l])
  }

  lemma {:induction false} MatchOfFaithful(ops: seq<Edit>, base: seq<Line>, other: seq<Line>, b: nat, o: nat)
    requires b <= |base| && o <= |other| && OldSide(ops) == base[b..] && NewSide(ops) == other[o..]
    ensures Faithful(MatchOf(ops, b, o), base, other)
    ensures forall k :: k in MatchOf(ops, b, o) ==> b <= k && o <= MatchOf(ops, b, o)[k]
    decreases |ops|
  {
    if ops != [] {
      var rest := ops[1..];
      match ops[0].0
      case Equal =>
        assert base[b..][1..] == base[b + 1..] && other[o..][1..] == other[o + 1..];
        assert OldSide(rest) == base[b + 1..] && NewSide(rest) == other[o + 1..];
        assert base[b] == base[b..][0] == other[o..][0] == other[o];
        MatchOfFaithful(rest, base, other, b + 1, o + 1);
      case Delete =>
        assert base[b..][1..] == base[b + 1..];
        assert OldSide(rest) == base[b + 1..] && NewSide(rest) == other[o..];
        MatchOfFaithful(rest, base, other, b + 1, o);
      case Insert =>
        assert other[o..][1..] == other[o + 1..];
        assert OldSide(rest) == base[b..] && NewSide(rest) == other[o + 1..];
        MatchOfFaithful(rest, base, other, b, o + 1);
    }
  }

  lemma MatchesFaithful(base: seq<Line>, other: seq<Line>)
    ensures Faithful(Matches(base, other), base, other)
  {
    ScriptTurns(base, other);
    assert base[0..] == base && other[0..] == other;
    MatchOfFaithful(Script(base, other), base, other, 0, 0);
  }

  /** As many lines are matched as any script keeps. */
  lemma MatchesMost(base: seq<Line>, other: seq<Line>, ops: seq<Edit>)
    requires Turns(ops, base, other)
    ensures Kept(ops) <= |Matches(base, other)|
  {
    ScriptTurns(base, other);
    LcsBounds(ops, base, other);
    MatchCount(Script(base, other), 0, 0);
  }

  lemma {:induction false} MatchCount(ops: seq<Edit>, b: nat, o: nat)
    ensures |MatchOf(ops, b, o)| == Kept(ops)
    decreases |ops|
  {
    if ops != [] {
      match ops[0].0
      case Equal =>
        MatchCount(ops[1..], b + 1, o + 1);
        MatchKeys(ops[1..], b + 1, o + 1);
        var m := MatchOf(ops[1..], b + 1, o + 1);
        assert b !in m && m[b := o].Keys == m.Keys + {b};
      case Delete => MatchCount(ops[1..], b + 1, o);
      case Insert => MatchCount(ops[1..], b, o + 1);
    }
  }

  /** A file matches itself line by line. */
  lemma {:induction false} SelfScript(lines: seq<Line>, b: nat)
    ensures forall k :: k in MatchOf(Script(lines, lines), b, b) <==> b <= k < b + |lines|
    ensures forall k :: k in MatchOf(Script(lines, lines), b, b) ==> MatchOf(Script(lines, lines), b, b)[k] == k
    decreases |lines|
  {
    if lines != [] {
      assert Script(lines, lines)[1..] == Script(lines[1..], lines[1..]);
      SelfScript(lines[1..], b + 1);
    }
  }

  // ----------------------------------------------------------------- anchors

  /** A base line unchanged on both sides, and where it is on each. */
  datatype Anchor = Anchor(b: nat, o: nat, t: nat)

  /** Anchors from base line `from` on, then the ends of all three files. */
  function Anchors(om: Match, tm: Match, from: nat, base: seq<Line>, ours: seq<Line>,
                   theirs: seq<Line>): (r: seq<Anchor>)
    decreases |base| - from
  {
    if from >= |base| then [Anchor(|base|, |ours|, |theirs|)]
    else
      var rest := Anchors(om, tm, from + 1, base, ours, theirs);
      if from in om && from in tm then [Anchor(from, om[from], tm[from])] + rest else rest
  }

  // ------------------------------------------------------------------- merging

  datatype Merged = Merged(bytes: Bytes, conflicted: bool)

  const OURS_MARK: Bytes := [60, 60, 60, 60, 60, 60, 60, 32, 111, 117, 114, 115, 10]
  const MID_MARK: Bytes := [61, 61, 61, 61, 61, 61, 61, 10]
  const THEIRS_MARK: Bytes := [62, 62, 62, 62, 62, 62, 62, 32, 116, 104, 101, 105, 114, 115, 10]

  /** One region between anchors. */
  function Region(b: seq<Line>, o: seq<Line>, t: seq<Line>): (r: Merged)
  {
    if o == t then Merged(Join(o), false)
    else if o == b then Merged(Join(t), false)
    else if t == b then Merged(Join(o), false)
    else Merged(OURS_MARK + Join(o) + MID_MARK + Join(t) + THEIRS_MARK, true)
  }

  predicate InOrder(a: Anchor, pb: nat, po: nat, pt: nat, base: seq<Line>, ours: seq<Line>, theirs: seq<Line>)
  {
    && pb <= a.b <= |base| && po <= a.o <= |ours| && pt <= a.t <= |theirs|
  }

  ghost predicate Chain(anchors: seq<Anchor>, pb: nat, po: nat, pt: nat, base: seq<Line>, ours: seq<Line>,
                        theirs: seq<Line>)
    decreases |anchors|
  {
    anchors != [] ==>
      var a := anchors[0];
      && InOrder(a, pb, po, pt, base, ours, theirs)
      && (if a.b < |base|
          then a.o < |ours| && a.t < |theirs| && base[a.b] == ours[a.o] == theirs[a.t]
               && Chain(anchors[1..], a.b + 1, a.o + 1, a.t + 1, base, ours, theirs)
          else a == Anchor(|base|, |ours|, |theirs|) && |anchors| == 1)
  }

  /** Merges region by region; each anchor line follows its region. */
  function MergeFrom(anchors: seq<Anchor>, pb: nat, po: nat, pt: nat,
                     base: seq<Line>, ours: seq<Line>, theirs: seq<Line>): (r: Merged)
    requires Chain(anchors, pb, po, pt, base, ours, theirs)
    decreases |anchors|
  {
    if anchors == [] then Merged([], false)
    else
      var a := anchors[0];
      var here := Region(base[pb..a.b], ours[po..a.o], theirs[pt..a.t]);
      if a.b < |base| then
        var rest := MergeFrom(anchors[1..], a.b + 1, a.o + 1, a.t + 1, base, ours, theirs);
        Merged(here.bytes + base[a.b] + rest.bytes, here.conflicted || rest.conflicted)
      else here
  }

  lemma NextMatch(m: Match, base: seq<Line>, other: seq<Line>, at: nat)
    requires Faithful(m, base, other) && at in m
    ensures at < |base| && m[at] < |other| && base[at] == other[m[at]]
    ensures forall k :: k in m && at + 1 <= k ==> m[at] + 1 <= m[k]
  {}

  /** Anchors of faithful matches are in order and name equal lines. */
  lemma {:induction false} AnchorsChain(om: Match, tm: Match, from: nat, pb: nat, po: nat, pt: nat,
                                        base: seq<Line>, ours: seq<Line>, theirs: seq<Line>)
    requires Faithful(om, base, ours) && Faithful(tm, base, theirs) && pb <= from <= |base|
    requires po <= |ours| && pt <= |theirs|
    requires forall k :: k in om && from <= k ==> po <= om[k]
    requires forall k :: k in tm && from <= k ==> pt <= tm[k]
    ensures Chain(Anchors(om, tm, from, base, ours, theirs), pb, po, pt, base, ours, theirs)
    decreases |base| - from
  {
    hide Faithful;
    if from < |base| {
      if from in om && from in tm {
        NextMatch(om, base, ours, from);
        NextMatch(tm, base, theirs, from);
        AnchorsChain(om, tm, from + 1, from + 1, om[from] + 1, tm[from] + 1, base, ours, theirs);
        var all, rest := Anchors(om, tm, from, base, ours, theirs), Anchors(om, tm, from + 1, base, ours, theirs);
        assert all[1..] == rest;
      } else {
        AnchorsChain(om, tm, from + 1, pb, po, pt, base, ours, theirs);
      }
    }
  }

  lemma AllAnchorsChain(base: seq<Line>, ours: seq<Line>, theirs: seq<Line>)
    ensures
      var om, tm := Matches(base, ours), Matches(base, theirs);
      Chain(Anchors(om, tm, 0, base, ours, theirs), 0, 0, 0, base, ours, theirs)
  {
    hide Matches;
    MatchesFaithful(base, ours);
    MatchesFaithful(base, theirs);
    AnchorsChain(Matches(base, ours), Matches(base, theirs), 0, 0, 0, 0, base, ours, theirs);
  }

  /** The merge of three files given as lines. */
  function MergeLines(base: seq<Line>, ours: seq<Line>, theirs: seq<Line>): (r: Merged)
  {
    AllAnchorsChain(base, ours, theirs);
    MergeFrom(Anchors(Matches(base, ours), Matches(base, theirs), 0, base, ours, theirs), 0, 0, 0, base, ours, theirs)
  }

  /** The merge of three byte strings. */
  function Merge(base: Bytes, ours: Bytes, theirs: Bytes): (r: Merged)
  {
    MergeLines(Lines(base), Lines(ours), Lines(theirs))
  }

  method ComputeAnchors(om: Match, tm: Match, base: seq<Line>, ours: seq<Line>, theirs: seq<Line>)
    returns (r: seq<Anchor>)
    ensures r == Anchors(om, tm, 0, base, ours, theirs)
  {
    r := [];
    for bi := 0 to |base|
      invariant r + Anchors(om, tm, bi, base, ours, theirs) == Anchors(om, tm, 0, base, ours, theirs)
    {
      if bi in om && bi in tm {
        r := r + [Anchor(bi, om[bi], tm[bi])];
      }
    }
    r := r + [Anchor(|base|, |ours|, |theirs|)];
  }

  /** What the first anchor of a chain contributes. */
  lemma MergeStep(anchors: seq<Anchor>, pb: nat, po: nat, pt: nat, base: seq<Line>, ours: seq<Line>, theirs: seq<Line>)
    requires anchors != [] && Chain(anchors, pb, po, pt, base, ours, theirs)
    ensures
      var a := anchors[0];
      && InOrder(a, pb, po, pt, base, ours, theirs)
      && Chain(anchors[1..], a.b + 1, a.o + 1, a.t + 1, base, ours, theirs)
      && var rest := MergeFrom(anchors[1..], a.b + 1, a.o + 1, a.t + 1, base, ours, theirs);
         var here := Region(base[pb..a.b], ours[po..a.o], theirs[pt..a.t]);
         MergeFrom(anchors, pb, po, pt, base, ours, theirs) ==
           Merged(here.bytes + (if a.b < |base| then base[a.b] else []) + rest.bytes,
                  here.conflicted || rest.conflicted)
  {
    hide Region;
    if anchors[0].b == |base| { assert anchors[1..] == []; }
  }

  /** Moves the three cursors from anchor to anchor. */
  method MergeAnchors(anchors: seq<Anchor>, b: seq<Line>, o: seq<Line>, t: seq<Line>) returns (r: Merged)
    requires Chain(anchors, 0, 0, 0, b, o, t)
    ensures r == MergeFrom(anchors, 0, 0, 0, b, o, t)
  {
    hide Region, MergeFrom, Chain;
    var merged: Bytes, conflicted: bool := [], false;
    var pb: nat, po: nat, pt: nat := 0, 0, 0;
    ghost var whole := MergeFrom(anchors, 0, 0, 0, b, o, t);
    assert anchors[0..] == anchors;
    for i := 0 to |anchors|
      invariant Chain(anchors[i..], pb, po, pt, b, o, t)
      invariant whole.bytes == merged + MergeFrom(anchors[i..], pb, po, pt, b, o, t).bytes
      invariant whole.conflicted == (conflicted || MergeFrom(anchors[i..], pb, po, pt, b, o, t).conflicted)
    {
      var a := anchors[i];
      assert anchors[i..][0] == a && anchors[i..][1..] == anchors[i + 1..];
      MergeStep(anchors[i..], pb, po, pt, b, o, t);
      var here := Region(b[pb..a.b], o[po..a.o], t[pt..a.t]);
      conflicted := conflicted || here.conflicted;
      merged := merged + here.bytes;
      if a.b < |b| {
        merged := merged + b[a.b];
      }
      pb, po, pt := a.b + 1, a.o + 1, a.t + 1;
    }
    MergeNothing(pb, po, pt, b, o, t);
    assert anchors[|anchors|..] == [] && merged + [] == merged;
    return Merged(merged, conflicted);
  }

  lemma MergeNothing(pb: nat, po: nat, pt: nat, base: seq<Line>, ours: seq<Line>, theirs: seq<Line>)
    ensures Chain([], pb, po, pt, base, ours, theirs)
    ensures MergeFrom([], pb, po, pt, base, ours, theirs) == Merged([], false)
  {}

  method MergeThree(base: Bytes, ours: Bytes, theirs: Bytes) returns (r: Merged)
    ensures r == Merge(base, ours, theirs)
  {
    hide Matches, Anchors, Lines, MergeFrom, Chain;
    var b := SplitLines(base);
    var o := SplitLines(ours);
    var t := SplitLines(theirs);
    var om := ComputeMatches(b, o);
    var tm := ComputeMatches(b, t);
    var anchors := ComputeAnchors(om, tm, b, o, t);
    AllAnchorsChain(b, o, t);
    r := MergeAnchors(anchors, b, o, t);
  }

  // ---------------------------------------------------------------------- laws

  /** `anchors` with the two sides exchanged. */
  function Swapped(anchors: seq<Anchor>): (r: seq<Anchor>)
    ensures |r| == |anchors|
  {
    if anchors == [] then [] else [Anchor(anchors[0].b, anchors[0].t, anchors[0].o)] + Swapped(anchors[1..])
  }

  lemma {:induction false} AnchorsSwap(om: Match, tm: Match, from: nat, base: seq<Line>, ours: seq<Line>,
                                       theirs: seq<Line>)
    ensures Anchors(tm, om, from, base, theirs, ours) == Swapped(Anchors(om, tm, from, base, ours, theirs))
    decreases |base| - from
  {
    if from < |base| {
      AnchorsSwap(om, tm, from + 1, base, ours, theirs);
      var a := Anchors(om, tm, from, base, ours, theirs);
      if from in om && from in tm { assert a[1..] == Anchors(om, tm, from + 1, base, ours, theirs); }
    }
  }

  lemma RegionSwap(b: seq<Line>, o: seq<Line>, t: seq<Line>)
    ensures Region(b, o, t).conflicted == Region(b, t, o).conflicted
    ensures !Region(b, o, t).conflicted ==> Region(b, o, t) == Region(b, t, o)
  {}

  lemma {:induction false} MergeFromSwap(anchors: seq<Anchor>, pb: nat, po: nat, pt: nat,
                                         base: seq<Line>, ours: seq<Line>, theirs: seq<Line>)
    requires Chain(anchors, pb, po, pt, base, ours, theirs)
    ensures Chain(Swapped(anchors), pb, pt, po, base, theirs, ours)
    ensures
      var a := MergeFrom(anchors, pb, po, pt, base, ours, theirs);
      var b := MergeFrom(Swapped(anchors), pb, pt, po, base, theirs, ours);
      a.conflicted == b.conflicted && (!a.conflicted ==> a == b)
    decreases |anchors|
  {
    hide Region, MergeFrom;
    if anchors == [] {
      MergeNothing(pb, po, pt, base, ours, theirs);
      MergeNothing(pb, pt, po, base, theirs, ours);
    } else {
      var a, swapped := anchors[0], Swapped(anchors);
      assert swapped[0] == Anchor(a.b, a.t, a.o) && swapped[1..] == Swapped(anchors[1..]);
      MergeStep(anchors, pb, po, pt, base, ours, theirs);
      MergeFromSwap(anchors[1..], a.b + 1, a.o + 1, a.t + 1, base, ours, theirs);
      assert Chain(swapped, pb, pt, po, base, theirs, ours);
      MergeStep(swapped, pb, pt, po, base, theirs, ours);
      RegionSwap(base[pb..a.b], ours[po..a.o], theirs[pt..a.t]);
    }
  }

  /** Exchanging the sides keeps the verdict and, when clean, every byte. */
  lemma MergeSwap(base: Bytes, ours: Bytes, theirs: Bytes)
    ensures Merge(base, ours, theirs).conflicted == Merge(base, theirs, ours).conflicted
    ensures !Merge(base, ours, theirs).conflicted ==> Merge(base, ours, theirs) == Merge(base, theirs, ours)
  {
    hide Matches, Lines, MergeFrom;
    var b, o, t := Lines(base), Lines(ours), Lines(theirs);
    AllAnchorsChain(b, o, t);
    AllAnchorsChain(b, t, o);
    AnchorsSwap(Matches(b, o), Matches(b, t), 0, b, o, t);
    MergeFromSwap(Anchors(Matches(b, o), Matches(b, t), 0, b, o, t), 0, 0, 0, b, o, t);
  }

  /** In every region their text is what both sides agree on or the only change. */
  predicate TheirsWins(anchors: seq<Anchor>, pb: nat, po: nat, pt: nat, base: seq<Line>, ours: seq<Line>,
                       theirs: seq<Line>)
    requires Chain(anchors, pb, po, pt, base, ours, theirs)
    decreases |anchors|
  {
    anchors != [] ==>
      var a := anchors[0];
      && (ours[po..a.o] == theirs[pt..a.t] || ours[po..a.o] == base[pb..a.b])
      && (a.b < |base| ==> TheirsWins(anchors[1..], a.b + 1, a.o + 1, a.t + 1, base, ours, theirs))
  }

  /** Then the merge is exactly their file. */
  lemma {:induction false} TheirsWinsAll(anchors: seq<Anchor>, pb: nat, po: nat, pt: nat,
                                         base: seq<Line>, ours: seq<Line>, theirs: seq<Line>)
    requires Chain(anchors, pb, po, pt, base, ours, theirs) && anchors != []
    requires TheirsWins(anchors, pb, po, pt, base, ours, theirs)
    requires EndsAtEnd(anchors, base)
    ensures MergeFrom(anchors, pb, po, pt, base, ours, theirs) == Merged(Join(theirs[pt..]), false)
    decreases |anchors|
  {
    hide Region, Join, MergeFrom, EndsAtEnd;
    var a := anchors[0];
    MergeStep(anchors, pb, po, pt, base, ours, theirs);
    RegionTheirs(base[pb..a.b], ours[po..a.o], theirs[pt..a.t]);
    if a.b < |base| {
      EndsLater(anchors, base);
      TheirsWinsAll(anchors[1..], a.b + 1, a.o + 1, a.t + 1, base, ours, theirs);
      JoinAt(theirs, pt, a.t);
    } else {
      TheirsEnd(anchors, pb, po, pt, base, ours, theirs);
    }
  }

  lemma TheirsEnd(anchors: seq<Anchor>, pb: nat, po: nat, pt: nat, base: seq<Line>, ours: seq<Line>, theirs: seq<Line>)
    requires Chain(anchors, pb, po, pt, base, ours, theirs) && anchors != [] && anchors[0].b == |base|
    ensures MergeFrom(anchors, pb, po, pt, base, ours, theirs) ==
            Region(base[pb..anchors[0].b], ours[po..anchors[0].o], theirs[pt..anchors[0].t])
    ensures theirs[pt..anchors[0].t] == theirs[pt..]
  {
    hide Region;
  }

  lemma RegionTheirs(b: seq<Line>, o: seq<Line>, t: seq<Line>)
    requires o == t || o == b
    ensures Region(b, o, t) == Merged(Join(t), false)
  {}

  lemma JoinAt(lines: seq<Line>, from: nat, at: nat)
    requires from <= at < |lines|
    ensures Join(lines[from..]) == Join(lines[from..at]) + lines[at] + Join(lines[at + 1..])
  {
    var tail := [lines[at]] + lines[at + 1..];
    assert lines[from..] == lines[from..at] + tail;
    JoinAppend(lines[from..at], tail);
    assert tail[1..] == lines[at + 1..];
  }

  lemma EndsLater(anchors: seq<Anchor>, base: seq<Line>)
    requires EndsAtEnd(anchors, base) && anchors[0].b < |base|
    ensures anchors[1..] != [] && EndsAtEnd(anchors[1..], base)
  {}

  /** The list ends with the sentinel. */
  predicate EndsAtEnd(anchors: seq<Anchor>, base: seq<Line>)
  {
    anchors != [] && anchors[|anchors| - 1].b == |base|
    && forall i :: 0 <= i < |anchors| - 1 ==> anchors[i].b < |base|
  }

  lemma {:induction false} AnchorsEnd(om: Match, tm: Match, from: nat, base: seq<Line>, ours: seq<Line>,
                                      theirs: seq<Line>)
    ensures EndsAtEnd(Anchors(om, tm, from, base, ours, theirs), base)
    decreases |base| - from
  {
    if from < |base| { AnchorsEnd(om, tm, from + 1, base, ours, theirs); }
  }

  /** With one match for both sides the two cursors move together. */
  lemma {:induction false} SameSidesWin(m: Match, from: nat, pb: nat, p: nat, base: seq<Line>, side: seq<Line>)
    requires Chain(Anchors(m, m, from, base, side, side), pb, p, p, base, side, side)
    ensures TheirsWins(Anchors(m, m, from, base, side, side), pb, p, p, base, side, side)
    decreases |base| - from
  {
    if from < |base| {
      if from in m {
        assert Anchors(m, m, from, base, side, side)[1..] == Anchors(m, m, from + 1, base, side, side);
        SameSidesWin(m, from + 1, from + 1, m[from] + 1, base, side);
      } else {
        SameSidesWin(m, from + 1, pb, p, base, side);
      }
    }
  }

  /** With our side matched to itself our cursor is the base cursor. */
  lemma {:induction false} UnchangedWins(om: Match, tm: Match, from: nat, p: nat, pt: nat, base: seq<Line>,
                                         theirs: seq<Line>)
    requires forall k :: k in om ==> om[k] == k
    requires Chain(Anchors(om, tm, from, base, base, theirs), p, p, pt, base, base, theirs)
    ensures TheirsWins(Anchors(om, tm, from, base, base, theirs), p, p, pt, base, base, theirs)
    decreases |base| - from
  {
    if from < |base| {
      if from in om && from in tm {
        assert Anchors(om, tm, from, base, base, theirs)[1..] == Anchors(om, tm, from + 1, base, base, theirs);
        UnchangedWins(om, tm, from + 1, from + 1, tm[from] + 1, base, theirs);
      } else {
        UnchangedWins(om, tm, from + 1, p, pt, base, theirs);
      }
    }
  }

  /** A conflicting region as it is written. */
  function Marked(o: Bytes, t: Bytes): (r: Bytes) { OURS_MARK + o + MID_MARK + t + THEIRS_MARK }

  /** Different files made from nothing conflict as a whole. */
  lemma EmptyBase(ours: Bytes, theirs: Bytes)
    requires ours != theirs && ours != [] && theirs != []
    ensures Merge([], ours, theirs) == Merged(Marked(ours, theirs), true)
  {
    hide Matches, Join, Lines;
    var o, t := Lines(ours), Lines(theirs);
    JoinLines(ours);
    JoinLines(theirs);
    JoinLines([]);
    NoLines([]);
    AllAnchorsChain([], o, t);
    NoJoin();
    assert o[0..|o|] == o && t[0..|t|] == t;
  }

  lemma NoJoin()
    ensures Join([]) == []
  {}

  /** Identical sides merge to that side. */
  lemma MergeIdentical(base: Bytes, side: Bytes)
    ensures Merge(base, side, side) == Merged(side, false)
  {
    hide Matches, Lines, MergeFrom, Join;
    var b, s := Lines(base), Lines(side);
    var m := Matches(b, s);
    AllAnchorsChain(b, s, s);
    AnchorsEnd(m, m, 0, b, s, s);
    SameSidesWin(m, 0, 0, 0, b, s);
    TheirsWinsAll(Anchors(m, m, 0, b, s, s), 0, 0, 0, b, s, s);
    assert s[0..] == s;
    JoinLines(side);
  }

  /** An unchanged side yields exactly the other side. */
  lemma MergeUnchanged(base: Bytes, other: Bytes)
    ensures Merge(base, base, other) == Merged(other, false) == Merge(base, other, base)
  {
    hide Lines, MergeFrom, Join, Script, MatchOf;
    var b, t := Lines(base), Lines(other);
    var om, tm := Matches(b, b), Matches(b, t);
    SelfScript(b, 0);
    AllAnchorsChain(b, b, t);
    AnchorsEnd(om, tm, 0, b, b, t);
    UnchangedWins(om, tm, 0, 0, 0, b, t);
    TheirsWinsAll(Anchors(om, tm, 0, b, b, t), 0, 0, 0, b, b, t);
    assert t[0..] == t;
    JoinLines(other);
    MergeSwap(base, base, other);
  }
}
