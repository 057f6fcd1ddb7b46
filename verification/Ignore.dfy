/** Gitignore globbing of src/ignore.rs. */
module Ignore {
  import opened Base

  const STAR: byte := 42
  const QUERY: byte := 63
  const DOUBLE_STAR: Bytes := [42, 42]

  /** The meaning of a glob: `*` spans any run of bytes, `?` one byte. */
  predicate Matches(pat: Bytes, text: Bytes)
    decreases |pat| + |text|
  {
    if pat == [] then text == []
    else if pat[0] == STAR then
      Matches(pat[1..], text) || (text != [] && Matches(pat, text[1..]))
    else text != [] && (pat[0] == QUERY || pat[0] == text[0]) && Matches(pat[1..], text[1..])
  }

  /** `c` takes the byte `b` before it is looked at as a star. */
  predicate Takes(c: byte, b: byte) { c == QUERY || c == b }

  /** What the scanner decides: a star facing a literal `*` byte is spent on that byte. */
  predicate Scans(pat: Bytes, text: Bytes)
    decreases |pat|
  {
    if pat == [] then text == []
    else if text != [] && Takes(pat[0], text[0]) then Scans(pat[1..], text[1..])
    else pat[0] == STAR && exists k :: 0 <= k <= |text| && Scans(pat[1..], text[k..])
  }

  // ------------------------------------------------------- the greedy scanner

  /** `n` pattern bytes from `q` take the `n` text bytes from `t`. */
  predicate Run(pat: Bytes, text: Bytes, q: nat, t: nat, n: nat)
  {
    && q + n <= |pat| && t + n <= |text|
    && forall i :: t <= i < t + n ==> Takes(pat[q + (i - t)], text[i])
  }

  lemma RunTail(pat: Bytes, text: Bytes, q: nat, t: nat, n: nat)
    requires Run(pat, text, q, t, n) && n > 0
    ensures Run(pat, text, q + 1, t + 1, n - 1) && Takes(pat[q], text[t])
  {
    forall i | t + 1 <= i < t + n ensures Takes(pat[q + 1 + (i - (t + 1))], text[i]) {
      assert q + 1 + (i - (t + 1)) == q + (i - t);
    }
    assert Takes(pat[q + (t - t)], text[t]);
  }

  lemma EmptyRun(pat: Bytes, text: Bytes, q: nat, t: nat)
    requires q <= |pat| && t <= |text|
    ensures Run(pat, text, q, t, 0)
  {}

  lemma RunGrows(pat: Bytes, text: Bytes, q: nat, t: nat, n: nat)
    requires Run(pat, text, q, t, n) && q + n < |pat| && t + n < |text| && Takes(pat[q + n], text[t + n])
    ensures Run(pat, text, q, t, n + 1)
  {}

  /** A later start of the same pattern segment can only end later: a star that the
      run spent on one byte shrinks the lag by at most one, and at no lag the two coincide. */
  lemma {:induction false} LaterStartEndsLater(pat: Bytes, text: Bytes, q: nat, t: nat, n: nat, k: nat)
    returns (end: nat)
    requires Run(pat, text, q, t, n) && t <= k <= |text| && Scans(pat[q..], text[k..])
    ensures t + n <= end <= |text| && Scans(pat[q + n..], text[end..])
    decreases n
  {
    hide Scans, Run, Takes;
    assert q + n <= |pat| && t + n <= |text| by { RunFits(pat, text, q, t, n); }
    if n == 0 {
      end := k;
    } else {
      RunTail(pat, text, q, t, n);
      ScansOn(pat, text, q, k);
      if k < |text| && Takes(pat[q], text[k]) {
        end := LaterStartEndsLater(pat, text, q + 1, t + 1, n - 1, k + 1);
      } else {
        assert k != t;
        var j :| k <= j <= |text| && Scans(pat[q + 1..], text[j..]);
        end := LaterStartEndsLater(pat, text, q + 1, t + 1, n - 1, j);
      }
    }
  }

  lemma RunFits(pat: Bytes, text: Bytes, q: nat, t: nat, n: nat)
    requires Run(pat, text, q, t, n)
    ensures q + n <= |pat| && t + n <= |text|
  {}

  /** A scan goes on after the byte its first pattern byte takes, or anywhere after a star. */
  lemma ScansOn(pat: Bytes, text: Bytes, q: nat, k: nat)
    requires q < |pat| && k <= |text| && Scans(pat[q..], text[k..])
    ensures
      if k < |text| && Takes(pat[q], text[k]) then Scans(pat[q + 1..], text[k + 1..]) else Retry(pat, text, q + 1, k)
  {
    hide Scans;
    if k < |text| && Takes(pat[q], text[k]) {
      TakeStep(pat, text, q, k);
    } else {
      StarOnly(pat[q..], text[k..]);
      StarStep(pat, text, q, k);
    }
  }

  lemma StarOnly(p: Bytes, s: Bytes)
    requires p != [] && Scans(p, s) && !(s != [] && Takes(p[0], s[0]))
    ensures p[0] == STAR
  {}

  /** Some later text position continues the pattern after the recorded star. */
  ghost predicate Retry(pat: Bytes, text: Bytes, q: nat, from: nat)
    requires q <= |pat|
  {
    exists k :: from <= k <= |text| && Scans(pat[q..], text[k..])
  }

  lemma TakeStep(pat: Bytes, text: Bytes, p: nat, t: nat)
    requires p < |pat| && t < |text| && Takes(pat[p], text[t])
    ensures Scans(pat[p..], text[t..]) == Scans(pat[p + 1..], text[t + 1..])
  {
    assert pat[p..][1..] == pat[p + 1..] && text[t..][1..] == text[t + 1..];
  }

  lemma StarStep(pat: Bytes, text: Bytes, p: nat, t: nat)
    requires p < |pat| && t <= |text| && pat[p] == STAR && (t < |text| ==> !Takes(pat[p], text[t]))
    ensures Scans(pat[p..], text[t..]) <==> Retry(pat, text, p + 1, t)
  {
    hide Scans, Takes;
    var s := text[t..];
    assert pat[p..][1..] == pat[p + 1..];
    ScansStar(pat[p..], s);
    if Scans(pat[p..], s) {
      var j :| 0 <= j <= |s| && Scans(pat[p..][1..], s[j..]);
      Dropped(text, t, j);
    }
    if Retry(pat, text, p + 1, t) {
      var k :| t <= k <= |text| && Scans(pat[p + 1..], text[k..]);
      Dropped(text, t, k - t);
    }
  }

  lemma Dropped(s: Bytes, i: nat, j: nat)
    requires i + j <= |s|
    ensures s[i..][j..] == s[i + j..]
  {}

  lemma ScansStar(p: Bytes, s: Bytes)
    requires p != [] && p[0] == STAR && (s != [] ==> !Takes(p[0], s[0]))
    ensures Scans(p, s) <==> exists j :: 0 <= j <= |s| && Scans(p[1..], s[j..])
  {}

  lemma DeadEnd(pat: Bytes, text: Bytes, p: nat, t: nat)
    requires p <= |pat| && t < |text|
    requires p < |pat| ==> !Takes(pat[p], text[t]) && pat[p] != STAR
    ensures !Scans(pat[p..], text[t..])
  {}

  lemma RetrySplit(pat: Bytes, text: Bytes, q: nat, from: nat)
    requires q <= |pat| && from <= |text|
    ensures Retry(pat, text, q, from) <==> Scans(pat[q..], text[from..]) || Retry(pat, text, q, from + 1)
  {}

  /** Once a second star is reached, the first one's other choices add nothing. */
  lemma NewStarSuffices(pat: Bytes, text: Bytes, sp: nat, st: nat, p: nat, t: nat)
    requires sp < p < |pat| && pat[p] == STAR && t <= |text| && (t < |text| ==> !Takes(pat[p], text[t]))
    requires p - (sp + 1) == t - st >= 0 && Run(pat, text, sp + 1, st, t - st)
    requires Retry(pat, text, sp + 1, st + 1)
    ensures Scans(pat[p..], text[t..])
  {
    hide Scans, Run, Takes;
    var k :| st + 1 <= k <= |text| && Scans(pat[sp + 1..], text[k..]);
    var end := LaterStartEndsLater(pat, text, sp + 1, st, t - st, k);
    StarStep(pat, text, p, t);
    if end < |text| && Takes(pat[p], text[end]) {
      TakeStep(pat, text, p, end);
    } else {
      StarStep(pat, text, p, end);
    }
  }

  /** At the end of the text only trailing stars are left to match. */
  lemma {:induction false} EndOfText(pat: Bytes, text: Bytes, p: nat)
    requires p <= |pat|
    ensures Scans(pat[p..], text[|text|..]) <==> forall i :: p <= i < |pat| ==> pat[i] == STAR
    decreases |pat| - p
  {
    if p < |pat| {
      EndOfText(pat, text, p + 1);
      assert pat[p..][1..] == pat[p + 1..];
      var s := text[|text|..];
      assert s[0..] == s;
    }
  }

  lemma EndIsFinal(pat: Bytes, text: Bytes, sp: nat, st: nat, p: nat)
    requires sp < p <= |pat| && st <= |text|
    requires p - (sp + 1) == |text| - st && Run(pat, text, sp + 1, st, |text| - st)
    requires Retry(pat, text, sp + 1, st + 1)
    ensures Scans(pat[p..], text[|text|..])
  {
    hide Scans, Run;
    var k :| st + 1 <= k <= |text| && Scans(pat[sp + 1..], text[k..]);
    var end := LaterStartEndsLater(pat, text, sp + 1, st, |text| - st, k);
  }

  method GlobSeg(pat: Bytes, text: Bytes) returns (r: bool)
    ensures r == Scans(pat, text)
  {
    hide Scans, Retry, Run;
    var p: nat, t: nat, starP: Option<nat>, starT: nat := 0, 0, None, 0;
    assert pat[0..] == pat && text[0..] == text;
    while t < |text|
      invariant p <= |pat| && starT <= t <= |text|
      invariant starP.Some? ==>
        && starP.value < p && p - (starP.value + 1) == t - starT
        && Run(pat, text, starP.value + 1, starT, t - starT)
      invariant Scans(pat, text) <==>
        Scans(pat[p..], text[t..]) || (starP.Some? && Retry(pat, text, starP.value + 1, starT + 1))
      decreases if starP.Some? then |pat| - starP.value else |pat| + 1, |text| - starT, |text| - t
    {
      if p < |pat| && (pat[p] == QUERY || pat[p] == text[t]) {
        TakeStep(pat, text, p, t);
        if starP.Some? {
          RunGrows(pat, text, starP.value + 1, starT, t - starT);
        }
        p, t := p + 1, t + 1;
      } else if p < |pat| && pat[p] == STAR {
        if starP.Some? && Retry(pat, text, starP.value + 1, starT + 1) {
          NewStarSuffices(pat, text, starP.value, starT, p, t);
        }
        StarStep(pat, text, p, t);
        RetrySplit(pat, text, p + 1, t);
        starP, starT := Some(p), t;
        p := p + 1;
        EmptyRun(pat, text, p, t);
      } else if starP.Some? {
        DeadEnd(pat, text, p, t);
        RetrySplit(pat, text, starP.value + 1, starT + 1);
        p := starP.value + 1;
        starT := starT + 1;
        t := starT;
        EmptyRun(pat, text, p, t);
      } else {
        DeadEnd(pat, text, p, t);
        return false;
      }
    }
    if starP.Some? && Retry(pat, text, starP.value + 1, starT + 1) {
      EndIsFinal(pat, text, starP.value, starT, p);
    }
    EndOfText(pat, text, p);
    ghost var stop := p;
    while p < |pat| && pat[p] == STAR
      invariant stop <= p <= |pat|
      invariant forall i :: stop <= i < p ==> pat[i] == STAR
    {
      p := p + 1;
    }
    return p == |pat|;
  }

  // ------------------------------------------- the scanner against the meaning

  lemma {:induction false} StarSpans(pat: Bytes, text: Bytes)
    requires pat != [] && pat[0] == STAR
    ensures Matches(pat, text) <==> exists k :: 0 <= k <= |text| && Matches(pat[1..], text[k..])
    decreases |text|
  {
    assert text[0..] == text;
    if text != [] {
      var s := text[1..];
      StarSpans(pat, s);
      if Matches(pat, s) {
        var j :| 0 <= j <= |s| && Matches(pat[1..], s[j..]);
        assert s[j..] == text[j + 1..];
      }
      if k :| 1 <= k <= |text| && Matches(pat[1..], text[k..]) {
        assert s[k - 1..] == text[k..];
      }
    }
  }

  /** A scan never accepts what the glob does not match. */
  lemma {:induction false} ScanIsSound(pat: Bytes, text: Bytes)
    requires Scans(pat, text)
    ensures Matches(pat, text)
    decreases |pat|
  {
    if pat != [] {
      if text != [] && Takes(pat[0], text[0]) {
        ScanIsSound(pat[1..], text[1..]);
        if pat[0] == STAR { StarSpans(pat, text); }
      } else {
        var k :| 0 <= k <= |text| && Scans(pat[1..], text[k..]);
        ScanIsSound(pat[1..], text[k..]);
        StarSpans(pat, text);
      }
    }
  }

  /** On text without a literal `*` byte it also misses nothing. */
  lemma {:induction false} ScanIsComplete(pat: Bytes, text: Bytes)
    requires Matches(pat, text) && STAR !in text
    ensures Scans(pat, text)
    decreases |pat|
  {
    if pat != [] {
      if pat[0] == STAR {
        StarSpans(pat, text);
        var k :| 0 <= k <= |text| && Matches(pat[1..], text[k..]);
        ScanIsComplete(pat[1..], text[k..]);
      } else {
        ScanIsComplete(pat[1..], text[1..]);
      }
    }
  }

  function Queries(n: nat): (r: Bytes)
    ensures |r| == n
  { if n == 0 then [] else [QUERY] + Queries(n - 1) }

  lemma {:induction false} QueriesMeasure(n: nat, text: Bytes)
    ensures Scans(Queries(n), text) == Matches(Queries(n), text) == (|text| == n)
    decreases n
  {
    if n > 0 {
      assert Queries(n)[1..] == Queries(n - 1);
      if text != [] { QueriesMeasure(n - 1, text[1..]); }
    }
  }

  /** `?` up to the literal star, then `*`, then one `?` for every byte from the star on:
      the star should span nothing, but the scanner spends it. */
  function Spoiler(text: Bytes, i: nat): (r: Bytes)
    requires i < |text|
  { Queries(i) + [STAR] + Queries(|text| - i) }

  lemma {:induction false} SpoilerSpoils(text: Bytes, i: nat)
    requires i < |text| && text[i] == STAR
    ensures Matches(Spoiler(text, i), text) && !Scans(Spoiler(text, i), text)
    decreases i
  {
    var pat := Spoiler(text, i);
    if i == 0 {
      assert pat[1..] == Queries(|text|);
      QueriesMeasure(|text|, text);
      QueriesMeasure(|text|, text[1..]);
    } else {
      assert pat[1..] == Spoiler(text[1..], i - 1);
      SpoilerSpoils(text[1..], i - 1);
    }
  }

  /** The scanner decides the glob for every pattern exactly on the texts without a `*` byte. */
  lemma ScannerExact(text: Bytes)
    ensures (forall pat :: Scans(pat, text) == Matches(pat, text)) <==> STAR !in text
  {
    if STAR in text {
      var i :| 0 <= i < |text| && text[i] == STAR;
      SpoilerSpoils(text, i);
    } else {
      forall pat: Bytes ensures Scans(pat, text) == Matches(pat, text) {
        if Scans(pat, text) { ScanIsSound(pat, text); }
        if Matches(pat, text) { ScanIsComplete(pat, text); }
      }
    }
  }

  // -------------------------------------------------------- anchored patterns

  /** The first `i` tokens match exactly the first `j` components, `**` spanning zero or more. */
  predicate Covers(toks: seq<Bytes>, comps: seq<Bytes>, i: nat, j: nat)
    requires i <= |toks| && j <= |comps|
    decreases i
  {
    if i == 0 then j == 0
    else if toks[i - 1] == DOUBLE_STAR then var k := i - 1; exists h :: 0 <= h <= j && Covers(toks, comps, k, h)
    else j > 0 && Scans(toks[i - 1], comps[j - 1]) && Covers(toks, comps, i - 1, j - 1)
  }

  /** The same with the glob's own meaning. */
  predicate Spans(toks: seq<Bytes>, comps: seq<Bytes>, i: nat, j: nat)
    requires i <= |toks| && j <= |comps|
    decreases i
  {
    if i == 0 then j == 0
    else if toks[i - 1] == DOUBLE_STAR then var k := i - 1; exists h :: 0 <= h <= j && Spans(toks, comps, k, h)
    else j > 0 && Matches(toks[i - 1], comps[j - 1]) && Spans(toks, comps, i - 1, j - 1)
  }

  lemma {:induction false} CoversIsSpans(toks: seq<Bytes>, comps: seq<Bytes>, i: nat, j: nat)
    requires i <= |toks| && j <= |comps| && forall k :: 0 <= k < |comps| ==> STAR !in comps[k]
    ensures Covers(toks, comps, i, j) == Spans(toks, comps, i, j)
    decreases i
  {
    hide Scans, Matches;
    if i > 0 {
      if toks[i - 1] == DOUBLE_STAR {
        var k := i - 1;
        forall h | 0 <= h <= j ensures Covers(toks, comps, k, h) == Spans(toks, comps, k, h) {
          CoversIsSpans(toks, comps, k, h);
        }
      } else if j > 0 {
        ScannerExact(comps[j - 1]);
        assert Scans(toks[i - 1], comps[j - 1]) == Matches(toks[i - 1], comps[j - 1]);
        CoversIsSpans(toks, comps, i - 1, j - 1);
      }
    }
  }

  /** What `match_anchored` answers: some prefix is covered, a strict one for a directory pattern. */
  predicate Verdict(toks: seq<Bytes>, dirOnly: bool, comps: seq<Bytes>)
  {
    exists j :: 0 <= j <= |comps| && Covers(toks, comps, |toks|, j) && (!dirOnly || j < |comps|)
  }

  /** What it should answer. */
  predicate Meant(toks: seq<Bytes>, dirOnly: bool, comps: seq<Bytes>)
  {
    exists j :: 0 <= j <= |comps| && Spans(toks, comps, |toks|, j) && (!dirOnly || j < |comps|)
  }

  lemma VerdictIsMeant(toks: seq<Bytes>, dirOnly: bool, comps: seq<Bytes>)
    requires forall k :: 0 <= k < |comps| ==> STAR !in comps[k]
    ensures Verdict(toks, dirOnly, comps) == Meant(toks, dirOnly, comps)
  {
    hide Covers, Spans;
    if j :| 0 <= j <= |comps| && Covers(toks, comps, |toks|, j) && (!dirOnly || j < |comps|) {
      CoversIsSpans(toks, comps, |toks|, j);
    }
    if j :| 0 <= j <= |comps| && Spans(toks, comps, |toks|, j) && (!dirOnly || j < |comps|) {
      CoversIsSpans(toks, comps, |toks|, j);
    }
  }

  /** The answer is the right one for every pattern exactly on the paths without a `*` byte. */
  lemma AnchoredExact(comps: seq<Bytes>)
    ensures (forall toks, dirOnly :: Verdict(toks, dirOnly, comps) == Meant(toks, dirOnly, comps)) <==>
            forall k :: 0 <= k < |comps| ==> STAR !in comps[k]
  {
    hide Verdict, Meant;
    if forall k :: 0 <= k < |comps| ==> STAR !in comps[k] {
      forall toks, dirOnly ensures Verdict(toks, dirOnly, comps) == Meant(toks, dirOnly, comps) {
        VerdictIsMeant(toks, dirOnly, comps);
      }
    } else {
      var k :| 0 <= k < |comps| && STAR in comps[k];
      var i :| 0 <= i < |comps[k]| && comps[k][i] == STAR;
      SpoiledPath(comps, k, i);
    }
  }

  /** One `?` per byte for the components before, then a pattern the scanner wrongly refuses. */
  function SpoiledToks(comps: seq<Bytes>, k: nat, i: nat): (r: seq<Bytes>)
    requires k < |comps| && i < |comps[k]|
    ensures |r| == k + 1 && r[k] == Spoiler(comps[k], i) && forall m :: 0 <= m < k ==> r[m] == Queries(|comps[m]|)
  {
    seq(k, m requires 0 <= m < k => Queries(|comps[m]|)) + [Spoiler(comps[k], i)]
  }

  lemma SpoiledPath(comps: seq<Bytes>, k: nat, i: nat)
    requires k < |comps| && i < |comps[k]| && comps[k][i] == STAR
    ensures
      var toks := SpoiledToks(comps, k, i);
      Meant(toks, false, comps) && !Verdict(toks, false, comps)
  {
    hide Scans, Matches, Covers, Spans, Spoiler;
    var toks := SpoiledToks(comps, k, i);
    SpoilerSpoils(comps[k], i);
    NoDoubleStars(comps, k, i);
    forall m | 0 <= m <= k ensures Matches(toks[m], comps[m]) {
      if m < k { QueriesMeasure(|comps[m]|, comps[m]); }
    }
    OneEach(toks, comps, k + 1, k + 1);
    assert Spans(toks, comps, |toks|, k + 1);
    forall j | 0 <= j <= |comps| ensures !Covers(toks, comps, |toks|, j) {
      OneEach(toks, comps, |toks|, j);
      assert !Scans(toks[k], comps[k]);
    }
  }

  /** Without `**` every token takes exactly one component. */
  lemma {:induction false} OneEach(toks: seq<Bytes>, comps: seq<Bytes>, i: nat, j: nat)
    requires i <= |toks| && j <= |comps| && forall m :: 0 <= m < |toks| ==> toks[m] != DOUBLE_STAR
    ensures Covers(toks, comps, i, j) <==> i == j && forall m :: 0 <= m < i ==> Scans(toks[m], comps[m])
    ensures Spans(toks, comps, i, j) <==> i == j && forall m :: 0 <= m < i ==> Matches(toks[m], comps[m])
    decreases i
  {
    hide Scans, Matches;
    if i > 0 && j > 0 { OneEach(toks, comps, i - 1, j - 1); }
  }

  lemma NoDoubleStars(comps: seq<Bytes>, k: nat, i: nat)
    requires k < |comps| && i < |comps[k]|
    ensures forall m :: 0 <= m <= k ==> SpoiledToks(comps, k, i)[m] != DOUBLE_STAR
  {
    var toks := SpoiledToks(comps, k, i);
    forall m | 0 <= m <= k ensures toks[m] != DOUBLE_STAR {
      if m == k {
        SpoilerIsOne(comps[k], i);
      } else if |comps[m]| == 2 {
        assert Queries(2)[0] == QUERY && DOUBLE_STAR[0] == STAR;
      }
    }
  }

  lemma SpoilerIsOne(text: Bytes, i: nat)
    requires i < |text|
    ensures Spoiler(text, i) != DOUBLE_STAR
  {
    var pat := Spoiler(text, i);
    assert pat[i] == STAR;
    assert pat[i + 1] == Queries(|text| - i)[0] == QUERY;
    assert forall n :: 0 <= n < |DOUBLE_STAR| ==> DOUBLE_STAR[n] == STAR;
  }

  /** What a table cell means: covered, or `**` is next and has already taken components. */
  ghost predicate Live(toks: seq<Bytes>, comps: seq<Bytes>, i: nat, j: nat)
    requires i <= |toks| && j <= |comps|
  {
    if i < |toks| && toks[i] == DOUBLE_STAR then exists h :: 0 <= h <= j && Covers(toks, comps, i, h)
    else Covers(toks, comps, i, j)
  }

  /** Row `i` while column `j` is being processed: live up to `j`, merely covered after. */
  ghost predicate RowReady(reach: array2<bool>, toks: seq<Bytes>, comps: seq<Bytes>, i: nat, j: nat)
    requires i <= |toks| && reach.Length0 == |toks| + 1 && reach.Length1 == |comps| + 1
    reads reach
  {
    forall b :: 0 <= b <= |comps| ==>
      reach[i, b] == if b <= j then Live(toks, comps, i, b) else Covers(toks, comps, i, b)
  }

  /** Row `i + 1` after `j` columns of row `i`: covered where already decided, else false. */
  ghost predicate NextRow(reach: array2<bool>, toks: seq<Bytes>, comps: seq<Bytes>, i: nat, j: nat)
    requires i < |toks| && reach.Length0 == |toks| + 1 && reach.Length1 == |comps| + 1
    reads reach
  {
    var next := i + 1;
    forall b :: 0 <= b <= |comps| ==>
      reach[next, b] == ((b < j || (b == j && toks[i] != DOUBLE_STAR)) && Covers(toks, comps, next, b))
  }

  ghost predicate RowsClear(reach: array2<bool>, from: nat)
    reads reach
  {
    forall a, b :: from <= a < reach.Length0 && 0 <= b < reach.Length1 ==> !reach[a, b]
  }

  lemma LiveSteps(toks: seq<Bytes>, comps: seq<Bytes>, i: nat, j: nat)
    requires i < |toks| && j <= |comps|
    ensures toks[i] == DOUBLE_STAR ==> Covers(toks, comps, i + 1, j) == Live(toks, comps, i, j)
    ensures toks[i] == DOUBLE_STAR && j > 0 ==>
      Live(toks, comps, i, j) == (Live(toks, comps, i, j - 1) || Covers(toks, comps, i, j))
    ensures toks[i] != DOUBLE_STAR && j < |comps| ==>
      Covers(toks, comps, i + 1, j + 1) == (Live(toks, comps, i, j) && Scans(toks[i], comps[j]))
    ensures toks[i] != DOUBLE_STAR ==> !Covers(toks, comps, i + 1, 0)
  {}

  lemma LiveStart(toks: seq<Bytes>, comps: seq<Bytes>, i: nat)
    requires i <= |toks|
    ensures Live(toks, comps, i, 0) == Covers(toks, comps, i, 0)
  {}

  /** One cell of the row-major pass. */
  method VisitCell(reach: array2<bool>, toks: seq<Bytes>, comps: seq<Bytes>, i: nat, j: nat)
    requires i < |toks| && j <= |comps| && reach.Length0 == |toks| + 1 && reach.Length1 == |comps| + 1
    requires RowReady(reach, toks, comps, i, j) && NextRow(reach, toks, comps, i, j)
    modifies reach
    ensures RowReady(reach, toks, comps, i, j + 1) && NextRow(reach, toks, comps, i, j + 1)
    ensures forall a, b :: 0 <= a < reach.Length0 && 0 <= b < reach.Length1 && a != i && a != i + 1 ==>
      reach[a, b] == old(reach[a, b])
  {
    hide Covers, Live, Scans;
    LiveSteps(toks, comps, i, j);
    if j < |comps| {
      LiveSteps(toks, comps, i, j + 1);
    }
    LiveOff(toks, comps, i);
    if reach[i, j] {
      if toks[i] == DOUBLE_STAR {
        reach[i + 1, j] := true;
        if j < |comps| {
          reach[i, j + 1] := true;
        }
      } else if j < |comps| {
        var hit := GlobSeg(toks[i], comps[j]);
        if hit {
          reach[i + 1, j + 1] := true;
        }
      }
    }
  }

  lemma LiveOff(toks: seq<Bytes>, comps: seq<Bytes>, i: nat)
    requires i <= |toks|
    ensures (i < |toks| ==> toks[i] != DOUBLE_STAR) ==>
      forall j :: 0 <= j <= |comps| ==> Live(toks, comps, i, j) == Covers(toks, comps, i, j)
  {}

  method MatchAnchored(toks: seq<Bytes>, dirOnly: bool, comps: seq<Bytes>) returns (r: bool)
    ensures r == Verdict(toks, dirOnly, comps)
    ensures (forall k :: 0 <= k < |comps| ==> STAR !in comps[k]) ==> r == Meant(toks, dirOnly, comps)
  {
    hide Verdict, Meant;
    r := FillTable(toks, dirOnly, comps);
    if forall k :: 0 <= k < |comps| ==> STAR !in comps[k] {
      VerdictIsMeant(toks, dirOnly, comps);
    }
  }

  method FillTable(toks: seq<Bytes>, dirOnly: bool, comps: seq<Bytes>) returns (r: bool)
    ensures r == Verdict(toks, dirOnly, comps)
  {
    hide Covers, Live, Scans;
    var t, c := |toks|, |comps|;
    var reach := new bool[t + 1, c + 1]((_, _) => false);
    reach[0, 0] := true;
    CoversNothing(toks, comps);
    LiveStart(toks, comps, 0);
    for i := 0 to t
      invariant RowReady(reach, toks, comps, i, 0)
      invariant RowsClear(reach, i + 1)
    {
      LiveSteps(toks, comps, i, 0);
      for j := 0 to c + 1
        invariant RowReady(reach, toks, comps, i, j) && NextRow(reach, toks, comps, i, j)
        invariant RowsClear(reach, i + 2)
      {
        VisitCell(reach, toks, comps, i, j);
      }
      LiveStart(toks, comps, i + 1);
    }
    LiveOff(toks, comps, t);
    for j := 0 to c + 1
      invariant forall b :: 0 <= b < j && Covers(toks, comps, t, b) ==> dirOnly && b == c
    {
      if reach[t, j] && (!dirOnly || j < c) {
        assert Covers(toks, comps, |toks|, j);
        return true;
      }
    }
    return false;
  }

  lemma CoversNothing(toks: seq<Bytes>, comps: seq<Bytes>)
    ensures forall j :: 0 <= j <= |comps| ==> Covers(toks, comps, 0, j) == (j == 0)
  {}
}
