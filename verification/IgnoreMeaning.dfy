/** What ignore patterns mean, told by how a text or a path is cut up (src/ignore.rs). */
module IgnoreMeaning {
  import opened Base
  import opened Tables
  import opened Ignore

  /** The text is cut into one piece for each pattern byte: any piece for `*`, one byte for `?`, and
      for any other byte that byte. */
  predicate Pieces(pat: Bytes, text: Bytes, pieces: seq<Bytes>)
  {
    && |pieces| == |pat| && Concat(pieces) == text
    && forall i :: 0 <= i < |pat| ==>
         pat[i] == 0x2A || (pat[i] == 0x3F && |pieces[i]| == 1) || pieces[i] == [pat[i]]
  }

  /** A text matches exactly if it can be cut like that. */
  lemma MatchesMeans(pat: Bytes, text: Bytes)
    ensures Matches(pat, text) <==> exists pieces :: Pieces(pat, text, pieces)
  {
    if Matches(pat, text) { var pieces := Cut(pat, text); }
    if pieces :| Pieces(pat, text, pieces) { CutMatches(pat, text, pieces); }
  }

  lemma ConcatCons(first: Bytes, rest: seq<Bytes>)
    ensures Concat([first] + rest) == first + Concat(rest)
  {
    ConcatAppend([first], rest);
    NoParts();
    ConcatSnoc([], first);
    assert [] + [first] == [first];
  }

  lemma {:induction false} Cut(pat: Bytes, text: Bytes) returns (pieces: seq<Bytes>)
    requires Matches(pat, text)
    ensures Pieces(pat, text, pieces)
    decreases |pat| + |text|
  {
    hide Concat;
    NoParts();
    if pat == [] {
      pieces := [];
    } else if pat[0] == 0x2A && Matches(pat[1..], text) {
      var rest := Cut(pat[1..], text);
      pieces := [[]] + rest;
      ConcatCons([], rest);
    } else if pat[0] == 0x2A {
      var rest := Cut(pat, text[1..]);
      pieces := [[text[0]] + rest[0]] + rest[1..];
      ConcatCons(rest[0], rest[1..]);
      ConcatCons([text[0]] + rest[0], rest[1..]);
      assert rest == [rest[0]] + rest[1..] && text == [text[0]] + text[1..];
      Grouped([text[0]], rest[0], Concat(rest[1..]));
    } else {
      var rest := Cut(pat[1..], text[1..]);
      pieces := [[text[0]]] + rest;
      ConcatCons([text[0]], rest);
      assert text == [text[0]] + text[1..];
    }
  }

  lemma Grouped(a: Bytes, b: Bytes, c: Bytes)
    ensures a + b + c == a + (b + c)
  {}

  lemma {:induction false} CutMatches(pat: Bytes, text: Bytes, pieces: seq<Bytes>)
    requires Pieces(pat, text, pieces)
    ensures Matches(pat, text)
    decreases |pat|
  {
    hide Concat, Matches;
    NoParts();
    if pat == [] {
      MatchStep(pat, text);
    } else {
      var first, rest := pieces[0], pieces[1..];
      assert pieces == [first] + rest;
      ConcatCons(first, rest);
      CutMatches(pat[1..], Concat(rest), rest);
      if pat[0] == 0x2A {
        StarTakes(pat, first, Concat(rest));
      } else {
        MatchStep(pat, text);
        assert text[1..] == Concat(rest);
      }
    }
  }

  lemma MatchStep(pat: Bytes, text: Bytes)
    ensures pat == [] ==> Matches(pat, text) == (text == [])
    ensures pat != [] && pat[0] != 0x2A ==>
      Matches(pat, text) == (text != [] && (pat[0] == 0x3F || pat[0] == text[0]) && Matches(pat[1..], text[1..]))
    ensures pat != [] && pat[0] == 0x2A ==>
      Matches(pat, text) == (Matches(pat[1..], text) || (text != [] && Matches(pat, text[1..])))
  {}

  lemma {:induction false} StarTakes(pat: Bytes, first: Bytes, rest: Bytes)
    requires pat != [] && pat[0] == 0x2A && Matches(pat[1..], rest)
    ensures Matches(pat, first + rest)
    decreases |first|
  {
    hide Matches;
    MatchStep(pat, first + rest);
    if first == [] {
      assert first + rest == rest;
    } else {
      StarTakes(pat, first[1..], rest);
      assert (first + rest)[1..] == first[1..] + rest;
    }
  }

  // -------------------------------------------------------------------- paths

  /** The first `j` components are cut into runs, one for each of the first `i` tokens: any run for `**`,
      else one component that matches the token. */
  predicate Runs(toks: seq<Bytes>, comps: seq<Bytes>, i: nat, j: nat, cuts: seq<nat>)
    requires i <= |toks| && j <= |comps|
  {
    && |cuts| == i + 1 && cuts[0] == 0 && cuts[i] == j && (forall k :: 0 <= k <= i ==> cuts[k] <= j)
    && forall k :: 0 <= k < i ==> RunFits(toks[k], comps, cuts[k], cuts[k + 1])
  }

  predicate RunFits(tok: Bytes, comps: seq<Bytes>, from: nat, to: nat)
  {
    if tok == [0x2A, 0x2A] then from <= to
    else to == from + 1 && from < |comps| && Matches(tok, comps[from])
  }

  /** Tokens span components exactly if these can be cut like that. */
  lemma SpansMeans(toks: seq<Bytes>, comps: seq<Bytes>, i: nat, j: nat)
    requires i <= |toks| && j <= |comps|
    ensures Spans(toks, comps, i, j) <==> exists cuts :: Runs(toks, comps, i, j, cuts)
  {
    if Spans(toks, comps, i, j) { var cuts := CutPath(toks, comps, i, j); }
    if cuts :| Runs(toks, comps, i, j, cuts) { CutSpans(toks, comps, i, j, cuts); }
  }

  lemma {:induction false} CutPath(toks: seq<Bytes>, comps: seq<Bytes>, i: nat, j: nat) returns (cuts: seq<nat>)
    requires i <= |toks| && j <= |comps| && Spans(toks, comps, i, j)
    ensures Runs(toks, comps, i, j, cuts)
    decreases i
  {
    hide Matches;
    if i == 0 {
      cuts := [0];
    } else {
      var k := i - 1;
      var h: nat;
      if toks[k] == [0x2A, 0x2A] {
        h :| 0 <= h <= j && Spans(toks, comps, k, h);
      } else {
        h := j - 1;
      }
      var init := CutPath(toks, comps, k, h);
      cuts := init + [j];
      assert forall m :: 0 <= m <= k ==> cuts[m] == init[m];
    }
  }

  lemma {:induction false} CutSpans(toks: seq<Bytes>, comps: seq<Bytes>, i: nat, j: nat, cuts: seq<nat>)
    requires i <= |toks| && j <= |comps| && Runs(toks, comps, i, j, cuts)
    ensures Spans(toks, comps, i, j)
    decreases i
  {
    hide Matches;
    if i > 0 {
      var k := i - 1;
      var h, init := cuts[k], cuts[..i];
      assert RunFits(toks[k], comps, cuts[k], cuts[k + 1]);
      Rising(toks, comps, i, j, cuts, k);
      assert Runs(toks, comps, k, h, init) by {
        forall m | 0 <= m <= k ensures init[m] <= h { Rising(toks, comps, i, j, cuts, m); }
      }
      CutSpans(toks, comps, k, h, init);
    }
  }

  /** The cuts rise. */
  lemma {:induction false} Rising(toks: seq<Bytes>, comps: seq<Bytes>, i: nat, j: nat, cuts: seq<nat>, m: nat)
    requires i <= |toks| && j <= |comps| && Runs(toks, comps, i, j, cuts) && m < i
    ensures cuts[m] <= cuts[i - 1]
    decreases i - m
  {
    hide Matches;
    if m < i - 1 {
      assert RunFits(toks[m], comps, cuts[m], cuts[m + 1]);
      Rising(toks, comps, i, j, cuts, m + 1);
    }
  }
}
