/** Grouping an edit script into unified-diff hunks (src/diff.rs) and applying them. */
module Hunks {
  import opened Base
  import opened Diff

  type Span = (nat, nat)

  predicate Changed(ops: seq<Edit>, c: int) { 0 <= c < |ops| && ops[c].0 != Equal }

  /** Op `k` is at most `context` ops away from a change. */
  ghost predicate Shown(ops: seq<Edit>, context: nat, k: nat)
  {
    exists c :: Changed(ops, c) && c - context <= k <= c + context
  }

  predicate Inside(spans: seq<Span>, k: nat) { exists s :: s in spans && s.0 <= k < s.1 }

  predicate Apart(spans: seq<Span>) { forall i, j :: 0 <= i < j < |spans| ==> spans[i].1 < spans[j].0 }

  predicate Proper(ops: seq<Edit>, spans: seq<Span>) { forall s :: s in spans ==> s.0 < s.1 <= |ops| }

  // ---------------------------------------------------------------- grouping

  /** The hunks so far show exactly what they should below `mark`, and no pending change reaches back past it. */
  ghost predicate Grouped(ops: seq<Edit>, context: nat, spans: seq<Span>, mark: nat)
  {
    && mark <= |ops| && Apart(spans) && Proper(ops, spans)
    && (forall s :: s in spans ==> s.1 <= mark)
    && (forall k :: 0 <= k < mark ==> (Inside(spans, k) <==> Shown(ops, context, k)))
    && (forall c :: Changed(ops, c) && c < mark ==> c + context < mark || mark == |ops|)
    && (spans != [] ==> forall c :: Changed(ops, c) && c >= mark ==> c > mark + context)
    && (spans == [] ==> mark == 0)
  }

  /** Finds the last change of the run that starts at `idx`: later changes follow while
      no more than `2 * context` equal ops separate them. */
  method RunEnd(ops: seq<Edit>, context: nat, idx: nat) returns (end: nat)
    requires Changed(ops, idx)
    ensures idx <= end && Changed(ops, end)
    ensures forall x :: idx <= x <= end ==> Shown(ops, context, x)
    ensures forall c :: Changed(ops, c) && c > end ==> c > end + 2 * context + 1
  {
    end := idx;
    assert Shown(ops, context, idx);
    var run, k := 0, idx;
    while k < |ops|
      invariant idx <= end < |ops| && Changed(ops, end) && idx <= k <= |ops|
      invariant k == idx ==> end == idx && run == 0
      invariant k > idx ==> end < k && run == k - 1 - end
      invariant forall x :: idx <= x <= end ==> Shown(ops, context, x)
      invariant forall c :: end < c < k ==> !Changed(ops, c)
      invariant run <= 2 * context
    {
      if ops[k].0 == Equal {
        run := run + 1;
        if run > 2 * context {
          break;
        }
      } else {
        GapShown(ops, context, end, k);
        run := 0;
        end := k;
      }
      k := k + 1;
    }
  }

  /** Between two changes at most `2 * context` equal ops apart everything is shown. */
  lemma GapShown(ops: seq<Edit>, context: nat, a: nat, b: nat)
    requires Changed(ops, a) && Changed(ops, b) && a <= b <= a + 2 * context + 1
    ensures forall x :: a <= x <= b ==> Shown(ops, context, x)
  {
    forall x | a <= x <= b ensures Shown(ops, context, x) {
      if x <= a + context { assert Changed(ops, a); } else { assert Changed(ops, b); }
    }
  }

  method GroupHunks(ops: seq<Edit>, context: nat) returns (spans: seq<Span>)
    ensures Apart(spans) && Proper(ops, spans)
    ensures forall k :: 0 <= k < |ops| ==> (Inside(spans, k) <==> Shown(ops, context, k))
  {
    spans := [];
    var idx: nat := 0;
    ghost var mark: nat := 0;
    while idx < |ops|
      invariant mark <= idx <= |ops| && Grouped(ops, context, spans, mark)
      invariant forall c :: mark <= c < idx ==> !Changed(ops, c)
    {
      if ops[idx].0 == Equal {
        idx := idx + 1;
      } else {
        var end := RunEnd(ops, context, idx);
        var start := Max(idx - context, 0);
        var trail := Min(end + context + 1, |ops|);
        AddSpan(ops, context, spans, mark, idx, end);
        spans := spans + [(start, trail)];
        idx := trail;
        mark := trail;
      }
    }
    TailHidden(ops, context, spans, mark);
  }

  lemma AddSpan(ops: seq<Edit>, context: nat, spans: seq<Span>, mark: nat, idx: nat, end: nat)
    requires Grouped(ops, context, spans, mark) && mark <= idx <= end && Changed(ops, idx) && Changed(ops, end)
    requires forall c :: mark <= c < idx ==> !Changed(ops, c)
    requires forall x :: idx <= x <= end ==> Shown(ops, context, x)
    requires forall c :: Changed(ops, c) && c > end ==> c > end + 2 * context + 1
    ensures
      var start, trail := Max(idx - context, 0), Min(end + context + 1, |ops|);
      mark <= start < trail && Grouped(ops, context, spans + [(start, trail)], trail)
  {
    var start, trail := Max(idx - context, 0), Min(end + context + 1, |ops|);
    var spans' := spans + [(start, trail)];
    assert spans'[|spans|] == (start, trail);
    assert spans == [] || start > mark;
    assert Apart(spans') by {
      forall i, j | 0 <= i < j < |spans'| ensures spans'[i].1 < spans'[j].0 {
        assert spans'[i] == spans[i] && spans[i] in spans;
      }
    }
    forall k | 0 <= k < trail ensures Inside(spans', k) <==> Shown(ops, context, k) {
      InsideSnoc(spans, (start, trail), k);
      if k < mark {
      } else if k < start {
        HiddenGap(ops, context, spans, mark, idx, k);
      } else if k <= idx {
        assert Shown(ops, context, k) by { assert Changed(ops, idx); }
      } else if k > end {
        assert Shown(ops, context, k) by { assert Changed(ops, end); }
      }
    }
  }

  lemma InsideSnoc(spans: seq<Span>, s: Span, k: nat)
    ensures Inside(spans + [s], k) <==> Inside(spans, k) || s.0 <= k < s.1
  {
    var all := spans + [s];
    assert s in all;
    if Inside(spans, k) {
      var t :| t in spans && t.0 <= k < t.1;
      assert t in all;
    }
  }

  lemma HiddenGap(ops: seq<Edit>, context: nat, spans: seq<Span>, mark: nat, idx: nat, k: nat)
    requires Grouped(ops, context, spans, mark) && mark <= k && k + context < idx < |ops|
    requires forall c :: mark <= c < idx ==> !Changed(ops, c)
    ensures !Shown(ops, context, k) && !Inside(spans, k)
  {}

  lemma TailHidden(ops: seq<Edit>, context: nat, spans: seq<Span>, mark: nat)
    requires Grouped(ops, context, spans, mark) && forall c :: mark <= c < |ops| ==> !Changed(ops, c)
    ensures forall k :: 0 <= k < |ops| ==> (Inside(spans, k) <==> Shown(ops, context, k))
  {}

  // ------------------------------------------------------------------- hunks

  /** A hunk: its printed header numbers and its ops. */
  datatype Hunk = Hunk(oldStart: nat, oldCount: nat, newStart: nat, newCount: nat, body: seq<Edit>)

  /** An empty range names the line before it. */
  function Printed(start: nat, count: nat): (r: nat)
    requires start >= 1
  { if count == 0 then start - 1 else start }

  /** How many lines precede a printed range. */
  function Preceding(printed: nat, count: nat): (r: int) { if count == 0 then printed else printed - 1 }

  function HunkOf(ops: seq<Edit>, span: Span): (h: Hunk)
    requires span.0 <= span.1 <= |ops|
  {
    var body := ops[span.0..span.1];
    var (o, n) := (|OldSide(body)|, |NewSide(body)|);
    Hunk(Printed(1 + |OldSide(ops[..span.0])|, o), o, Printed(1 + |NewSide(ops[..span.0])|, n), n, body)
  }

  /** The ranges of a hunk name exactly its lines in both files. */
  predicate RangesName(before: seq<Line>, after: seq<Line>, h: Hunk)
  {
    && RangeNames(before, h.oldStart, h.oldCount, OldSide(h.body))
    && RangeNames(after, h.newStart, h.newCount, NewSide(h.body))
  }

  /** These are the lines of the range, counted from one; an empty range names the line before it. */
  predicate RangeNames(file: seq<Line>, start: nat, count: nat, lines: seq<Line>)
  {
    var at := if count == 0 then start else start - 1;
    0 <= at && at + count <= |file| && file[at..at + count] == lines
  }

  lemma HunkIs(ops: seq<Edit>, span: Span)
    requires span.0 <= span.1 <= |ops|
    ensures
      var head, body := ops[..span.0], ops[span.0..span.1];
      HunkOf(ops, span) ==
        Hunk(Printed(|OldSide(head)| + 1, |OldSide(body)|), |OldSide(body)|,
             Printed(|NewSide(head)| + 1, |NewSide(body)|), |NewSide(body)|, body)
  {
    hide OldSide, NewSide, Printed;
  }

  lemma HunkNames(ops: seq<Edit>, span: Span)
    requires span.0 <= span.1 <= |ops|
    ensures RangesName(OldSide(ops), NewSide(ops), HunkOf(ops, span))
  {
    hide OldSide, NewSide, Printed, HunkOf, RangeNames;
    var head, body, tail := ops[..span.0], ops[span.0..span.1], ops[span.1..];
    SidesSplit(ops, span);
    HunkIs(ops, span);
    OneRange(OldSide(ops), OldSide(head), OldSide(body), OldSide(tail));
    OneRange(NewSide(ops), NewSide(head), NewSide(body), NewSide(tail));
  }

  lemma SidesSplit(ops: seq<Edit>, span: Span)
    requires span.0 <= span.1 <= |ops|
    ensures
      var head, body, tail := ops[..span.0], ops[span.0..span.1], ops[span.1..];
      && OldSide(ops) == OldSide(head) + OldSide(body) + OldSide(tail)
      && NewSide(ops) == NewSide(head) + NewSide(body) + NewSide(tail)
  {
    hide OldSide, NewSide;
    ThreeSlices(ops, span.0, span.1);
    JoinedSides(ops[..span.0], ops[span.0..span.1], ops[span.1..]);
  }

  lemma ThreeSlices<T>(s: seq<T>, i: nat, j: nat)
    requires i <= j <= |s|
    ensures s[..i] + s[i..j] + s[j..] == s
  {}

  lemma JoinedSides(a: seq<Edit>, b: seq<Edit>, c: seq<Edit>)
    ensures OldSide(a + b + c) == OldSide(a) + OldSide(b) + OldSide(c)
    ensures NewSide(a + b + c) == NewSide(a) + NewSide(b) + NewSide(c)
  {
    hide OldSide, NewSide;
    SidesAppend(a, b);
    SidesAppend(a + b, c);
  }

  lemma OneRange(file: seq<Line>, a: seq<Line>, b: seq<Line>, c: seq<Line>)
    requires file == a + b + c
    ensures RangeNames(file, Printed(|a| + 1, |b|), |b|, b)
  {
    assert (a + b + c)[|a|..|a| + |b|] == b;
  }

  method CountSides(ops: seq<Edit>) returns (o: nat, n: nat)
    ensures o == |OldSide(ops)| && n == |NewSide(ops)|
  {
    o, n := 0, 0;
    assert ops[0..] == ops;
    for i := 0 to |ops|
      invariant o + |OldSide(ops[i..])| == |OldSide(ops)| && n + |NewSide(ops[i..])| == |NewSide(ops)|
    {
      assert ops[i..][1..] == ops[i + 1..];
      match ops[i].0 {
        case Equal => o, n := o + 1, n + 1;
        case Delete => o := o + 1;
        case Insert => n := n + 1;
      }
    }
  }

  /** The hunks of a unified diff; identical files have none. */
  method Unified(before: seq<Line>, after: seq<Line>, context: nat) returns (hunks: seq<Hunk>, ghost spans: seq<Span>)
    ensures Patch(before, 0, [], hunks) == Ok(after)
    ensures forall i :: 0 <= i < |hunks| ==> RangesName(before, after, hunks[i])
    ensures before == after ==> hunks == []
    ensures before != after ==>
      var ops := Script(before, after);
      && Apart(spans) && Proper(ops, spans) && |hunks| == |spans|
      && (forall k :: 0 <= k < |ops| ==> (Inside(spans, k) <==> Shown(ops, context, k)))
      && (forall i :: 0 <= i < |spans| ==> spans[i].0 <= spans[i].1 <= |ops| && hunks[i] == HunkOf(ops, spans[i]))
  {
    hide OldSide, NewSide, Patch, Script, RangesName, HunkOf, Printed;
    hunks, spans := [], [];
    if before == after {
      EmptyPatch(before);
      return;
    }
    var ops := LineOps(before, after);
    var groups := GroupHunks(ops, context);
    spans := groups;
    for i := 0 to |groups|
      invariant |hunks| == i && forall k :: 0 <= k < i ==>
        spans[k].0 <= spans[k].1 <= |ops| && hunks[k] == HunkOf(ops, spans[k]) && RangesName(before, after, hunks[k])
    {
      assert groups[i] in groups;
      var (start, end) := groups[i];
      var oldNo, newNo := CountSides(ops[..start]);
      var oldCount, newCount := CountSides(ops[start..end]);
      var oldFrom, newFrom := Printed(oldNo + 1, oldCount), Printed(newNo + 1, newCount);
      HunkNames(ops, groups[i]);
      HunkIs(ops, groups[i]);
      hunks := hunks + [Hunk(oldFrom, oldCount, newFrom, newCount, ops[start..end])];
    }
    SpansCover(ops, context, spans);
    SidesOfNothing(ops);
    PatchRebuilds(ops, before, spans, hunks, 0);
  }

  // ---------------------------------------------------------------- patching

  /** Applies hunks in order: copies up to each hunk, checks that its old lines are there
      and that its new position is right, and continues after it. */
  function Patch(file: seq<Line>, pos: nat, out: seq<Line>, hunks: seq<Hunk>): (r: Result<seq<Line>>)
    decreases |hunks|
  {
    if pos > |file| then Err
    else if hunks == [] then Ok(out + file[pos..])
    else
      var h := hunks[0];
      var at := Preceding(h.oldStart, h.oldCount);
      if at < pos || at + h.oldCount > |file| || file[at..at + h.oldCount] != OldSide(h.body) then Err
      else
        var copied := out + file[pos..at];
        if |copied| != Preceding(h.newStart, h.newCount) || |NewSide(h.body)| != h.newCount then Err
        else Patch(file, at + h.oldCount, copied + NewSide(h.body), hunks[1..])
  }

  lemma EmptyPatch(file: seq<Line>)
    ensures Patch(file, 0, [], []) == Ok(file)
  {}

  lemma SidesOfNothing(ops: seq<Edit>)
    ensures OldSide(ops[..0]) == [] && NewSide(ops[..0]) == []
  {}

  lemma {:induction false} SidesAppend(a: seq<Edit>, b: seq<Edit>)
    ensures OldSide(a + b) == OldSide(a) + OldSide(b) && NewSide(a + b) == NewSide(a) + NewSide(b)
  {
    if a == [] {
      assert a + b == b;
    } else {
      var all := a + b;
      assert all[0] == a[0] && all[1..] == a[1..] + b;
      SidesAppend(a[1..], b);
      var x, y := if a[0].0 == Insert then [] else [a[0].1], if a[0].0 == Delete then [] else [a[0].1];
      Regroup(x, OldSide(a[1..]), OldSide(b), []);
      Regroup(y, NewSide(a[1..]), NewSide(b), []);
    }
  }

  lemma {:induction false} EqualSides(ops: seq<Edit>)
    requires forall i :: 0 <= i < |ops| ==> ops[i].0 == Equal
    ensures OldSide(ops) == NewSide(ops)
  {
    if ops != [] { EqualSides(ops[1..]); }
  }

  /** Every change at or after `from` is inside the remaining spans, which are in order. */
  ghost predicate Covering(ops: seq<Edit>, spans: seq<Span>, from: nat)
  {
    && from <= |ops| && Proper(ops, spans) && Apart(spans)
    && (forall s :: s in spans ==> from <= s.0)
    && (forall c :: Changed(ops, c) && c >= from ==> Inside(spans, c))
  }

  lemma SpansCover(ops: seq<Edit>, context: nat, spans: seq<Span>)
    requires Apart(spans) && Proper(ops, spans)
    requires forall k :: 0 <= k < |ops| ==> (Inside(spans, k) <==> Shown(ops, context, k))
    ensures Covering(ops, spans, 0)
  {
    hide Apart, Proper, Inside;
    forall c | Changed(ops, c) ensures Inside(spans, c) {
      ChangeShown(ops, context, c);
    }
  }

  lemma ChangeShown(ops: seq<Edit>, context: nat, c: int)
    requires Changed(ops, c)
    ensures 0 <= c < |ops| && Shown(ops, context, c)
  {}

  /** The first span starts before the others and ends before they start. */
  lemma FirstSpan(spans: seq<Span>)
    requires spans != [] && Apart(spans) && forall s :: s in spans ==> s.0 < s.1
    ensures forall s :: s in spans ==> spans[0].0 <= s.0
    ensures forall s :: s in spans <==> s == spans[0] || s in spans[1..]
    ensures forall s :: s in spans[1..] ==> spans[0].1 < s.0
  {
    assert spans == [spans[0]] + spans[1..];
    forall s | s in spans[1..] ensures spans[0].1 < s.0 {
      var j :| 0 <= j < |spans[1..]| && spans[1..][j] == s;
      assert s == spans[j + 1];
    }
  }

  lemma CoverTail(ops: seq<Edit>, spans: seq<Span>, from: nat)
    requires spans != [] && Covering(ops, spans, from)
    ensures from <= spans[0].0 < spans[0].1 <= |ops|
    ensures forall k :: from <= k < spans[0].0 ==> ops[k].0 == Equal
    ensures Covering(ops, spans[1..], spans[0].1)
  {
    FirstSpan(spans);
    forall k | from <= k < spans[0].0 ensures ops[k].0 == Equal {
      assert !Inside(spans, k);
      assert !Changed(ops, k);
    }
    forall c | Changed(ops, c) && c >= spans[0].1 ensures Inside(spans[1..], c) {
      var s :| s in spans && s.0 <= c < s.1;
    }
  }

  /** The old file is the old lines of the ops before, inside and after a stretch. */
  lemma Slices(ops: seq<Edit>, a: nat, b: nat)
    requires a <= b <= |ops|
    ensures OldSide(ops[..b]) == OldSide(ops[..a]) + OldSide(ops[a..b])
    ensures NewSide(ops[..b]) == NewSide(ops[..a]) + NewSide(ops[a..b])
    ensures |OldSide(ops[..b])| <= |OldSide(ops)|
    ensures OldSide(ops)[|OldSide(ops[..a])|..|OldSide(ops[..b])|] == OldSide(ops[a..b])
  {
    hide OldSide, NewSide;
    assert ops[..b] == ops[..a] + ops[a..b] && ops == ops[..b] + ops[b..];
    SidesAppend(ops[..a], ops[a..b]);
    SidesAppend(ops[..b], ops[b..]);
  }

  /** Applying the hunks turns the old file into the new one. */
  lemma {:induction false} PatchRebuilds(ops: seq<Edit>, file: seq<Line>, spans: seq<Span>, hunks: seq<Hunk>, from: nat)
    requires file == OldSide(ops) && Covering(ops, spans, from) && |hunks| == |spans|
    requires forall k :: 0 <= k < |spans| ==> spans[k].0 <= spans[k].1 <= |ops| && hunks[k] == HunkOf(ops, spans[k])
    ensures Patch(file, |OldSide(ops[..from])|, NewSide(ops[..from]), hunks) == Ok(NewSide(ops))
    decreases |spans|
  {
    hide OldSide, NewSide, Covering;
    FromInside(ops, spans, from);
    if spans == [] {
      Slices(ops, from, |ops|);
      assert ops[..|ops|] == ops;
      assert forall i :: 0 <= i < |ops[from..]| ==> ops[from..][i].0 == Equal by { LastGap(ops, from); }
      EqualSides(ops[from..]);
      assert ops[from..|ops|] == ops[from..];
    } else {
      var (s, e) := spans[0];
      CoverTail(ops, spans, from);
      Slices(ops, from, s);
      Slices(ops, s, e);
      EqualSides(ops[from..s]);
      PatchRebuilds(ops, file, spans[1..], hunks[1..], e);
      PatchStep(ops, file, hunks, from, s, e);
    }
  }

  lemma FromInside(ops: seq<Edit>, spans: seq<Span>, from: nat)
    requires Covering(ops, spans, from)
    ensures from <= |ops|
  {}

  lemma LastGap(ops: seq<Edit>, from: nat)
    requires Covering(ops, [], from)
    ensures forall i :: 0 <= i < |ops[from..]| ==> ops[from..][i].0 == Equal
  {
    forall i | 0 <= i < |ops[from..]| ensures ops[from..][i].0 == Equal {
      assert !Changed(ops, from + i);
    }
  }

  lemma PatchStep(ops: seq<Edit>, file: seq<Line>, hunks: seq<Hunk>, from: nat, s: nat, e: nat)
    requires file == OldSide(ops) && from <= s < e <= |ops| && hunks != [] && hunks[0] == HunkOf(ops, (s, e))
    requires OldSide(ops[from..s]) == NewSide(ops[from..s])
    ensures Patch(file, |OldSide(ops[..from])|, NewSide(ops[..from]), hunks) ==
            Patch(file, |OldSide(ops[..e])|, NewSide(ops[..e]), hunks[1..])
  {
    hide OldSide, NewSide;
    Slices(ops, from, s);
    Slices(ops, s, e);
    var pos, at, end := |OldSide(ops[..from])|, |OldSide(ops[..s])|, |OldSide(ops[..e])|;
    assert file[pos..at] == NewSide(ops[from..s]);
    assert NewSide(ops[..from]) + file[pos..at] == NewSide(ops[..s]);
  }
}
