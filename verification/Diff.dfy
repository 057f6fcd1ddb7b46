/** Lines and the minimal edit script between two files (src/diff.rs). */
module Diff {
  import opened Base

  type Line = Bytes
  const NEWLINE: byte := 10

  // ------------------------------------------------------------------- lines

  /** The position just after the first newline, or the end. */
  function LineEnd(data: Bytes): (n: nat)
    ensures n <= |data| && (data != [] ==> n > 0)
  {
    if data == [] then 0 else if data[0] == NEWLINE then 1 else 1 + LineEnd(data[1..])
  }

  /** Lines with their newlines; the last may lack one. */
  function Lines(data: Bytes): (r: seq<Line>)
    decreases |data|
  {
    if data == [] then [] else [data[..LineEnd(data)]] + Lines(data[LineEnd(data)..])
  }

  function Join(lines: seq<Line>): (r: Bytes)
  {
    if lines == [] then [] else lines[0] + Join(lines[1..])
  }

  lemma {:induction false} JoinLines(data: Bytes)
    ensures Join(Lines(data)) == data
    decreases |data|
  {
    if data != [] {
      var n := LineEnd(data);
      assert Lines(data)[1..] == Lines(data[n..]);
      JoinLines(data[n..]);
      assert data == data[..n] + data[n..];
    }
  }

  lemma {:induction false} JoinAppend(a: seq<Line>, b: seq<Line>)
    ensures Join(a + b) == Join(a) + Join(b)
  {
    if a == [] {
      assert a + b == b;
    } else {
      assert (a + b)[1..] == a[1..] + b;
      JoinAppend(a[1..], b);
    }
  }

  /** Every line but the last ends with a newline, byte 0x0A, and none holds one before its end. */
  lemma {:induction false} LinesEnd(data: Bytes)
    ensures forall i, k :: 0 <= i < |Lines(data)| && 0 <= k < |Lines(data)[i]| - 1 ==> Lines(data)[i][k] != 0x0A
    ensures forall i :: 0 <= i < |Lines(data)| ==>
      Lines(data)[i] != [] && (i < |Lines(data)| - 1 ==> Lines(data)[i][|Lines(data)[i]| - 1] == 0x0A)
    decreases |data|
  {
    if data != [] {
      LineEndFirst(data);
      LinesEnd(data[LineEnd(data)..]);
    }
  }

  lemma {:induction false} LineEndFirst(data: Bytes)
    requires data != []
    ensures forall k :: 0 <= k < LineEnd(data) - 1 ==> data[k] != 0x0A
    ensures LineEnd(data) < |data| ==> data[LineEnd(data) - 1] == 0x0A
  {
    if data[0] != NEWLINE && |data| > 1 {
      LineEndFirst(data[1..]);
      assert forall k :: 1 <= k < |data| ==> data[k] == data[1..][k - 1];
    }
  }

  lemma {:induction false} LineEndAt(data: Bytes, n: nat)
    requires n <= |data| && (forall i :: 0 <= i < n ==> data[i] != NEWLINE)
    requires n < |data| ==> data[n] == NEWLINE
    ensures LineEnd(data) == if n < |data| then n + 1 else n
    decreases n
  {
    if n > 0 { LineEndAt(data[1..], n - 1); }
  }

  lemma LinesStep(data: Bytes, start: nat, end: nat)
    requires start < end <= |data| && LineEnd(data[start..]) == end - start
    ensures Lines(data[start..]) == [data[start..end]] + Lines(data[end..])
  {
    var rest := data[start..];
    assert rest[..end - start] == data[start..end] && rest[end - start..] == data[end..];
  }

  method SplitLines(data: Bytes) returns (lines: seq<Line>)
    ensures lines == Lines(data)
  {
    hide Lines, LineEnd;
    lines := [];
    var start := 0;
    assert data[0..] == data;
    for i := 0 to |data|
      invariant 0 <= start <= i
      invariant lines + Lines(data[start..]) == Lines(data)
      invariant forall k :: start <= k < i ==> data[k] != NEWLINE
    {
      if data[i] == NEWLINE {
        LineEndAt(data[start..], i - start);
        LinesStep(data, start, i + 1);
        lines := lines + [data[start..i + 1]];
        start := i + 1;
      }
    }
    NoLines(data);
    if start < |data| {
      LineEndAt(data[start..], |data| - start);
      LinesStep(data, start, |data|);
      lines := lines + [data[start..]];
      assert data[start..|data|] == data[start..];
    }
  }

  lemma NoLines(data: Bytes)
    ensures Lines(data[|data|..]) == []
  {}

  // ------------------------------------------------------------- edit scripts

  datatype Op = Equal | Delete | Insert
  type Edit = (Op, Line)

  /** The old lines a script reads. */
  function OldSide(ops: seq<Edit>): (r: seq<Line>)
  {
    if ops == [] then []
    else (if ops[0].0 == Insert then [] else [ops[0].1]) + OldSide(ops[1..])
  }

  /** The new lines a script produces. */
  function NewSide(ops: seq<Edit>): (r: seq<Line>)
  {
    if ops == [] then []
    else (if ops[0].0 == Delete then [] else [ops[0].1]) + NewSide(ops[1..])
  }

  function Kept(ops: seq<Edit>): (r: nat)
  {
    if ops == [] then 0 else (if ops[0].0 == Equal then 1 else 0) + Kept(ops[1..])
  }

  /** A script that turns `before` into `after`. */
  predicate Turns(ops: seq<Edit>, before: seq<Line>, after: seq<Line>)
  {
    OldSide(ops) == before && NewSide(ops) == after
  }

  /** The table entry for two suffixes. */
  function Lcs(a: seq<Line>, b: seq<Line>): (r: nat)
    decreases |a| + |b|
  {
    if a == [] || b == [] then 0
    else if a[0] == b[0] then Lcs(a[1..], b[1..]) + 1
    else Max(Lcs(a[1..], b), Lcs(a, b[1..]))
  }

  /** Dropping a line costs at most one and gains nothing. */
  lemma {:induction false} LcsDrop(a: seq<Line>, b: seq<Line>)
    ensures b != [] ==> Lcs(a, b[1..]) <= Lcs(a, b) <= Lcs(a, b[1..]) + 1
    ensures a != [] ==> Lcs(a[1..], b) <= Lcs(a, b) <= Lcs(a[1..], b) + 1
    decreases |a| + |b|
  {
    if a != [] && b != [] {
      LcsDrop(a[1..], b);
      LcsDrop(a, b[1..]);
      LcsDrop(a[1..], b[1..]);
    }
  }

  /** No script keeps more lines than the table says. */
  lemma {:induction false} LcsBounds(ops: seq<Edit>, a: seq<Line>, b: seq<Line>)
    requires Turns(ops, a, b)
    ensures Kept(ops) <= Lcs(a, b)
    decreases |ops|
  {
    if ops != [] {
      var rest := ops[1..];
      match ops[0].0
      case Equal =>
        assert a[1..] == OldSide(rest) && b[1..] == NewSide(rest);
        LcsBounds(rest, a[1..], b[1..]);
      case Delete =>
        assert a[1..] == OldSide(rest) && b == NewSide(rest);
        LcsBounds(rest, a[1..], b);
        LcsDrop(a, b);
      case Insert =>
        assert a == OldSide(rest) && b[1..] == NewSide(rest);
        LcsBounds(rest, a, b[1..]);
        LcsDrop(a, b);
    }
  }

  /** The script the extraction walks out of the table. */
  function Script(a: seq<Line>, b: seq<Line>): (r: seq<Edit>)
    decreases |a| + |b|
  {
    if a == [] && b == [] then []
    else if b == [] then [(Delete, a[0])] + Script(a[1..], b)
    else if a == [] then [(Insert, b[0])] + Script(a, b[1..])
    else if a[0] == b[0] then [(Equal, a[0])] + Script(a[1..], b[1..])
    else if Lcs(a[1..], b) >= Lcs(a, b[1..]) then [(Delete, a[0])] + Script(a[1..], b)
    else [(Insert, b[0])] + Script(a, b[1..])
  }

  lemma {:induction false} ScriptTurns(a: seq<Line>, b: seq<Line>)
    ensures Turns(Script(a, b), a, b) && Kept(Script(a, b)) == Lcs(a, b)
    decreases |a| + |b|
  {
    hide Lcs;
    LcsSteps(a, b);
    var s := Script(a, b);
    if a == [] && b == [] {
    } else if b == [] || (a != [] && a[0] != b[0] && Lcs(a[1..], b) >= Lcs(a, b[1..])) {
      ScriptTurns(a[1..], b);
      assert s[1..] == Script(a[1..], b) && a == [a[0]] + a[1..];
    } else if a == [] || a[0] != b[0] {
      ScriptTurns(a, b[1..]);
      assert s[1..] == Script(a, b[1..]) && b == [b[0]] + b[1..];
    } else {
      ScriptTurns(a[1..], b[1..]);
      assert s[1..] == Script(a[1..], b[1..]) && a == [a[0]] + a[1..] && b == [b[0]] + b[1..];
    }
  }

  /** Among the best scripts: a common first line is kept, and what is deleted comes before what
      is inserted in its place. */
  lemma {:induction false} DeletesFirst(a: seq<Line>, b: seq<Line>)
    ensures a != [] && b != [] && a[0] == b[0] ==> Script(a, b)[0] == (Equal, a[0])
    ensures forall i :: 0 <= i < |Script(a, b)| - 1 ==> Script(a, b)[i].0 == Insert ==> Script(a, b)[i + 1].0 != Delete
    decreases |a| + |b|
  {
    hide Lcs;
    var s := Script(a, b);
    if s != [] {
      ScriptSteps(a, b);
      var x, y := if s[0].0 == Insert then a else a[1..], if s[0].0 == Delete then b else b[1..];
      assert s[1..] == Script(x, y);
      DeletesFirst(x, y);
      forall i | 0 <= i < |s| - 1 && s[i].0 == Insert ensures s[i + 1].0 != Delete {
        if i == 0 {
          InsertStays(a, b);
        } else {
          assert s[1..][i - 1] == s[i];
        }
      }
    }
  }

  lemma InsertStays(a: seq<Line>, b: seq<Line>)
    requires Script(a, b) != [] && Script(a, b)[0].0 == Insert
    ensures |Script(a, b)| > 1 ==> Script(a, b)[1].0 != Delete
  {
    hide Lcs;
    ScriptSteps(a, b);
    ScriptSteps(a, b[1..]);
    LcsSteps(a, b[1..]);
    if a != [] { LcsDrop(a[1..], b); }
  }

  lemma LcsSteps(a: seq<Line>, b: seq<Line>)
    ensures a == [] || b == [] ==> Lcs(a, b) == 0
    ensures b == [] && a != [] ==> Lcs(a[1..], b) == 0
    ensures a == [] && b != [] ==> Lcs(a, b[1..]) == 0
    ensures a != [] && b != [] ==>
      Lcs(a, b) == if a[0] == b[0] then Lcs(a[1..], b[1..]) + 1 else Max(Lcs(a[1..], b), Lcs(a, b[1..]))
  {}

  /** `lcs[i, j]` is the entry for the suffixes from `i` and from `j`. */
  ghost predicate IsTable(lcs: array2<nat>, before: seq<Line>, after: seq<Line>)
    reads lcs
  {
    && lcs.Length0 == |before| + 1 && lcs.Length1 == |after| + 1
    && forall i, j :: 0 <= i <= |before| && 0 <= j <= |after| ==> lcs[i, j] == Lcs(before[i..], after[j..])
  }

  method FillTable(before: seq<Line>, after: seq<Line>) returns (lcs: array2<nat>)
    ensures fresh(lcs) && IsTable(lcs, before, after)
  {
    hide Lcs;
    var n, m := |before|, |after|;
    lcs := new nat[n + 1, m + 1]((_, _) => 0);
    forall i, j | 0 <= i <= n && 0 <= j <= m && (i == n || j == m) ensures Lcs(before[i..], after[j..]) == 0 {
      LcsSteps(before[i..], after[j..]);
    }
    for i := n downto 0
      invariant forall a, b :: i <= a <= n && 0 <= b <= m ==> lcs[a, b] == Lcs(before[a..], after[b..])
      invariant forall a :: 0 <= a < i ==> lcs[a, m] == 0
    {
      for j := m downto 0
        invariant forall a, b :: i < a <= n && 0 <= b <= m ==> lcs[a, b] == Lcs(before[a..], after[b..])
        invariant forall b :: j <= b <= m ==> lcs[i, b] == Lcs(before[i..], after[b..])
        invariant forall a :: 0 <= a < i ==> lcs[a, m] == 0
      {
        LcsSteps(before[i..], after[j..]);
        assert before[i..][1..] == before[i + 1..] && after[j..][1..] == after[j + 1..];
        lcs[i, j] := if before[i] == after[j] then lcs[i + 1, j + 1] + 1
                     else if lcs[i + 1, j] >= lcs[i, j + 1] then lcs[i + 1, j] else lcs[i, j + 1];
      }
    }
  }

  lemma ScriptSteps(a: seq<Line>, b: seq<Line>)
    ensures a == [] && b == [] ==> Script(a, b) == []
    ensures a != [] && (b == [] || (a[0] != b[0] && Lcs(a[1..], b) >= Lcs(a, b[1..]))) ==>
      Script(a, b) == [(Delete, a[0])] + Script(a[1..], b)
    ensures b != [] && (a == [] || (a[0] != b[0] && Lcs(a[1..], b) < Lcs(a, b[1..]))) ==>
      Script(a, b) == [(Insert, b[0])] + Script(a, b[1..])
    ensures a != [] && b != [] && a[0] == b[0] ==> Script(a, b) == [(Equal, a[0])] + Script(a[1..], b[1..])
  {
    hide Lcs;
  }

  lemma TakeEdit(ops: seq<Edit>, e: Edit, rest: seq<Edit>)
    ensures ops + ([e] + rest) == (ops + [e]) + rest
  {}

  method LineOps(before: seq<Line>, after: seq<Line>) returns (ops: seq<Edit>)
    ensures ops == Script(before, after)
    ensures Turns(ops, before, after)
    ensures forall other :: Turns(other, before, after) ==> Kept(other) <= Kept(ops)
  {
    hide Lcs, Script, OldSide, NewSide, Kept;
    var lcs := FillTable(before, after);
    var n, m := |before|, |after|;
    var i, j := 0, 0;
    ops := [];
    assert before[0..] == before && after[0..] == after;
    while i < n && j < m
      invariant 0 <= i <= n && 0 <= j <= m && IsTable(lcs, before, after)
      invariant ops + Script(before[i..], after[j..]) == Script(before, after)
      decreases n - i + m - j
    {
      ScriptSteps(before[i..], after[j..]);
      assert before[i..][1..] == before[i + 1..] && after[j..][1..] == after[j + 1..];
      assert lcs[i + 1, j] == Lcs(before[i + 1..], after[j..]) && lcs[i, j + 1] == Lcs(before[i..], after[j + 1..]);
      if before[i] == after[j] {
        TakeEdit(ops, (Equal, before[i]), Script(before[i + 1..], after[j + 1..]));
        ops := ops + [(Equal, before[i])];
        i, j := i + 1, j + 1;
      } else if lcs[i + 1, j] >= lcs[i, j + 1] {
        TakeEdit(ops, (Delete, before[i]), Script(before[i + 1..], after[j..]));
        ops := ops + [(Delete, before[i])];
        i := i + 1;
      } else {
        TakeEdit(ops, (Insert, after[j]), Script(before[i..], after[j + 1..]));
        ops := ops + [(Insert, after[j])];
        j := j + 1;
      }
    }
    while i < n
      invariant i <= n && (i == n || j == m)
      invariant ops + Script(before[i..], after[j..]) == Script(before, after)
    {
      ScriptSteps(before[i..], after[j..]);
      assert before[i..][1..] == before[i + 1..];
      TakeEdit(ops, (Delete, before[i]), Script(before[i + 1..], after[j..]));
      ops := ops + [(Delete, before[i])];
      i := i + 1;
    }
    while j < m
      invariant j <= m
      invariant ops + Script(before[i..], after[j..]) == Script(before, after)
    {
      ScriptSteps(before[i..], after[j..]);
      assert after[j..][1..] == after[j + 1..];
      TakeEdit(ops, (Insert, after[j]), Script(before[i..], after[j + 1..]));
      ops := ops + [(Insert, after[j])];
      j := j + 1;
    }
    ScriptSteps(before[i..], after[j..]);
    assert ops == Script(before, after);
    ScriptTurns(before, after);
    forall other | Turns(other, before, after) ensures Kept(other) <= Kept(ops) {
      LcsBounds(other, before, after);
    }
  }
}
