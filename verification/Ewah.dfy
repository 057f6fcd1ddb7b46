/** EWAH run-length bitmaps (src/pack/ewah.rs). */
module Ewah {
  import opened Base
  import opened Tables

  const FULL: nat := 0xFFFF_FFFF_FFFF_FFFF
  /** A run word's literal count has 31 bits, its run length 32. */
  const MAX_LITERALS: nat := 0x8000_0000
  const LITERAL_UNIT: nat := 0x2_0000_0000

  predicate Clean(w: nat) { w == 0 || w == FULL }

  predicate AreWords(bits: seq<nat>) { forall i :: 0 <= i < |bits| ==> bits[i] <= FULL }

  // ---------------------------------------------------------------- run words

  /** Clean bit, run length above it, literal count from bit 33. */
  function RunWord(bit: bool, run: nat, literals: nat): (r: nat)
  {
    (if bit then 1 else 0) + run * 2 + literals * LITERAL_UNIT
  }

  function Fill(w: nat): (r: nat) { if w % 2 == 1 then FULL else 0 }

  function RunOf(w: nat): (r: nat) { w / 2 % TWO_32 }

  function LiteralsOf(w: nat): (r: nat) { w / LITERAL_UNIT % MAX_LITERALS }

  lemma SplitRunWord(bit: bool, run: nat, literals: nat)
    requires run < TWO_32 && literals < MAX_LITERALS
    ensures var w := RunWord(bit, run, literals);
      w <= FULL && Fill(w) == (if bit then FULL else 0) && RunOf(w) == run && LiteralsOf(w) == literals
  {
    var w, low := RunWord(bit, run, literals), (if bit then 1 else 0) + run * 2;
    assert low < LITERAL_UNIT;
    assert w == literals * LITERAL_UNIT + low;
    assert w / LITERAL_UNIT == literals;
    assert w / 2 == literals * TWO_32 + run;
    assert w % 2 == low % 2;
  }

  // ----------------------------------------------------------------- the format

  /** End of the run of words equal to `v` that starts at `i`. */
  function RunEnd(bits: seq<nat>, i: nat, v: nat): (r: nat)
    requires i <= |bits|
    ensures i <= r <= |bits| && (i < |bits| && bits[i] == v ==> i < r)
    ensures forall k :: i <= k < r ==> bits[k] == v
    ensures r < |bits| ==> bits[r] != v
    decreases |bits| - i
  {
    if i < |bits| && bits[i] == v then RunEnd(bits, i + 1, v) else i
  }

  /** End of the stretch of words that are neither all zero nor all one. */
  function LiteralEnd(bits: seq<nat>, i: nat): (r: nat)
    requires i <= |bits|
    ensures i <= r <= |bits| && (i < |bits| && !Clean(bits[i]) ==> i < r)
    ensures forall k :: i <= k < r ==> !Clean(bits[k])
    ensures r < |bits| ==> Clean(bits[r])
    decreases |bits| - i
  {
    if i < |bits| && !Clean(bits[i]) then LiteralEnd(bits, i + 1) else i
  }

  function CleanEnd(bits: seq<nat>, i: nat): (r: nat)
    requires i < |bits|
    ensures i <= r <= |bits| && (Clean(bits[i]) ==> i < r)
  { if Clean(bits[i]) then RunEnd(bits, i, bits[i]) else i }

  /** The words for `bits` from `i` on: one run word and its literals per block. */
  function CompressFrom(bits: seq<nat>, i: nat): (r: seq<nat>)
    requires i <= |bits|
    decreases |bits| - i
  {
    if i == |bits| then []
    else
      var j := CleanEnd(bits, i);
      var k := LiteralEnd(bits, j);
      [RunWord(bits[i] == FULL, j - i, k - j)] + bits[j..k] + CompressFrom(bits, k)
  }

  function CompressWords(bits: seq<nat>): (r: seq<nat>)
    ensures r != []
  { if bits == [] then [RunWord(false, 0, 0)] else CompressFrom(bits, 0) }

  function Repeat(v: nat, n: nat): (r: seq<nat>)
    ensures |r| == n && forall k :: 0 <= k < n ==> r[k] == v
  { seq(n, _ => v) }

  /** Where the block that starts at word `i` ends. */
  function BlockEnd(words: seq<nat>, i: nat): (r: nat)
    requires i < |words|
    ensures i < r <= |words|
  { Min(i + 1 + LiteralsOf(words[i]), |words|) }

  function DecodeFrom(words: seq<nat>, i: nat): (r: seq<nat>)
    requires i <= |words|
    decreases |words| - i
  {
    if i == |words| then []
    else
      Repeat(Fill(words[i]), RunOf(words[i])) + words[i + 1..BlockEnd(words, i)] + DecodeFrom(words, BlockEnd(words, i))
  }

  /** The last run word the decoder visits. */
  function LastRun(words: seq<nat>, i: nat): (r: nat)
    requires i < |words|
    decreases |words| - i
  {
    if BlockEnd(words, i) == |words| then i else LastRun(words, BlockEnd(words, i))
  }

  lemma SplitBlock(words: seq<nat>, at: nat, w: nat, literals: seq<nat>, tail: seq<nat>)
    requires at <= |words| && words[at..] == [w] + literals + tail
    ensures at + 1 + |literals| <= |words| && words[at] == w
    ensures words[at + 1..at + 1 + |literals|] == literals && words[at + 1 + |literals|..] == tail
  {
    var rest := words[at..];
    assert words[at] == rest[0];
    assert words[at + 1..at + 1 + |literals|] == rest[1..1 + |literals|];
    assert words[at + 1 + |literals|..] == rest[1 + |literals|..];
  }

  lemma RunIsRepeat(bits: seq<nat>, i: nat)
    requires i < |bits|
    ensures bits[i..CleanEnd(bits, i)] == Repeat(if bits[i] == FULL then FULL else 0, CleanEnd(bits, i) - i)
  {}

  lemma BlockReads(words: seq<nat>, at: nat, bits: seq<nat>, i: nat)
    requires at <= |words| && i < |bits| < MAX_LITERALS && words[at..] == CompressFrom(bits, i)
    ensures
      var j := CleanEnd(bits, i);
      var k := LiteralEnd(bits, j);
      && at < |words| && BlockEnd(words, at) == at + 1 + (k - j) && k <= |bits|
      && Repeat(Fill(words[at]), RunOf(words[at])) + words[at + 1..BlockEnd(words, at)] == bits[i..k]
      && words[BlockEnd(words, at)..] == CompressFrom(bits, k)
  {
    hide RunWord, Fill, RunOf, LiteralsOf, CompressFrom, CleanEnd, LiteralEnd, Repeat;
    var j := CleanEnd(bits, i);
    var k := LiteralEnd(bits, j);
    CompressStep(bits, i, at);
    SplitBlock(words, at, RunWord(bits[i] == FULL, j - i, k - j), bits[j..k], CompressFrom(bits, k));
    SplitRunWord(bits[i] == FULL, j - i, k - j);
    RunIsRepeat(bits, i);
    assert bits[i..k] == bits[i..j] + bits[j..k];
  }

  lemma DecodeStep(words: seq<nat>, i: nat)
    requires i < |words|
    ensures DecodeFrom(words, i) ==
      Repeat(Fill(words[i]), RunOf(words[i])) + words[i + 1..BlockEnd(words, i)] + DecodeFrom(words, BlockEnd(words, i))
  {
    hide Fill, RunOf, LiteralsOf;
  }

  lemma DecodeEnd(words: seq<nat>)
    ensures DecodeFrom(words, |words|) == []
  {}

  lemma {:induction false} DecodeInverts(words: seq<nat>, at: nat, bits: seq<nat>, i: nat)
    requires at <= |words| && i <= |bits| < MAX_LITERALS && words[at..] == CompressFrom(bits, i)
    ensures DecodeFrom(words, at) == bits[i..]
    decreases |bits| - i
  {
    hide CompressFrom, Fill, RunOf, BlockEnd, LiteralEnd, CleanEnd, DecodeFrom, Repeat;
    if i < |bits| {
      BlockReads(words, at, bits, i);
      CompressStep(bits, i, at);
      var k := LiteralEnd(bits, CleanEnd(bits, i));
      DecodeInverts(words, BlockEnd(words, at), bits, k);
      DecodeStep(words, at);
      assert bits[i..] == bits[i..k] + bits[k..];
    } else {
      CompressDone(bits);
      assert at == |words|;
      DecodeEnd(words);
    }
  }

  /** Decoding what compression wrote gives back every word. */
  lemma RoundTrip(bits: seq<nat>)
    requires |bits| < MAX_LITERALS
    ensures DecodeFrom(CompressWords(bits), 0) == bits
  {
    if bits == [] {
      SplitRunWord(false, 0, 0);
    } else {
      var words := CompressWords(bits);
      assert words[0..] == words && bits[0..] == bits;
      DecodeInverts(words, 0, bits, 0);
    }
  }

  /** The start of the last block, when the block for `bits[i..]` starts at word `at`. */
  function LastBlock(bits: seq<nat>, i: nat, at: nat): (r: nat)
    requires i < |bits|
    decreases |bits| - i
  {
    var j := CleanEnd(bits, i);
    var k := LiteralEnd(bits, j);
    if k == |bits| then at else LastBlock(bits, k, at + 1 + (k - j))
  }

  lemma {:induction false} LastBlockIsLastRun(words: seq<nat>, at: nat, bits: seq<nat>, i: nat)
    requires at <= |words| && i < |bits| < MAX_LITERALS && words[at..] == CompressFrom(bits, i)
    ensures at < |words| && LastRun(words, at) == LastBlock(bits, i, at)
    decreases |bits| - i
  {
    hide Fill, RunOf, RunWord;
    BlockReads(words, at, bits, i);
    var k := LiteralEnd(bits, CleanEnd(bits, i));
    if k < |bits| {
      LastBlockIsLastRun(words, BlockEnd(words, at), bits, k);
    }
  }

  // ---------------------------------------------------------------- compression

  datatype Ewah = Ewah(bitSize: nat, words: seq<nat>, lastRun: nat)

  method FindRunEnd(bits: seq<nat>, i: nat) returns (j: nat)
    requires i < |bits|
    ensures j == CleanEnd(bits, i)
  {
    j := i;
    if Clean(bits[i]) {
      var target := bits[i];
      while j < |bits| && bits[j] == target
        invariant i <= j <= |bits| && forall k :: i <= k < j ==> bits[k] == target
      {
        j := j + 1;
      }
      RunEndIs(bits, i, target, j);
    }
  }

  method FindLiteralEnd(bits: seq<nat>, j: nat) returns (k: nat)
    requires j <= |bits|
    ensures k == LiteralEnd(bits, j)
  {
    k := j;
    while k < |bits| && bits[k] != 0 && bits[k] != FULL
      invariant j <= k <= |bits| && forall l :: j <= l < k ==> !Clean(bits[l])
    {
      k := k + 1;
    }
    LiteralEndIs(bits, j, k);
  }

  /** Block by block: the clean run, then the literals that follow it. */
  method CompressBlocks(bits: seq<nat>) returns (words: seq<nat>, last: nat)
    ensures words == CompressFrom(bits, 0) && last == if bits == [] then 0 else LastBlock(bits, 0, 0)
  {
    hide CompressFrom, RunWord, LastBlock, CleanEnd, LiteralEnd, Emitted;
    words, last := [], 0;
    var i: nat := 0;
    EmittedNothing(bits);
    while i < |bits|
      invariant i <= |bits| && Emitted(bits, words, last, i)
    {
      EmitBlock(bits, words, last, i);
      var j := FindRunEnd(bits, i);
      var k := FindLiteralEnd(bits, j);
      last := |words|;
      words := words + [RunWord(bits[i] == FULL, j - i, k - j)] + bits[j..k];
      i := k;
    }
    EmittedAll(bits, words, last);
  }

  /** The blocks up to `i` are out, and the last of them started at `last`. */
  ghost predicate Emitted(bits: seq<nat>, words: seq<nat>, last: nat, i: nat)
  {
    i <= |bits| && words + CompressFrom(bits, i) == CompressFrom(bits, 0) && LastOut(bits, |words|, last, i)
  }

  ghost predicate LastOut(bits: seq<nat>, size: nat, last: nat, i: nat)
    requires i <= |bits|
  {
    if bits == [] then last == 0
    else LastBlock(bits, 0, 0) == if i < |bits| then LastBlock(bits, i, size) else last
  }

  lemma EmittedNothing(bits: seq<nat>)
    ensures Emitted(bits, [], 0, 0)
  {
    hide CompressFrom, LastBlock;
  }

  lemma EmittedAll(bits: seq<nat>, words: seq<nat>, last: nat)
    requires Emitted(bits, words, last, |bits|)
    ensures words == CompressFrom(bits, 0) && last == if bits == [] then 0 else LastBlock(bits, 0, 0)
  {
    hide LastBlock;
    CompressDone(bits);
    assert words + [] == words;
  }

  lemma EmitBlock(bits: seq<nat>, words: seq<nat>, last: nat, i: nat)
    requires i < |bits| && Emitted(bits, words, last, i)
    ensures
      var j := CleanEnd(bits, i);
      var k := LiteralEnd(bits, j);
      i < k && Emitted(bits, words + [RunWord(bits[i] == FULL, j - i, k - j)] + bits[j..k], |words|, k)
  {
    hide Emitted, CompressFrom, RunWord, LastOut, LastBlock, CleanEnd, LiteralEnd, Clean;
    var j := CleanEnd(bits, i);
    var k := LiteralEnd(bits, j);
    CompressStep(bits, i, |words|);
    EmitNext(bits, words, last, i, j, k, RunWord(bits[i] == FULL, j - i, k - j), bits[j..k]);
  }

  /** One more block, given by its run word and its literals. */
  lemma EmitNext(bits: seq<nat>, words: seq<nat>, last: nat, i: nat, j: nat, k: nat, w: nat, literals: seq<nat>)
    requires i < |bits| && Emitted(bits, words, last, i) && j == CleanEnd(bits, i) && k == LiteralEnd(bits, j)
    requires |literals| == k - j && CompressFrom(bits, i) == [w] + literals + CompressFrom(bits, k)
    ensures Emitted(bits, words + [w] + literals, |words|, k)
  {
    hide CompressFrom, LastOut, LastBlock, CleanEnd, LiteralEnd;
    LastMoves(bits, i, j, k, |words|, last);
    Joins(words, [w], literals, CompressFrom(bits, i), CompressFrom(bits, k));
  }

  lemma LastMoves(bits: seq<nat>, i: nat, j: nat, k: nat, size: nat, last: nat)
    requires i < |bits| && j == CleanEnd(bits, i) && k == LiteralEnd(bits, j) && LastOut(bits, size, last, i)
    ensures LastOut(bits, size + 1 + (k - j), size, k)
  {
    hide CleanEnd, LiteralEnd, RunWord, CompressFrom;
    CompressStep(bits, i, size);
  }

  lemma Joins(words: seq<nat>, run: seq<nat>, literals: seq<nat>, from: seq<nat>, tail: seq<nat>)
    requires from == run + literals + tail
    ensures words + run + literals + tail == words + from
    ensures |words + run + literals| == |words| + |run| + |literals|
  {}

  method Compress(bits: seq<nat>, bitSize: nat) returns (e: Ewah)
    requires |bits| < MAX_LITERALS
    ensures e.bitSize == bitSize && e.words == CompressWords(bits)
    ensures e.lastRun == LastRun(e.words, 0)
    ensures DecodeFrom(e.words, 0) == bits
  {
    hide CompressFrom, RunWord, DecodeFrom, LastRun, LastBlock;
    CompressDone(bits);
    var words, last := CompressBlocks(bits);
    if words == [] {
      words := [RunWord(false, 0, 0)];
    }
    e := Ewah(bitSize, words, last);
    RoundTrip(bits);
    LastRunOf(bits);
  }

  lemma CompressStep(bits: seq<nat>, i: nat, at: nat)
    requires i < |bits|
    ensures
      var j := CleanEnd(bits, i);
      var k := LiteralEnd(bits, j);
      && CompressFrom(bits, i) == [RunWord(bits[i] == FULL, j - i, k - j)] + bits[j..k] + CompressFrom(bits, k)
      && i < k && (LastBlock(bits, i, at) == if k == |bits| then at else LastBlock(bits, k, at + 1 + (k - j)))
  {
    hide RunWord;
  }

  lemma CompressDone(bits: seq<nat>)
    ensures CompressFrom(bits, |bits|) == [] && (bits != [] ==> CompressFrom(bits, 0) != [])
  {}

  lemma LastRunOf(bits: seq<nat>)
    requires |bits| < MAX_LITERALS
    ensures LastRun(CompressWords(bits), 0) == if bits == [] then 0 else LastBlock(bits, 0, 0)
  {
    if bits == [] {
      SplitRunWord(false, 0, 0);
    } else {
      assert CompressWords(bits)[0..] == CompressWords(bits);
      LastBlockIsLastRun(CompressWords(bits), 0, bits, 0);
    }
  }

  lemma {:induction false} RunEndIs(bits: seq<nat>, i: nat, v: nat, j: nat)
    requires i <= j <= |bits| && (forall k :: i <= k < j ==> bits[k] == v) && (j < |bits| ==> bits[j] != v)
    ensures RunEnd(bits, i, v) == j
    decreases j - i
  {
    if i < j { RunEndIs(bits, i + 1, v, j); }
  }

  lemma {:induction false} LiteralEndIs(bits: seq<nat>, i: nat, j: nat)
    requires i <= j <= |bits| && (forall k :: i <= k < j ==> !Clean(bits[k])) && (j < |bits| ==> Clean(bits[j]))
    ensures LiteralEnd(bits, i) == j
    decreases j - i
  {
    if i < j { LiteralEndIs(bits, i + 1, j); }
  }

  method AppendRun(out0: seq<nat>, fill: nat, run: nat) returns (out: seq<nat>)
    ensures out == out0 + Repeat(fill, run)
  {
    out := out0;
    for k := 0 to run
      invariant out == out0 + Repeat(fill, k)
    {
      out := out + [fill];
    }
  }

  /** Copies up to `literals` words, stopping at the end of the stream. */
  method AppendLiterals(out0: seq<nat>, words: seq<nat>, start: nat, literals: nat) returns (out: seq<nat>, i: nat)
    requires start <= |words|
    ensures i == Min(start + literals, |words|) && out == out0 + words[start..i]
  {
    out, i := out0, start;
    for k := 0 to literals
      invariant i == Min(start + k, |words|) && out == out0 + words[start..i]
    {
      if i < |words| {
        assert words[start..i + 1] == words[start..i] + [words[i]];
        out := out + [words[i]];
        i := i + 1;
      }
    }
  }

  method Decompress(words: seq<nat>) returns (out: seq<nat>)
    ensures out == DecodeFrom(words, 0)
  {
    hide Fill, RunOf, LiteralsOf, DecodeFrom, Repeat;
    out := [];
    var i: nat := 0;
    while i < |words|
      invariant i <= |words| && out + DecodeFrom(words, i) == DecodeFrom(words, 0)
    {
      DecodeStep(words, i);
      var rlw := words[i];
      ghost var before, rest := out, DecodeFrom(words, BlockEnd(words, i));
      out := AppendRun(out, Fill(rlw), RunOf(rlw));
      var next;
      out, next := AppendLiterals(out, words, i + 1, LiteralsOf(rlw));
      Regroup(before, Repeat(Fill(rlw), RunOf(rlw)), words[i + 1..next], rest);
      i := next;
    }
    DecodeEnd(words);
    assert out + [] == out;
  }

  // -------------------------------------------------------------------- bits

  const WORD_BITS: nat := 64

  /** Bit `b` of a word. */
  predicate HasBit(w: nat, b: nat) { if b == 0 then w % 2 == 1 else HasBit(w / 2, b - 1) }

  /** The word with bit `b` or-ed in. */
  function OrBit(w: nat, b: nat): (r: nat)
  {
    if b == 0 then w / 2 * 2 + 1 else OrBit(w / 2, b - 1) * 2 + w % 2
  }

  lemma {:induction false} OrBitSets(w: nat, b: nat, c: nat)
    ensures HasBit(OrBit(w, b), c) <==> c == b || HasBit(w, c)
    decreases b, c
  {
    if b > 0 && c > 0 {
      assert OrBit(w, b) / 2 == OrBit(w / 2, b - 1);
      OrBitSets(w / 2, b - 1, c - 1);
    } else if b == 0 && c > 0 {
      assert OrBit(w, b) / 2 == w / 2;
    }
  }

  lemma {:induction false} Pow2Add(a: nat, b: nat)
    ensures Pow2(a + b) == Pow2(a) * Pow2(b)
    decreases a
  {
    if a > 0 { Pow2Add(a - 1, b); }
  }

  lemma Pow2Four()
    ensures Pow2(4) == 0x10
  {
    assert Pow2(2) == 4;
  }

  lemma Pow2Word()
    ensures Pow2(64) == FULL + 1
  {
    hide Pow2;
    Pow2Four();
    Pow2Add(4, 4);
    Pow2Add(8, 8);
    Pow2Add(16, 16);
    Pow2Add(32, 32);
  }

  lemma {:induction false} OrBitFits(w: nat, b: nat, n: nat)
    requires b < n && w < Pow2(n)
    ensures OrBit(w, b) < Pow2(n)
    decreases b
  {
    if b > 0 { OrBitFits(w / 2, b - 1, n - 1); }
  }

  lemma {:induction false} ZeroHasNoBits(b: nat)
    ensures !HasBit(0, b)
  {
    if b > 0 { ZeroHasNoBits(b - 1); }
  }

  /** Position `p` is set in a bitmap given as words. */
  predicate IsSet(words: seq<nat>, p: nat) { p / WORD_BITS < |words| && HasBit(words[p / WORD_BITS], p % WORD_BITS) }

  predicate Increasing(set': seq<nat>) { forall i, j :: 0 <= i < j < |set'| ==> set'[i] < set'[j] }

  lemma TailMembers(a: seq<nat>)
    requires Increasing(a) && a != []
    ensures Increasing(a[1..]) && forall x :: x in a[1..] <==> x in a && x != a[0]
    ensures forall x :: x in a ==> a[0] <= x
  {
    assert a == [a[0]] + a[1..];
  }

  /** Two increasing lists with the same members are the same list. */
  lemma {:induction false} IncreasingUnique(a: seq<nat>, b: seq<nat>)
    requires Increasing(a) && Increasing(b) && forall x :: x in a <==> x in b
    ensures a == b
    decreases |a|
  {
    assert (a == [] || a[0] in b) && (b == [] || b[0] in a);
    if a != [] {
      TailMembers(a);
      TailMembers(b);
      IncreasingUnique(a[1..], b[1..]);
      assert a == [a[0]] + a[1..] && b == [b[0]] + b[1..];
    }
  }

  /** Sets the listed bits one by one, then compresses. */
  method FromSetBits(positions: seq<nat>, bitSize: nat) returns (e: Ewah)
    requires bitSize <= (MAX_LITERALS - 1) * WORD_BITS
    ensures e.bitSize == bitSize
    ensures e.words == CompressWords(DecodeFrom(e.words, 0)) && e.lastRun == LastRun(e.words, 0)
    ensures |DecodeFrom(e.words, 0)| == (bitSize + 63) / 64 && AreWords(DecodeFrom(e.words, 0))
    ensures forall p: nat :: IsSet(DecodeFrom(e.words, 0), p) <==> p in positions && p < bitSize
  {
    hide DecodeFrom, HasBit, OrBit, CompressWords;
    var words: seq<nat> := seq((bitSize + 63) / 64, _ => 0);
    forall p: nat ensures !IsSet(words, p) { ZeroHasNoBits(p % WORD_BITS); }
    for i := 0 to |positions|
      invariant |words| == (bitSize + 63) / 64 && AreWords(words)
      invariant forall p: nat :: IsSet(words, p) <==> p in positions[..i] && p < bitSize
    {
      assert positions[..i + 1] == positions[..i] + [positions[i]];
      var b := positions[i];
      if b < bitSize {
        var updated := words[b / WORD_BITS := OrBit(words[b / WORD_BITS], b % WORD_BITS)];
        SetOne(words, updated, b);
        words := updated;
      }
    }
    assert positions[..|positions|] == positions;
    e := Compress(words, bitSize);
  }

  lemma SetOne(words: seq<nat>, updated: seq<nat>, b: nat)
    requires AreWords(words) && b / WORD_BITS < |words|
    requires updated == words[b / WORD_BITS := OrBit(words[b / WORD_BITS], b % WORD_BITS)]
    ensures AreWords(updated) && forall p: nat :: IsSet(updated, p) <==> p == b || IsSet(words, p)
  {
    hide HasBit, OrBit;
    Pow2Word();
    OrBitFits(words[b / WORD_BITS], b % WORD_BITS, 64);
    forall p: nat ensures IsSet(updated, p) <==> p == b || IsSet(words, p) {
      if p / WORD_BITS == b / WORD_BITS {
        OrBitSets(words[b / WORD_BITS], b % WORD_BITS, p % WORD_BITS);
        assert p == p / WORD_BITS * WORD_BITS + p % WORD_BITS && b == b / WORD_BITS * WORD_BITS + b % WORD_BITS;
      }
    }
  }

  /** The set positions below `bitSize`, in order. */
  method SetBits(e: Ewah) returns (out: seq<nat>)
    ensures Increasing(out) && forall p: nat :: p in out <==> IsSet(DecodeFrom(e.words, 0), p) && p < e.bitSize
  {
    hide DecodeFrom, HasBit;
    var words := Decompress(e.words);
    out := [];
    for wi := 0 to |words|
      invariant Increasing(out)
      invariant forall p: nat :: p in out <==> p < wi * WORD_BITS && IsSet(words, p) && p < e.bitSize
    {
      if words[wi] == 0 {
        forall p: nat | p / WORD_BITS == wi ensures !IsSet(words, p) { ZeroHasNoBits(p % WORD_BITS); }
        continue;
      }
      for b := 0 to WORD_BITS
        invariant Increasing(out)
        invariant forall p: nat :: p in out <==> p < wi * WORD_BITS + b && IsSet(words, p) && p < e.bitSize
      {
        var pos := wi * WORD_BITS + b;
        if pos >= e.bitSize {
          return;
        }
        assert pos / WORD_BITS == wi && pos % WORD_BITS == b;
        if HasBit(words[wi], b) {
          forall k | 0 <= k < |out| ensures out[k] < pos { assert out[k] in out; }
          out := out + [pos];
        }
      }
    }
  }

  /** The positions a bitmap was made from come back from it. */
  lemma SetBitsInvert(e: Ewah, positions: seq<nat>, out: seq<nat>)
    requires Increasing(positions) && forall p: nat :: p in positions ==> p < e.bitSize
    requires forall p: nat :: IsSet(DecodeFrom(e.words, 0), p) <==> p in positions && p < e.bitSize
    requires Increasing(out) && forall p: nat :: p in out <==> IsSet(DecodeFrom(e.words, 0), p) && p < e.bitSize
    ensures out == positions
  {
    hide DecodeFrom, IsSet;
    IncreasingUnique(out, positions);
  }

  // --------------------------------------------------------------- on-disk form

  function WordBytes(words: seq<nat>): (r: seq<Bytes>)
    ensures |r| == |words| && Width(r, 8) && forall i :: 0 <= i < |words| ==> r[i] == U64Bytes(words[i])
  { seq(|words|, i requires 0 <= i < |words| => U64Bytes(words[i])) }

  function ToBytes(e: Ewah): (r: Bytes)
  {
    U32Bytes(e.bitSize) + U32Bytes(|e.words|) + Concat(WordBytes(e.words)) + U32Bytes(e.lastRun)
  }

  predicate Storable(e: Ewah)
  {
    e.bitSize < TWO_32 && |e.words| < TWO_32 && e.lastRun < TWO_32 && AreWords(e.words)
  }

  /** Reads `count` words from `pos`. */
  function WordsAt(data: Bytes, pos: nat, count: nat): (r: seq<nat>)
    requires pos + count * 8 <= |data|
    ensures |r| == count
  {
    seq(count, i requires 0 <= i < count => U64At(data, pos + i * 8))
  }

  /** Reads a bitmap at `pos`, and where it ends. */
  function FromBytesAt(data: Bytes, pos: nat): (r: Result<(Ewah, nat)>)
    requires pos <= |data|
    ensures r.Ok? ==> pos < r.value.1 <= |data|
  {
    if |data| - pos < 8 then Err
    else
      var count := U32At(data, pos + 4);
      var end := pos + 8 + count * 8;
      if |data| < end + 4 then Err
      else Ok((Ewah(U32At(data, pos), WordsAt(data, pos + 8, count), U32At(data, end)), end + 4))
  }

  method WriteBytes(e: Ewah) returns (out: Bytes)
    ensures out == ToBytes(e)
  {
    hide U32Bytes, U64Bytes;
    out := U32Bytes(e.bitSize) + U32Bytes(|e.words|);
    ghost var head, parts := out, WordBytes(e.words);
    for i := 0 to |e.words|
      invariant out == head + Concat(parts[..i])
    {
      assert parts[..i + 1] == parts[..i] + [parts[i]];
      ConcatSnoc(parts[..i], parts[i]);
      out := out + U64Bytes(e.words[i]);
    }
    assert parts[..|e.words|] == parts;
    out := out + U32Bytes(e.lastRun);
  }

  /** The stored form delimits itself: it reads back wherever it stands. */
  lemma BytesRoundTrip(data: Bytes, pos: nat, e: Ewah)
    requires Storable(e) && pos <= |data| && At(data, pos, ToBytes(e))
    ensures FromBytesAt(data, pos) == Ok((e, pos + |ToBytes(e)|))
  {
    hide U32Bytes, U64Bytes, U32At, U64At, Concat;
    var a, b, c, d := U32Bytes(e.bitSize), U32Bytes(|e.words|), Concat(WordBytes(e.words)), U32Bytes(e.lastRun);
    ConcatWidth(WordBytes(e.words), 8);
    AtSplit(data, pos, a + b + c, d);
    AtSplit(data, pos, a + b, c);
    AtSplit(data, pos, a, b);
    U32RoundTrip(data, pos, e.bitSize);
    U32RoundTrip(data, pos + 4, |e.words|);
    U32RoundTrip(data, pos + 8 + |c|, e.lastRun);
    WordsRead(data, pos + 8, e.words);
  }

  lemma WordsRead(data: Bytes, pos: nat, words: seq<nat>)
    requires AreWords(words) && At(data, pos, Concat(WordBytes(words)))
    ensures pos + |words| * 8 <= |data| && WordsAt(data, pos, |words|) == words
  {
    hide U64Bytes, U64At, Concat;
    ConcatWidth(WordBytes(words), 8);
    forall i | 0 <= i < |words| ensures pos + i * 8 + 8 <= |data| && U64At(data, pos + i * 8) == words[i] {
      RowAt(data, pos, WordBytes(words), 8, i);
      U64RoundTrip(data, pos + i * 8, words[i]);
    }
  }

  /** A compressed bitmap is storable. */
  lemma {:induction false} CompressFits(bits: seq<nat>, i: nat)
    requires i <= |bits| < MAX_LITERALS && AreWords(bits)
    ensures AreWords(CompressFrom(bits, i)) && |CompressFrom(bits, i)| <= 2 * (|bits| - i)
    decreases |bits| - i
  {
    hide RunWord, CompressFrom, CleanEnd, LiteralEnd;
    if i < |bits| {
      CompressStep(bits, i, 0);
      var j := CleanEnd(bits, i);
      var k := LiteralEnd(bits, j);
      SplitRunWord(bits[i] == FULL, j - i, k - j);
      CompressFits(bits, k);
    } else {
      CompressDone(bits);
    }
  }

  lemma {:induction false} LastRunInside(words: seq<nat>, i: nat)
    requires i < |words|
    ensures LastRun(words, i) < |words|
    decreases |words| - i
  {
    if BlockEnd(words, i) < |words| { LastRunInside(words, BlockEnd(words, i)); }
  }

  lemma CompressedIsStorable(e: Ewah, bits: seq<nat>)
    requires |bits| < MAX_LITERALS && AreWords(bits) && e.bitSize < TWO_32
    requires e.words == CompressWords(bits) && e.lastRun == LastRun(e.words, 0)
    ensures Storable(e)
  {
    CompressFits(bits, 0);
    SplitRunWord(false, 0, 0);
    LastRunInside(e.words, 0);
  }
}
