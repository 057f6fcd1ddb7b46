/** What the bytes of a delta mean, instruction by instruction (src/pack/delta.rs). */
module DeltaMeaning {
  import opened Base
  import opened Delta

  // ------------------------------------------------------------ size varints

  /** Seven bits a byte, least significant first, the high bit set on all bytes but the last. */
  lemma VarintForm(a: nat, b: nat, c: nat, n: nat)
    requires a < 0x80 && b < 0x80
    ensures VarintBytes(a) == [a]
    ensures b > 0 ==> VarintBytes(a + 0x80 * b) == [0x80 + a, b]
    ensures 0 < c < 0x80 ==> VarintBytes(a + 0x80 * b + 0x4000 * c) == [0x80 + a, 0x80 + b, c]
    ensures n > 0 ==> VarintBytes(a + 0x80 * n) == [0x80 + a] + VarintBytes(n)
  {
    hide VarintBytes;
    VarintStep(a, 0);
    VarintStep(b, 0);
    if c < 0x80 { VarintStep(c, 0); }
    VarintStep(a, b);
    VarintStep(b, c);
    VarintStep(a, b + 0x80 * c);
    VarintStep(a, n);
  }

  lemma VarintStep(a: nat, n: nat)
    requires a < 0x80
    ensures VarintBytes(a + 0x80 * n) == if n == 0 then [a] else [0x80 + a] + VarintBytes(n)
  {
    assert (a + 0x80 * n) % 0x80 == a && (a + 0x80 * n) / 0x80 == n;
  }

  // ------------------------------------------------------------ instructions

  /** The byte at `at` if it is selected. */
  function Picked(delta: Bytes, at: nat, selected: bool): (r: nat) { if selected && at < |delta| then delta[at] else 0 }

  function Bit(selected: bool): (r: nat) { if selected then 1 else 0 }

  /** The value of the selected bytes from `pos` on. */
  function Chosen(data: Bytes, pos: nat, b0: bool, b1: bool, b2: bool, b3: bool): (r: nat)
  {
    Picked(data, pos, b0) + 0x100 * Picked(data, pos + Bit(b0), b1)
    + 0x1_0000 * Picked(data, pos + Bit(b0) + Bit(b1), b2)
    + 0x100_0000 * Picked(data, pos + Bit(b0) + Bit(b1) + Bit(b2), b3)
  }

  /** A copy opcode selects four offset bytes and three size bytes, least significant first; what is
      not selected is zero, and a size of zero is 65536. */
  lemma CopyMeans(base: Bytes, delta: Bytes, pos: nat,
                  o0: bool, o1: bool, o2: bool, o3: bool, s0: bool, s1: bool, s2: bool)
    requires pos < |delta|
    requires delta[pos] ==
      0x80 + Bit(o0) + 2 * Bit(o1) + 4 * Bit(o2) + 8 * Bit(o3) + 16 * Bit(s0) + 32 * Bit(s1) + 64 * Bit(s2)
    ensures
      var middle := pos + 1 + Bit(o0) + Bit(o1) + Bit(o2) + Bit(o3);
      var end := middle + Bit(s0) + Bit(s1) + Bit(s2);
      var offset, size := Chosen(delta, pos + 1, o0, o1, o2, o3), Chosen(delta, middle, s0, s1, s2, false);
      var length := if size == 0 then 65536 else size;
      StepAt(base, delta, pos) ==
        if end > |delta| || offset + length > |base| then Err else Ok((base[offset..offset + length], end))
  {
    hide ReadSparse, Chosen, StepAt, Bit;
    var low, high := Bit(o0) + 2 * Bit(o1) + 4 * Bit(o2) + 8 * Bit(o3), Bit(s0) + 2 * Bit(s1) + 4 * Bit(s2);
    BitsFit(o0, o1, o2, o3);
    BitsFit(s0, s1, s2, false);
    CopySplit(base, delta, pos, low, high);
    SparseFour(delta, pos + 1, o0, o1, o2, o3);
    var p4 := pos + 1 + Bit(o0) + Bit(o1) + Bit(o2) + Bit(o3);
    if p4 <= |delta| { SparseThree(delta, p4, s0, s1, s2); }
  }

  lemma BitsFit(a: bool, b: bool, c: bool, d: bool)
    ensures Bit(a) + 2 * Bit(b) + 4 * Bit(c) + 8 * Bit(d) < 16 && (!d ==> Bit(d) == 0)
    ensures !d ==> Bit(a) + 2 * Bit(b) + 4 * Bit(c) < 8
  {}

  lemma CopySplit(base: Bytes, delta: Bytes, pos: nat, low: nat, high: nat)
    requires pos < |delta| && low < 16 && high < 8 && delta[pos] == 0x80 + low + 16 * high
    ensures StepAt(base, delta, pos) ==
      var offset := ReadSparse(delta, pos + 1, low, 4);
      if offset.Err? then Err
      else
        var size := ReadSparse(delta, offset.value.1, high, 3);
        if size.Err? then Err
        else
          var length := if size.value.0 == 0 then 65536 else size.value.0;
          if offset.value.0 + length > |base| then Err
          else Ok((base[offset.value.0..offset.value.0 + length], size.value.1))
  {
    hide ReadSparse;
    assert delta[pos] % 16 == low && delta[pos] / 16 % 8 == high;
  }

  lemma SparseOne(data: Bytes, pos: nat, bits: nat, selected: bool, n: nat)
    requires pos <= |data| && n > 0 && bits % 2 == Bit(selected)
    ensures ReadSparse(data, pos, bits, n) ==
      if pos + Bit(selected) > |data| then Err
      else
        var t := ReadSparse(data, pos + Bit(selected), bits / 2, n - 1);
        if t.Err? then Err else Ok((Picked(data, pos, selected) + 256 * t.value.0, t.value.1))
  {
    hide ReadSparse;
    SparseIs(data, pos, bits, n);
  }

  lemma SparseThree(data: Bytes, pos: nat, s0: bool, s1: bool, s2: bool)
    requires pos <= |data|
    ensures
      var end := pos + Bit(s0) + Bit(s1) + Bit(s2);
      ReadSparse(data, pos, Bit(s0) + 2 * Bit(s1) + 4 * Bit(s2), 3) ==
        if end > |data| then Err else Ok((Chosen(data, pos, s0, s1, s2, false), end))
  {
    hide ReadSparse;
    var bits := Bit(s0) + 2 * Bit(s1) + 4 * Bit(s2);
    var p1 := pos + Bit(s0);
    var p2 := p1 + Bit(s1);
    SparseOne(data, pos, bits, s0, 3);
    if p1 <= |data| {
      SparseOne(data, p1, Bit(s1) + 2 * Bit(s2), s1, 2);
      if p2 <= |data| {
        SparseOne(data, p2, Bit(s2), s2, 1);
        if p2 + Bit(s2) <= |data| { SparseNone(data, p2 + Bit(s2)); }
      }
    }
  }

  lemma SparseNone(data: Bytes, pos: nat)
    requires pos <= |data|
    ensures ReadSparse(data, pos, 0, 0) == Ok((0, pos))
  {}

  lemma ChosenStep(data: Bytes, pos: nat, b0: bool, b1: bool, b2: bool, b3: bool)
    ensures Chosen(data, pos, b0, b1, b2, b3) ==
      Picked(data, pos, b0) + 0x100 * Chosen(data, pos + Bit(b0), b1, b2, b3, false)
  {}

  lemma SparseFour(data: Bytes, pos: nat, o0: bool, o1: bool, o2: bool, o3: bool)
    requires pos <= |data|
    ensures
      var end := pos + Bit(o0) + Bit(o1) + Bit(o2) + Bit(o3);
      ReadSparse(data, pos, Bit(o0) + 2 * Bit(o1) + 4 * Bit(o2) + 8 * Bit(o3), 4) ==
        if end > |data| then Err else Ok((Chosen(data, pos, o0, o1, o2, o3), end))
  {
    hide ReadSparse, Chosen, Picked;
    ChosenStep(data, pos, o0, o1, o2, o3);
    SparseOne(data, pos, Bit(o0) + 2 * Bit(o1) + 4 * Bit(o2) + 8 * Bit(o3), o0, 4);
    if pos + Bit(o0) <= |data| { SparseThree(data, pos + Bit(o0), o1, o2, o3); }
  }

  /** An opcode from 1 to 127 inserts that many of the bytes after it; zero is no opcode. */
  lemma InsertMeans(base: Bytes, delta: Bytes, pos: nat)
    requires pos < |delta| && delta[pos] < 0x80
    ensures delta[pos] == 0 ==> StepAt(base, delta, pos) == Err
    ensures delta[pos] > 0 ==>
      var end := pos + 1 + delta[pos];
      StepAt(base, delta, pos) == if end > |delta| then Err else Ok((delta[pos + 1..end], end))
  {}

  // ------------------------------------------------------------- whole deltas

  /** What an instruction means does not depend on what stands before it. */
  lemma StepShift(base: Bytes, head: Bytes, program: Bytes, pos: nat)
    requires pos < |program|
    ensures StepAt(base, head + program, |head| + pos) ==
      var step := StepAt(base, program, pos);
      if step.Err? then Err else Ok((step.value.0, |head| + step.value.1))
  {
    hide ReadSparse;
    var all, opcode := head + program, program[pos];
    SparseShift(head, program, pos + 1, opcode % 16, 4);
    var offset := ReadSparse(program, pos + 1, opcode % 16, 4);
    if offset.Ok? { SparseShift(head, program, offset.value.1, opcode / 16 % 8, 3); }
    if pos + 1 + opcode <= |program| {
      assert all[|head| + pos + 1..|head| + pos + 1 + opcode] == program[pos + 1..pos + 1 + opcode];
    }
  }

  lemma {:induction false} SparseShift(head: Bytes, data: Bytes, pos: nat, bits: nat, n: nat)
    requires pos <= |data|
    ensures ReadSparse(head + data, |head| + pos, bits, n) ==
      var t := ReadSparse(data, pos, bits, n);
      if t.Err? then Err else Ok((t.value.0, |head| + t.value.1))
    decreases n
  {
    if n > 0 {
      if bits % 2 == 0 {
        SparseShift(head, data, pos, bits / 2, n - 1);
      } else if pos < |data| {
        SparseShift(head, data, pos + 1, bits / 2, n - 1);
      }
    }
  }

  lemma {:induction false} RunShift(base: Bytes, head: Bytes, program: Bytes, pos: nat, out: Bytes)
    requires pos <= |program|
    ensures Run(base, head + program, |head| + pos, out) == Run(base, program, pos, out)
    decreases |program| - pos
  {
    hide StepAt;
    if pos < |program| {
      StepShift(base, head, program, pos);
      var step := StepAt(base, program, pos);
      if step.Ok? { RunShift(base, head, program, step.value.1, out + step.value.0); }
    }
  }

  /** A delta declares the base's size, then the target's, at most 2^30, and its program must
      produce exactly that many bytes. */
  lemma DeltaMeans(base: Bytes, n: nat, m: nat, program: Bytes)
    requires n < 0x1_0000_0000_0000_0000 && m < 0x1_0000_0000_0000_0000
    ensures Apply(base, VarintBytes(n) + VarintBytes(m) + program) ==
      var out := Run(base, program, 0, []);
      if n == |base| && m <= 0x4000_0000 && out.Ok? && |out.value| == m then out else Err
  {
    hide ReadVarint, Run, VarintBytes;
    var head := VarintBytes(n) + VarintBytes(m);
    var delta := head + program;
    assert delta == VarintBytes(n) + (VarintBytes(m) + program);
    assert At(delta, 0, VarintBytes(n)) && At(delta, |VarintBytes(n)|, VarintBytes(m));
    VarintRoundTrip(delta, 0, n);
    VarintRoundTrip(delta, |VarintBytes(n)|, m);
    RunShift(base, head, program, 0, []);
  }

  /** A copy opcode that selects nothing copies the first 65536 bytes. */
  lemma BareCopy(base: Bytes)
    requires 65536 <= |base| < 0x1_0000_0000_0000_0000
    ensures Apply(base, VarintBytes(|base|) + VarintBytes(65536) + [0x80]) == Ok(base[..65536])
  {
    hide StepAt, Apply;
    DeltaMeans(base, |base|, 65536, [0x80]);
    CopyMeans(base, [0x80], 0, false, false, false, false, false, false, false);
    assert Run(base, [0x80], 1, [] + base[0..65536]) == Ok([] + base[0..65536]);
    assert [] + base[0..65536] == base[..65536];
  }

  // -------------------------------------------------------- what is written

  /** No argument byte written for a copy is zero. */
  lemma {:induction false} NoZeroBytes(v: nat, count: nat)
    ensures forall b :: b in SparseBytes(v, count).1 ==> b != 0
  {
    if count > 0 { NoZeroBytes(v / 256, count - 1); }
  }

  function Sixteen(s: Bytes, i: nat): (r: Bytes)
    requires i + 16 <= |s|
  { s[i..i + 16] }

  /** The scan compares 16 bytes with the earliest window of the base that has their hash, and
      takes as much as agrees from there on. */
  lemma MatchMeans(hash: Bytes -> int, base: Bytes, target: Bytes, j: nat)
    ensures MatchAt(hash, base, target, j).None? ==>
      |target| < j + 16 || forall p :: 0 <= p <= |base| - 16 && Sixteen(base, p) == Sixteen(target, j) ==>
        exists q :: 0 <= q < p && hash(Sixteen(base, q)) == hash(Sixteen(target, j))
                    && Sixteen(base, q) != Sixteen(target, j)
    ensures MatchAt(hash, base, target, j).Some? ==>
      var (p, len) := MatchAt(hash, base, target, j).value;
      && j + 16 <= |target| && 16 <= len && p + len <= |base| && j + len <= |target|
      && base[p..p + len] == target[j..j + len]
      && (forall q :: 0 <= q < p ==> hash(Sixteen(base, q)) != hash(Sixteen(target, j)))
      && (p + len == |base| || j + len == |target| || base[p + len] != target[j + len])
  {
    hide EarliestFrom, Agreement;
    if j + 16 <= |target| {
      var h := hash(Window(target, j));
      EarliestMeans(hash, base, h, 0);
      var p := EarliestFrom(hash, base, h, 0);
      if p.Some? {
        assert Sixteen(base, p.value) == Window(base, p.value);
        if Window(base, p.value) == Window(target, j) {
          AgreementMeans(base, target, p.value, j);
          AtLeast(base, target, p.value, j, 16);
        }
      }
      forall q | 0 <= q <= |base| - 16 ensures Sixteen(base, q) == Window(base, q) {}
    }
  }

  lemma {:induction false} EarliestMeans(hash: Bytes -> int, base: Bytes, h: int, i: nat)
    ensures
      var p := EarliestFrom(hash, base, h, i);
      && (p.Some? ==> hash(Window(base, p.value)) == h)
      && forall q :: i <= q <= |base| - 16 && (p.Some? ==> q < p.value) ==> hash(Window(base, q)) != h
    decreases |base| - i
  {
    if i + 16 <= |base| { EarliestMeans(hash, base, h, i + 1); }
  }

  lemma {:induction false} AgreementMeans(base: Bytes, target: Bytes, p: nat, j: nat)
    requires p <= |base| && j <= |target|
    ensures
      var len := Agreement(base, target, p, j);
      && p + len <= |base| && j + len <= |target| && base[p..p + len] == target[j..j + len]
      && (p + len == |base| || j + len == |target| || base[p + len] != target[j + len])
    decreases |base| - p
  {
    if p < |base| && j < |target| && base[p] == target[j] { AgreementMeans(base, target, p + 1, j + 1); }
  }

  lemma {:induction false} AtLeast(base: Bytes, target: Bytes, p: nat, j: nat, n: nat)
    requires p + n <= |base| && j + n <= |target| && base[p..p + n] == target[j..j + n]
    ensures n <= Agreement(base, target, p, j)
    decreases n
  {
    if n > 0 {
      var x, y := base[p..p + n], target[j..j + n];
      assert base[p] == x[0] && target[j] == y[0];
      assert base[p + 1..p + n] == x[1..] && target[j + 1..j + n] == y[1..];
      AtLeast(base, target, p + 1, j + 1, n - 1);
    }
  }
}
