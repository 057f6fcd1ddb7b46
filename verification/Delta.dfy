/** The delta instruction codec of src/pack/delta.rs. */
module Delta {
  import opened Base

  /** The largest target size a delta may declare. */
  const MAX_TARGET: int := 0x4000_0000
  /** The shortest run worth a copy instruction. */
  const BLOCK: int := 16
  const MAX_COPY: int := 0xFF_FFFF
  /** Widths in bytes of a copy's offset and size arguments. */
  const OFFSET_WIDTH: nat := 4
  const SIZE_WIDTH: nat := 3
  const MAX_INSERT: int := 127

  // ---------------------------------------------------------------- varints

  /** Little-endian base-128, high bit meaning "more follows". */
  function VarintBytes(n: nat): (out: Bytes)
    ensures 1 <= |out| <= n + 1
  {
    if n < 128 then [n] else [128 + n % 128] + VarintBytes(n / 128)
  }

  /** Reads a varint at `pos`. `scale` is 2 to the current shift: a shift of 64 or
      more is the overflow error, and bits shifted past bit 63 are lost. */
  function ReadVarintFrom(data: Bytes, pos: nat, value: nat, scale: nat): (r: Result<(nat, nat)>)
    ensures r.Ok? ==> pos < r.value.1 <= |data|
    decreases |data| - pos
  {
    if pos >= |data| || scale >= TWO_64 then Err
    else
      var v := value + (data[pos] % 128 * scale) % TWO_64;
      if data[pos] < 128 then Ok((v, pos + 1)) else ReadVarintFrom(data, pos + 1, v, scale * 128)
  }

  function ReadVarint(data: Bytes, pos: nat): (r: Result<(nat, nat)>)
    ensures r.Ok? ==> pos < r.value.1 <= |data|
  {
    ReadVarintFrom(data, pos, 0, 1)
  }

  lemma ScaleSplit(n: nat, scale: nat)
    requires 0 < scale && n * scale < TWO_64
    ensures n * scale == n % 128 * scale + n / 128 * (scale * 128)
    ensures n % 128 * scale < TWO_64 && n / 128 * (scale * 128) < TWO_64
    ensures n >= 128 ==> scale * 128 < TWO_64
  {
    var q, r := n / 128, n % 128;
    Distribute(q, r, scale);
    if n >= 128 { Distribute(1, n - 128, scale); }
  }

  lemma Distribute(q: nat, r: nat, scale: nat)
    ensures (q * 128 + r) * scale == r * scale + q * (scale * 128) && r * scale >= 0 && q * (scale * 128) >= 0
  {}

  lemma {:induction false} VarintRoundTripFrom(data: Bytes, pos: nat, value: nat, scale: nat, n: nat)
    requires At(data, pos, VarintBytes(n))
    requires 0 < scale < TWO_64 && n * scale < TWO_64
    ensures ReadVarintFrom(data, pos, value, scale) == Ok((value + n * scale, pos + |VarintBytes(n)|))
    decreases n
  {
    ScaleSplit(n, scale);
    assert data[pos] == data[pos..pos + |VarintBytes(n)|][0];
    assert data[pos] % 128 == n % 128;
    var low := n % 128 * scale;
    assert low % TWO_64 == low;
    if n >= 128 {
      var scale' := scale * 128;
      AtSplit(data, pos, [128 + n % 128], VarintBytes(n / 128));
      VarintRoundTripFrom(data, pos + 1, value + low, scale', n / 128);
    }
  }

  lemma VarintRoundTrip(data: Bytes, pos: nat, n: nat)
    requires At(data, pos, VarintBytes(n)) && n < TWO_64
    ensures ReadVarint(data, pos) == Ok((n, pos + |VarintBytes(n)|))
  {
    VarintRoundTripFrom(data, pos, 0, 1, n);
  }

  method WriteVarint(out0: Bytes, size: nat) returns (out: Bytes)
    ensures out == out0 + VarintBytes(size)
  {
    out := out0;
    var n := size;
    while true
      invariant out + VarintBytes(n) == out0 + VarintBytes(size)
      decreases n
    {
      var b := n % 128;
      var rest := n / 128;
      if rest == 0 {
        out := out + [b];
        return;
      }
      assert out + VarintBytes(n) == (out + [128 + b]) + VarintBytes(rest);
      out := out + [128 + b];
      n := rest;
    }
  }

  // ------------------------------------------------- sparse copy arguments

  /** The bytes of a copy argument that `bits` selects, least significant first. */
  function ReadSparse(data: Bytes, pos: nat, bits: nat, count: nat): (r: Result<(nat, nat)>)
    requires pos <= |data|
    ensures r.Ok? ==> pos <= r.value.1 <= |data|
    decreases count
  {
    if count == 0 then Ok((0, pos))
    else if bits % 2 == 0 then
      var t :- ReadSparse(data, pos, bits / 2, count - 1);
      Ok((256 * t.0, t.1))
    else if pos == |data| then Err
    else
      var t :- ReadSparse(data, pos + 1, bits / 2, count - 1);
      Ok((data[pos] + 256 * t.0, t.1))
  }

  /** Selector bits and nonzero bytes of the low `count` bytes of `v`. */
  function SparseBytes(v: nat, count: nat): (r: (nat, Bytes))
    ensures r.0 < Pow2(count) && |r.1| <= count
    decreases count
  {
    if count == 0 then (0, [])
    else
      var (bits, bytes) := SparseBytes(v / 256, count - 1);
      if v % 256 == 0 then (2 * bits, bytes) else (2 * bits + 1, [v % 256] + bytes)
  }

  function Pow256(n: nat): (r: nat)
    ensures 0 < r
  { if n == 0 then 1 else 256 * Pow256(n - 1) }

  lemma {:induction false} SparseRoundTrip(data: Bytes, pos: nat, v: nat, count: nat)
    requires v < Pow256(count)
    requires At(data, pos, SparseBytes(v, count).1)
    ensures ReadSparse(data, pos, SparseBytes(v, count).0, count) == Ok((v, pos + |SparseBytes(v, count).1|))
    decreases count
  {
    hide SparseBytes, ReadSparse;
    if count == 0 {
      NoDigits(v);
      SparseEnds(data, pos, SparseBytes(v, 0).0, 0, 1);
    } else {
      var (bits, bytes) := SparseBytes(v / 256, count - 1);
      SparseDigit(v, count);
      SparseIs(data, pos, SparseBytes(v, count).0, count);
      if v % 256 != 0 {
        AtSplit(data, pos, [v % 256], bytes);
        assert data[pos] == data[pos..pos + 1][0];
        SparseRoundTrip(data, pos + 1, v / 256, count - 1);
      } else {
        SparseRoundTrip(data, pos, v / 256, count - 1);
      }
    }
  }

  // ------------------------------------------------------ applying a delta

  /** One instruction at `pos`: the bytes it produces and where the next one starts. */
  function StepAt(base: Bytes, delta: Bytes, pos: nat): (r: Result<(Bytes, nat)>)
    requires pos < |delta|
    ensures r.Ok? ==> pos < r.value.1 <= |delta|
  {
    var opcode := delta[pos];
    if opcode >= 128 then
      var offset :- ReadSparse(delta, pos + 1, opcode % 16, OFFSET_WIDTH);
      var size :- ReadSparse(delta, offset.1, opcode / 16 % 8, SIZE_WIDTH);
      var length := if size.0 == 0 then 0x10000 else size.0;
      if offset.0 + length > |base| then Err
      else Ok((base[offset.0..offset.0 + length], size.1))
    else if opcode == 0 || pos + 1 + opcode > |delta| then Err
    else Ok((delta[pos + 1..pos + 1 + opcode], pos + 1 + opcode))
  }

  /** Runs the instructions from `pos` to the end, appending to `out`. */
  function Run(base: Bytes, delta: Bytes, pos: nat, out: Bytes): (r: Result<Bytes>)
    requires pos <= |delta|
    decreases |delta| - pos
  {
    if pos == |delta| then Ok(out)
    else
      var step :- StepAt(base, delta, pos);
      Run(base, delta, step.1, out + step.0)
  }

  /** The meaning of a delta: the target it builds from `base`. */
  function Apply(base: Bytes, delta: Bytes): (r: Result<Bytes>)
  {
    var baseSize :- ReadVarint(delta, 0);
    if baseSize.0 != |base| then Err
    else
      var targetSize :- ReadVarint(delta, baseSize.1);
      if targetSize.0 > MAX_TARGET then Err
      else
        var out :- Run(base, delta, targetSize.1, []);
        if |out| != targetSize.0 then Err else Ok(out)
  }

  method ReadVarintAt(data: Bytes, start: nat) returns (r: Result<(nat, nat)>)
    ensures r == ReadVarint(data, start)
  {
    var value: nat, scale: nat, pos: nat := 0, 1, start;
    while true
      invariant ReadVarint(data, start) == ReadVarintFrom(data, pos, value, scale)
      decreases |data| - pos
    {
      if pos >= |data| || scale >= TWO_64 {
        return Err;
      }
      var byte := data[pos];
      pos := pos + 1;
      value := value + (byte % 128 * scale) % TWO_64;
      if byte < 128 {
        return Ok((value, pos));
      }
      scale := scale * 128;
    }
  }

  /** Reads one sparse argument in a loop over its selector bits. */
  method ReadSparseAt(data: Bytes, start: nat, selector: nat, count: nat) returns (r: Result<(nat, nat)>)
    requires start <= |data|
    ensures r == ReadSparse(data, start, selector, count)
  {
    hide ReadSparse, Scaled;
    var value: nat, scale: nat, pos: nat, bits: nat := 0, 1, start, selector;
    SparseStarts(data, start, selector, count);
    for i := 0 to count
      invariant start <= pos <= |data|
      invariant ReadSparse(data, start, selector, count) == Scaled(value, scale, ReadSparse(data, pos, bits, count - i))
    {
      SparseStep(data, pos, bits, count - i, value, scale);
      if bits % 2 == 1 {
        if pos == |data| {
          return Err;
        }
        value := value + data[pos] * scale;
        pos := pos + 1;
      }
      bits := bits / 2;
      scale := scale * 256;
    }
    SparseEnds(data, pos, bits, value, scale);
    return Ok((value, pos));
  }

  /** A value read so far, with what the remaining bytes add to it. */
  function Scaled(value: nat, scale: nat, tail: Result<(nat, nat)>): (r: Result<(nat, nat)>)
  { if tail.Err? then Err else Ok((value + scale * tail.value.0, tail.value.1)) }

  lemma SparseStarts(data: Bytes, pos: nat, bits: nat, n: nat)
    requires pos <= |data|
    ensures Scaled(0, 1, ReadSparse(data, pos, bits, n)) == ReadSparse(data, pos, bits, n)
  {
    hide ReadSparse;
  }

  lemma SparseEnds(data: Bytes, pos: nat, bits: nat, value: nat, scale: nat)
    requires pos <= |data|
    ensures Scaled(value, scale, ReadSparse(data, pos, bits, 0)) == Ok((value, pos))
  {}

  lemma SparseStep(data: Bytes, pos: nat, bits: nat, n: nat, value: nat, scale: nat)
    requires pos <= |data| && n > 0
    ensures Scaled(value, scale, ReadSparse(data, pos, bits, n)) ==
      if bits % 2 == 0 then Scaled(value, scale * 256, ReadSparse(data, pos, bits / 2, n - 1))
      else if pos == |data| then Err
      else Scaled(value + data[pos] * scale, scale * 256, ReadSparse(data, pos + 1, bits / 2, n - 1))
  {
    hide ReadSparse;
    SparseIs(data, pos, bits, n);
    if bits % 2 == 0 {
      var t := ReadSparse(data, pos, bits / 2, n - 1);
      if t.Ok? { Rescale(scale, 0, t.value.0); }
    } else if pos < |data| {
      var t := ReadSparse(data, pos + 1, bits / 2, n - 1);
      if t.Ok? { Rescale(scale, data[pos], t.value.0); }
    }
  }

  lemma SparseIs(data: Bytes, pos: nat, bits: nat, n: nat)
    requires pos <= |data| && n > 0
    ensures ReadSparse(data, pos, bits, n) ==
      if bits % 2 == 0 then
        var t := ReadSparse(data, pos, bits / 2, n - 1);
        if t.Err? then Err else Ok((256 * t.value.0, t.value.1))
      else if pos == |data| then Err
      else
        var t := ReadSparse(data, pos + 1, bits / 2, n - 1);
        if t.Err? then Err else Ok((data[pos] + 256 * t.value.0, t.value.1))
  {}

  lemma Rescale(scale: nat, b: nat, tail: nat)
    ensures scale * (b + 256 * tail) == b * scale + scale * 256 * tail
    ensures scale * (256 * tail) == scale * 256 * tail
  {}

  method ApplyDelta(base: Bytes, delta: Bytes) returns (r: Result<Bytes>)
    ensures r == Apply(base, delta)
  {
    hide ReadSparse, ReadVarint;
    var baseSize :- ReadVarintAt(delta, 0);
    if baseSize.0 != |base| {
      return Err;
    }
    var targetSize :- ReadVarintAt(delta, baseSize.1);
    if targetSize.0 > MAX_TARGET {
      return Err;
    }
    var pos, out := targetSize.1, [];
    while pos < |delta|
      invariant pos <= |delta|
      invariant Run(base, delta, targetSize.1, []) == Run(base, delta, pos, out)
    {
      var opcode := delta[pos];
      if opcode >= 128 {
        var offset :- ReadSparseAt(delta, pos + 1, opcode % 16, OFFSET_WIDTH);
        var size :- ReadSparseAt(delta, offset.1, opcode / 16 % 8, SIZE_WIDTH);
        var length := if size.0 == 0 then 0x10000 else size.0;
        if offset.0 + length > |base| {
          return Err;
        }
        out := out + base[offset.0..offset.0 + length];
        pos := size.1;
      } else if opcode != 0 {
        if pos + 1 + opcode > |delta| {
          return Err;
        }
        out := out + delta[pos + 1..pos + 1 + opcode];
        pos := pos + 1 + opcode;
      } else {
        return Err;
      }
    }
    if |out| != targetSize.0 {
      return Err;
    }
    return Ok(out);
  }

  // --------------------------------------------------- extending a program

  lemma {:induction false} ReadSparseExtend(data: Bytes, rest: Bytes, pos: nat, bits: nat, count: nat)
    requires pos <= |data| && ReadSparse(data, pos, bits, count).Ok?
    ensures ReadSparse(data + rest, pos, bits, count) == ReadSparse(data, pos, bits, count)
    decreases count
  {
    if count > 0 {
      if bits % 2 == 0 {
        ReadSparseExtend(data, rest, pos, bits / 2, count - 1);
      } else {
        ReadSparseExtend(data, rest, pos + 1, bits / 2, count - 1);
      }
    }
  }

  lemma StepExtend(base: Bytes, delta: Bytes, rest: Bytes, pos: nat)
    requires pos < |delta| && StepAt(base, delta, pos).Ok?
    ensures StepAt(base, delta + rest, pos) == StepAt(base, delta, pos)
  {
    hide ReadSparse;
    var opcode := delta[pos];
    if opcode >= 128 {
      ReadSparseExtend(delta, rest, pos + 1, opcode % 16, OFFSET_WIDTH);
      var offset := ReadSparse(delta, pos + 1, opcode % 16, OFFSET_WIDTH).value;
      ReadSparseExtend(delta, rest, offset.1, opcode / 16 % 8, SIZE_WIDTH);
    } else {
      assert (delta + rest)[pos + 1..pos + 1 + opcode] == delta[pos + 1..pos + 1 + opcode];
    }
  }

  /** Appending instructions to a delta resumes its run where it stopped. */
  lemma {:induction false} RunAppend(base: Bytes, delta: Bytes, rest: Bytes, pos: nat, out: Bytes)
    requires pos <= |delta| && Run(base, delta, pos, out).Ok?
    ensures Run(base, delta + rest, pos, out) ==
            Run(base, delta + rest, |delta|, Run(base, delta, pos, out).value)
    decreases |delta| - pos
  {
    if pos < |delta| {
      StepExtend(base, delta, rest, pos);
      var step := StepAt(base, delta, pos).value;
      RunAppend(base, delta, rest, step.1, out + step.0);
    }
  }

  // ------------------------------------------------------ creating a delta

  /** `delta` runs from `start` to exactly `out`. */
  predicate Builds(base: Bytes, delta: Bytes, start: nat, out: Bytes)
  {
    start <= |delta| && Run(base, delta, start, []) == Ok(out)
  }

  lemma BuildsNothing(base: Bytes, delta: Bytes)
    ensures Builds(base, delta, |delta|, [])
  {}

  lemma BuildsStep(base: Bytes, delta: Bytes, start: nat, out: Bytes, instr: Bytes, piece: Bytes)
    requires Builds(base, delta, start, out)
    requires instr != [] && StepAt(base, delta + instr, |delta|) == Ok((piece, |delta + instr|))
    ensures Builds(base, delta + instr, start, out + piece)
  {
    RunAppend(base, delta, instr, start, []);
  }

  lemma BuildsInsert(base: Bytes, delta: Bytes, start: nat, out: Bytes, piece: Bytes)
    requires Builds(base, delta, start, out) && 0 < |piece| <= MAX_INSERT
    ensures Builds(base, delta + [|piece|] + piece, start, out + piece)
  {
    var instr := [|piece|] + piece;
    var d := delta + instr;
    assert d == delta + [|piece|] + piece;
    assert d[|delta| + 1..|delta| + 1 + |piece|] == piece;
    BuildsStep(base, delta, start, out, instr, piece);
  }

  /** Insert instructions for these bytes, each of at most 127. */
  function Inserts(bytes: Bytes): (r: Bytes)
    decreases |bytes|
  {
    if bytes == [] then []
    else
      var n := Min(|bytes|, MAX_INSERT);
      [n] + bytes[..n] + Inserts(bytes[n..])
  }

  lemma InsertsStep(bytes: Bytes, at: nat, out: Bytes)
    requires at < |bytes|
    ensures
      var n := Min(|bytes| - at, MAX_INSERT);
      out + Inserts(bytes[at..]) == out + [n] + bytes[at..at + n] + Inserts(bytes[at + n..])
  {
    var n, tail := Min(|bytes| - at, MAX_INSERT), bytes[at..];
    assert tail[..n] == bytes[at..at + n] && tail[n..] == bytes[at + n..];
    Regroup(out, [n], bytes[at..at + n], Inserts(bytes[at + n..]));
  }

  lemma NoInserts()
    ensures Inserts([]) == []
  {}

  method FlushInsert(base: Bytes, out0: Bytes, pending: Bytes, ghost start: nat, ghost done: Bytes)
    returns (out: Bytes)
    requires Builds(base, out0, start, done)
    ensures Builds(base, out, start, done + pending) && out0 <= out
    ensures |out| <= |out0| + 2 * |pending|
    ensures out == out0 + Inserts(pending)
  {
    hide Builds, Inserts;
    out := out0;
    assert pending[0..] == pending;
    var at := 0;
    assert done + pending[..0] == done;
    while at < |pending|
      invariant 0 <= at <= |pending| && out0 <= out && |out| <= |out0| + 2 * at
      invariant Builds(base, out, start, done + pending[..at])
      invariant out + Inserts(pending[at..]) == out0 + Inserts(pending)
    {
      var len := Min(|pending| - at, MAX_INSERT);
      var piece := pending[at..at + len];
      BuildsInsert(base, out, start, done + pending[..at], piece);
      InsertsStep(pending, at, out);
      assert done + pending[..at] + piece == done + pending[..at + len];
      out := out + [len];
      out := out + piece;
      at := at + len;
    }
    NoInserts();
    assert pending[..at] == pending && pending[at..] == [] && out + [] == out;
  }

  /** One copy instruction: opcode, offset bytes, size bytes. */
  function CopyInstr(offset: nat, size: nat): (r: Bytes)
    requires 0 < size <= MAX_COPY
    ensures 1 <= |r| <= 8
  {
    var o := SparseBytes(offset, OFFSET_WIDTH);
    var s := SparseBytes(size, SIZE_WIDTH);
    Widths();
    [128 + o.0 + 16 * s.0] + o.1 + s.1
  }

  lemma OpcodeParts(o: nat, s: nat)
    requires o < 16 && s < 8
    ensures (128 + o + 16 * s) % 16 == o && (128 + o + 16 * s) / 16 % 8 == s
  {}

  lemma Widths()
    ensures Pow2(OFFSET_WIDTH) == 16 && Pow2(SIZE_WIDTH) == 8
    ensures Pow256(OFFSET_WIDTH) == TWO_32 && Pow256(SIZE_WIDTH) == MAX_COPY + 1
  {}

  /** Two adjacent sparse arguments read back in sequence. */
  lemma SparsePair(d: Bytes, pos: nat, v: nat, vWidth: nat, w: nat, wWidth: nat)
    requires v < Pow256(vWidth) && w < Pow256(wWidth)
    requires At(d, pos, SparseBytes(v, vWidth).1 + SparseBytes(w, wWidth).1)
    ensures
      var mid := pos + |SparseBytes(v, vWidth).1|;
      && ReadSparse(d, pos, SparseBytes(v, vWidth).0, vWidth) == Ok((v, mid))
      && ReadSparse(d, mid, SparseBytes(w, wWidth).0, wWidth) == Ok((w, mid + |SparseBytes(w, wWidth).1|))
  {
    hide SparseBytes, ReadSparse, Pow256;
    AtSplit(d, pos, SparseBytes(v, vWidth).1, SparseBytes(w, wWidth).1);
    SparseRoundTrip(d, pos, v, vWidth);
    SparseRoundTrip(d, pos + |SparseBytes(v, vWidth).1|, w, wWidth);
  }

  lemma BuildsCopy(base: Bytes, delta: Bytes, start: nat, out: Bytes, offset: nat, size: nat)
    requires Builds(base, delta, start, out)
    requires 0 < size <= MAX_COPY && offset + size <= |base| && offset < TWO_32
    ensures Builds(base, delta + CopyInstr(offset, size), start, out + base[offset..offset + size])
  {
    hide SparseBytes, ReadSparse, Pow2, Pow256, Builds;
    var o, s := SparseBytes(offset, OFFSET_WIDTH), SparseBytes(size, SIZE_WIDTH);
    Widths();
    OpcodeParts(o.0, s.0);
    var instr := [128 + o.0 + 16 * s.0] + o.1 + s.1;
    var d := delta + instr;
    assert instr == [128 + o.0 + 16 * s.0] + (o.1 + s.1);
    assert At(d, |delta|, instr);
    AtSplit(d, |delta|, [128 + o.0 + 16 * s.0], o.1 + s.1);
    SparsePair(d, |delta| + 1, offset, OFFSET_WIDTH, size, SIZE_WIDTH);
    BuildsStep(base, delta, start, out, instr, base[offset..offset + size]);
  }

  /** `count` sparse bytes do not see anything above them. */
  lemma {:induction false} SparseWraps(q: nat, w: nat, count: nat)
    ensures SparseBytes(Pow256(count) * q + w, count) == SparseBytes(w, count)
    decreases count
  {
    hide SparseBytes;
    if count == 0 {
      NoDigits(Pow256(0) * q + w);
      NoDigits(w);
    } else {
      var a: nat := Pow256(count - 1) * q;
      assert Pow256(count) * q == 256 * a;
      assert (256 * a + w) / 256 == a + w / 256 && (256 * a + w) % 256 == w % 256;
      SparseDigit(256 * a + w, count);
      SparseDigit(w, count);
      SparseWraps(q, w / 256, count - 1);
    }
  }

  /** The slice a copy really reads: four offset bytes keep an offset modulo 2^32 only. */
  function LowCopy(base: Bytes, offset: nat, size: nat): (r: Bytes)
    requires offset + size <= |base|
    ensures |r| == size
  {
    LowIsLess(offset);
    base[offset % TWO_32..offset % TWO_32 + size]
  }

  lemma LowIsLess(offset: nat)
    ensures 0 <= offset % TWO_32 <= offset
  {}

  lemma BuildsLow(base: Bytes, delta: Bytes, start: nat, out: Bytes, offset: nat, size: nat)
    requires Builds(base, delta, start, out) && 0 < size <= MAX_COPY && offset + size <= |base|
    ensures Builds(base, delta + CopyInstr(offset, size), start, out + LowCopy(base, offset, size))
  {
    hide SparseBytes, Run, Pow256, Builds;
    var low := offset % TWO_32;
    LowIsLess(offset);
    Widths();
    SparseWraps(offset / TWO_32, low, OFFSET_WIDTH);
    assert CopyInstr(offset, size) == CopyInstr(low, size);
    BuildsCopy(base, delta, start, out, low, size);
  }

  /** A copy builds the intended slice if and only if the base holds the same bytes at the
      offset modulo 2^32, which for a base of at most 2^32 bytes is the offset itself. */
  lemma CopyExact(base: Bytes, delta: Bytes, start: nat, out: Bytes, offset: nat, size: nat)
    requires Builds(base, delta, start, out) && 0 < size <= MAX_COPY && offset + size <= |base|
    ensures Builds(base, delta + CopyInstr(offset, size), start, out + base[offset..offset + size]) <==>
            LowCopy(base, offset, size) == base[offset..offset + size]
  {
    hide Run, LowCopy, CopyInstr;
    BuildsLow(base, delta, start, out, offset, size);
    Halves(out, LowCopy(base, offset, size), out, base[offset..offset + size]);
  }

  lemma Halves(x: Bytes, y: Bytes, a: Bytes, b: Bytes)
    requires |x| == |a|
    ensures x + y == a + b <==> x == a && y == b
  {
    if x + y == a + b {
      assert x == (x + y)[..|x|] == (a + b)[..|x|] == a;
      assert y == (x + y)[|x|..] == (a + b)[|x|..] == b;
    }
  }

  /** What the copies emitted for a slice build, chunk by chunk. */
  function Copied(base: Bytes, offset: nat, size: nat): (r: Bytes)
    requires offset + size <= |base|
    ensures |r| == size
    decreases size
  {
    if size == 0 then []
    else
      var chunk := Min(size, MAX_COPY);
      LowCopy(base, offset, chunk) + Copied(base, offset + chunk, size - chunk)
  }

  /** Every chunk of the slice is found again at its offset modulo 2^32. */
  predicate Right(base: Bytes, offset: nat, size: nat)
    requires offset + size <= |base|
    decreases size
  {
    size > 0 ==>
      var chunk := Min(size, MAX_COPY);
      && LowCopy(base, offset, chunk) == base[offset..offset + chunk]
      && Right(base, offset + chunk, size - chunk)
  }

  lemma {:induction false} CopiedRight(base: Bytes, offset: nat, size: nat)
    requires offset + size <= |base|
    ensures Copied(base, offset, size) == base[offset..offset + size] <==> Right(base, offset, size)
    decreases size
  {
    hide LowCopy;
    if size > 0 {
      var chunk := Min(size, MAX_COPY);
      var mid := offset + chunk;
      CopiedRight(base, mid, size - chunk);
      assert base[offset..offset + size] == base[offset..mid] + base[mid..offset + size];
      var x, y := LowCopy(base, offset, chunk), Copied(base, mid, size - chunk);
      Halves(x, y, base[offset..mid], base[mid..offset + size]);
    }
  }

  /** In a base of at most 2^32 bytes every slice is. */
  lemma {:induction false} ShortBaseRight(base: Bytes, offset: nat, size: nat)
    requires offset + size <= |base| <= TWO_32
    ensures Right(base, offset, size)
    decreases size
  {
    if size > 0 {
      var chunk := Min(size, MAX_COPY);
      assert offset % TWO_32 == offset;
      ShortBaseRight(base, offset + chunk, size - chunk);
    }
  }

  lemma Reweigh(weight: nat, tail: nat)
    ensures weight * (2 * tail) == weight * 2 * tail
    ensures weight * (2 * tail + 1) == weight + weight * 2 * tail
  {}

  /** Builds one sparse argument in a loop, as the two emit loops of the source do. */
  method EmitSparse(v: nat, count: nat) returns (bits: nat, bytes: Bytes)
    ensures bits == SparseBytes(v, count).0 && bytes == SparseBytes(v, count).1
  {
    hide SparseBytes;
    bits, bytes := 0, [];
    var weight: nat, rest: nat := 1, v;
    for i := 0 to count
      invariant SparseBytes(v, count).0 == bits + weight * SparseBytes(rest, count - i).0
      invariant SparseBytes(v, count).1 == bytes + SparseBytes(rest, count - i).1
    {
      Reweigh(weight, SparseBytes(rest / 256, count - i - 1).0);
      SparseDigit(rest, count - i);
      var b := rest % 256;
      if b != 0 {
        bits := bits + weight;
        bytes := bytes + [b];
      }
      weight := weight * 2;
      rest := rest / 256;
    }
    NoDigits(rest);
  }

  lemma NoDigits(v: nat)
    ensures SparseBytes(v, 0) == (0, [])
  {}

  lemma SparseDigit(v: nat, n: nat)
    requires n > 0
    ensures
      var t := SparseBytes(v / 256, n - 1);
      SparseBytes(v, n) == if v % 256 == 0 then (2 * t.0, t.1) else (2 * t.0 + 1, [v % 256] + t.1)
  {}

  /** The copy instructions for a slice, chunk by chunk. */
  function Copies(offset: nat, size: nat): (r: Bytes)
    decreases size
  {
    if size == 0 then []
    else
      var chunk := Min(size, MAX_COPY);
      CopyInstr(offset, chunk) + Copies(offset + chunk, size - chunk)
  }

  lemma CopiesStep(out: Bytes, offset: nat, size: nat)
    ensures size == 0 ==> out + Copies(offset, size) == out
    ensures size > 0 ==>
      var chunk := Min(size, MAX_COPY);
      out + Copies(offset, size) == out + CopyInstr(offset, chunk) + Copies(offset + chunk, size - chunk)
  {
    hide CopyInstr;
    if size > 0 {
      var chunk := Min(size, MAX_COPY);
      Regroup(out, CopyInstr(offset, chunk), Copies(offset + chunk, size - chunk), []);
    } else {
      assert out + [] == out;
    }
  }

  method EmitCopy(base: Bytes, out0: Bytes, offset0: nat, size0: nat, ghost start: nat, ghost done: Bytes)
    returns (out: Bytes)
    requires offset0 + size0 <= |base| && Builds(base, out0, start, done)
    ensures Builds(base, out, start, done + Copied(base, offset0, size0)) && out0 <= out
    ensures |out| <= |out0| + 8 * size0
    ensures out == out0 + Copies(offset0, size0)
  {
    hide Copies, Builds, SparseBytes, Pow2, Pow256, Copied, LowCopy, CopyInstr;
    out := out0;
    var offset: nat, size: nat := offset0, size0;
    ghost var built := done;
    while size > 0
      invariant offset0 <= offset && offset + size == offset0 + size0 && out0 <= out
      invariant |out| <= |out0| + 8 * (offset - offset0)
      invariant Builds(base, out, start, built)
      invariant built + Copied(base, offset, size) == done + Copied(base, offset0, size0)
      invariant out + Copies(offset, size) == out0 + Copies(offset0, size0)
    {
      CopiesStep(out, offset, size);
      var chunk := Min(size, MAX_COPY);
      var instr := CopyBytes(offset, chunk);
      BuildsLow(base, out, start, built, offset, chunk);
      CopiedStep(base, built, offset, size, chunk);
      built := built + LowCopy(base, offset, chunk);
      out := out + instr;
      offset := offset + chunk;
      size := size - chunk;
    }
    NothingCopied(base, offset);
    CopiesStep(out, offset, 0);
    assert built + [] == built;
  }

  /** One copy instruction; its opcode is patched in once its bytes are known. */
  method CopyBytes(offset: nat, chunk: nat) returns (out: Bytes)
    requires 0 < chunk <= MAX_COPY
    ensures out == CopyInstr(offset, chunk)
  {
    hide SparseBytes, Pow2, Pow256;
    out := [128];
    var oBits, oBytes := EmitSparse(offset, OFFSET_WIDTH);
    out := out + oBytes;
    var sBits, sBytes := EmitSparse(chunk, SIZE_WIDTH);
    out := out + sBytes;
    Widths();
    out := out[0 := 128 + oBits + 16 * sBits];
  }

  lemma CopiedStep(base: Bytes, built: Bytes, offset: nat, size: nat, chunk: nat)
    requires offset + size <= |base| && 0 < size && chunk == Min(size, MAX_COPY)
    ensures built + Copied(base, offset, size) ==
            built + LowCopy(base, offset, chunk) + Copied(base, offset + chunk, size - chunk)
  {
    hide LowCopy;
    Regroup(built, LowCopy(base, offset, chunk), Copied(base, offset + chunk, size - chunk), []);
  }

  lemma NothingCopied(base: Bytes, offset: nat)
    requires offset <= |base|
    ensures Copied(base, offset, 0) == []
  {}

  function Window(s: Bytes, i: nat): Bytes
    requires i + BLOCK <= |s|
  { s[i..i + BLOCK] }

  /** `hash` of a base window -> the earliest base offset with that hash. */
  method IndexBase(hash: Bytes -> int, base: Bytes) returns (index: map<int, nat>)
    ensures Indexes(hash, base, index)
  {
    hide EarliestFrom;
    index := map[];
    if |base| >= BLOCK {
      for n := 0 to |base| - BLOCK + 1
        invariant forall h :: h in index ==>
          && index[h] < n && hash(Window(base, index[h])) == h
          && forall i :: 0 <= i < index[h] ==> hash(Window(base, i)) != h
        invariant forall i :: 0 <= i < n ==> hash(Window(base, i)) in index
      {
        var h := hash(Window(base, n));
        if h !in index {
          index := index[h := n];
        }
      }
    }
    forall h ensures EarliestFrom(hash, base, h, 0) == if h in index then Some(index[h]) else None {
      EarliestIs(hash, base, h, 0, if h in index then Some(index[h]) else None);
    }
  }

  /** The earliest window from `i` on with this hash. */
  function EarliestFrom(hash: Bytes -> int, base: Bytes, h: int, i: nat): (r: Option<nat>)
    ensures r.Some? ==> i <= r.value && r.value + BLOCK <= |base|
    decreases |base| - i
  {
    if i + BLOCK > |base| then None
    else if hash(Window(base, i)) == h then Some(i)
    else EarliestFrom(hash, base, h, i + 1)
  }

  ghost predicate Indexes(hash: Bytes -> int, base: Bytes, index: map<int, nat>)
  {
    forall h :: EarliestFrom(hash, base, h, 0) == if h in index then Some(index[h]) else None
  }

  lemma {:induction false} EarliestIs(hash: Bytes -> int, base: Bytes, h: int, i: nat, p: Option<nat>)
    requires p.Some? ==> i <= p.value && p.value + BLOCK <= |base| && hash(Window(base, p.value)) == h
    requires forall k :: i <= k <= |base| - BLOCK && (p.Some? ==> k < p.value) ==> hash(Window(base, k)) != h
    ensures EarliestFrom(hash, base, h, i) == p
    decreases |base| - i
  {
    if i + BLOCK <= |base| && p != Some(i) { EarliestIs(hash, base, h, i + 1, p); }
  }

  /** How far the two agree from here. */
  function Agreement(base: Bytes, target: Bytes, p: nat, j: nat): (r: nat)
    ensures p <= |base| && j <= |target| ==> p + r <= |base| && j + r <= |target| && base[p..p + r] == target[j..j + r]
    decreases |base| - p
  {
    if p < |base| && j < |target| && base[p] == target[j] then
      var r := Agreement(base, target, p + 1, j + 1);
      assert base[p..p + 1 + r] == [base[p]] + base[p + 1..p + 1 + r];
      assert target[j..j + 1 + r] == [target[j]] + target[j + 1..j + 1 + r];
      1 + r
    else 0
  }

  lemma {:induction false} AgreementIs(base: Bytes, target: Bytes, p: nat, j: nat, len: nat)
    requires p + len <= |base| && j + len <= |target| && base[p..p + len] == target[j..j + len]
    requires p + len == |base| || j + len == |target| || base[p + len] != target[j + len]
    ensures Agreement(base, target, p, j) == len
    decreases len
  {
    if len > 0 {
      var x, y := base[p..p + len], target[j..j + len];
      assert base[p] == x[0] && target[j] == y[0];
      assert base[p + 1..p + len] == x[1..] && target[j + 1..j + len] == y[1..];
      AgreementIs(base, target, p + 1, j + 1, len - 1);
    }
  }

  /** The match the greedy scan takes at `j`: the earliest window with the same hash, if it
      has the same bytes, extended forward. */
  function MatchAt(hash: Bytes -> int, base: Bytes, target: Bytes, j: nat): (r: Option<(nat, nat)>)
    ensures r.Some? ==>
      var (p, len) := r.value;
      p + len <= |base| && j + len <= |target| && base[p..p + len] == target[j..j + len]
  {
    if j + BLOCK > |target| then None
    else
      var p := EarliestFrom(hash, base, hash(Window(target, j)), 0);
      if p.None? || Window(base, p.value) != Window(target, j) then None
      else Some((p.value, Agreement(base, target, p.value, j)))
  }

  /** The matches the greedy scan takes from `j` on. */
  function Greedy(hash: Bytes -> int, base: Bytes, target: Bytes, j: nat): (r: seq<(nat, nat)>)
    decreases |target| - j
  {
    if j >= |target| then []
    else
      var m := MatchAt(hash, base, target, j);
      if m.Some? && m.value.1 > 0 then [m.value] + Greedy(hash, base, target, j + m.value.1)
      else Greedy(hash, base, target, j + 1)
  }

  method FindMatch(hash: Bytes -> int, index: map<int, nat>, base: Bytes, target: Bytes, j: nat)
    returns (found: Option<(nat, nat)>)
    requires j < |target| && Indexes(hash, base, index)
    ensures found == MatchAt(hash, base, target, j)
    ensures found.Some? ==>
      var (p, len) := found.value;
      && BLOCK <= len && p + len <= |base| && j + len <= |target|
      && base[p..p + len] == target[j..j + len]
      && (p + len == |base| || j + len == |target| || base[p + len] != target[j + len])
  {
    hide EarliestFrom, Agreement;
    found := None;
    if j + BLOCK <= |target| {
      var h := hash(target[j..j + BLOCK]);
      assert EarliestFrom(hash, base, h, 0) == if h in index then Some(index[h]) else None;
      if h in index && base[index[h]..index[h] + BLOCK] == target[j..j + BLOCK] {
        var len := ExtendMatch(base, target, index[h], j);
        found := Some((index[h], len));
      }
    }
  }

  /** A base as long as one block finds itself at once, as a whole. */
  lemma SelfMatch(hash: Bytes -> int, base: Bytes)
    requires BLOCK <= |base|
    ensures MatchAt(hash, base, base, 0) == Some((0, |base|))
  {
    hide EarliestFrom, Agreement;
    EarliestIs(hash, base, hash(Window(base, 0)), 0, Some(0));
    AgreementIs(base, base, 0, 0, |base|);
  }

  /** All these slices of the base are copied right. */
  ghost predicate AllRight(base: Bytes, matches: seq<(nat, nat)>)
  {
    forall i :: 0 <= i < |matches| ==> matches[i].0 + matches[i].1 <= |base| && Right(base, matches[i].0, matches[i].1)
  }

  lemma AllRightSnoc(base: Bytes, matches: seq<(nat, nat)>, m: (nat, nat))
    requires m.0 + m.1 <= |base|
    ensures AllRight(base, matches + [m]) <==> AllRight(base, matches) && Right(base, m.0, m.1)
  {
    hide Right;
    var all := matches + [m];
    assert all[|matches|] == m && forall i :: 0 <= i < |matches| ==> all[i] == matches[i];
  }

  /** The delta that copies a base of `n` bytes whole. */
  function SelfDelta(n: nat): (r: Bytes)
    requires 0 < n <= MAX_COPY
  { VarintBytes(n) + VarintBytes(n) + CopyInstr(0, n) }

  /** It makes the base from itself. */
  lemma SelfApplies(base: Bytes)
    requires 0 < |base| <= MAX_COPY
    ensures Apply(base, SelfDelta(|base|)) == Ok(base) && |SelfDelta(|base|)| < TWO_64
  {
    hide VarintBytes, CopyInstr, Builds, Apply;
    var header := VarintBytes(|base|) + VarintBytes(|base|);
    BuildsNothing(base, header);
    BuildsCopy(base, header, |header|, [], 0, |base|);
    assert [] + base[0..0 + |base|] == base;
    HeaderReads(base, base, SelfDelta(|base|));
  }

  /** The instructions for the target from `j` on, with literal bytes waiting in `pending`: literals are
      written before a match and whenever 127 of them wait. */
  function Program(hash: Bytes -> int, base: Bytes, target: Bytes, j: nat, pending: Bytes): (r: Bytes)
    decreases |target| - j
  {
    if j >= |target| then Inserts(pending)
    else
      var m, more := MatchAt(hash, base, target, j), pending + [target[j]];
      if m.Some? && m.value.1 > 0 then
        Inserts(pending) + Copies(m.value.0, m.value.1) + Program(hash, base, target, j + m.value.1, [])
      else if |more| == MAX_INSERT then Inserts(more) + Program(hash, base, target, j + 1, [])
      else Program(hash, base, target, j + 1, more)
  }

  /** The delta made of the two sizes and these instructions. */
  function Made(hash: Bytes -> int, base: Bytes, target: Bytes): (r: Bytes)
  { VarintBytes(|base|) + VarintBytes(|target|) + Program(hash, base, target, 0, []) }

  lemma ProgramStep(hash: Bytes -> int, base: Bytes, target: Bytes, j: nat, pending: Bytes, delta: Bytes)
    requires j < |target|
    ensures
      var m, more := MatchAt(hash, base, target, j), pending + [target[j]];
      delta + Program(hash, base, target, j, pending) ==
      if m.Some? && m.value.1 > 0 then
        delta + Inserts(pending) + Copies(m.value.0, m.value.1) + Program(hash, base, target, j + m.value.1, [])
      else if |more| == MAX_INSERT then delta + Inserts(more) + Program(hash, base, target, j + 1, [])
      else delta + Program(hash, base, target, j + 1, more)
  {
    hide MatchAt, Inserts, Copies;
    var m, more := MatchAt(hash, base, target, j), pending + [target[j]];
    if m.Some? && m.value.1 > 0 {
      Regroup(delta, Inserts(pending), Copies(m.value.0, m.value.1),
              Program(hash, base, target, j + m.value.1, []));
    } else if |more| == MAX_INSERT {
      Regroup(delta, Inserts(more), Program(hash, base, target, j + 1, []), []);
    }
  }

  lemma ProgramEnds(hash: Bytes -> int, base: Bytes, target: Bytes, j: nat, pending: Bytes)
    requires j >= |target|
    ensures Program(hash, base, target, j, pending) == Inserts(pending)
  {}

  lemma SelfProgram(hash: Bytes -> int, base: Bytes)
    requires BLOCK <= |base| <= MAX_COPY
    ensures Made(hash, base, base) == SelfDelta(|base|)
  {
    hide MatchAt, CopyInstr, VarintBytes;
    SelfMatch(hash, base);
    ProgramEnds(hash, base, base, |base|, []);
    NoInserts();
    CopiesStep([], 0, |base|);
    CopiesStep(CopyInstr(0, |base|), |base|, 0);
    assert Copies(0, |base|) == [] + Copies(0, |base|) && [] + CopyInstr(0, |base|) == CopyInstr(0, |base|);
    assert Program(hash, base, base, 0, []) == [] + CopyInstr(0, |base|) + [];
  }

  predicate SelfCase(base: Bytes, target: Bytes) { base == target && BLOCK <= |base| <= MAX_COPY }

  /** Greedy forward matching. The hash only proposes candidates (every one is compared byte
      for byte), so for a base of at most 2^32 bytes the delta is right whatever the hash; for
      a longer one exactly if every match taken is copied right. */
  method CreateDelta(hash: Bytes -> int, base: Bytes, target: Bytes) returns (delta: Bytes)
    requires |base| < TWO_64 && |target| < TWO_64
    ensures |target| > MAX_TARGET ==> Apply(base, delta).Err?
    ensures |target| <= MAX_TARGET ==> Apply(base, delta).Ok? && |Apply(base, delta).value| == |target|
    ensures |target| <= MAX_TARGET ==>
      (Apply(base, delta) == Ok(target) <==> AllRight(base, Greedy(hash, base, target, 0)))
    ensures |base| <= TWO_32 ==> Apply(base, delta) == if |target| <= MAX_TARGET then Ok(target) else Err
    ensures |delta| <= |base| + 9 * |target| + 2
    ensures SelfCase(base, target) ==> delta == SelfDelta(|base|)
    ensures delta == Made(hash, base, target)
  {
    hide VarintBytes, Apply, Scanned, Greedy, AllRight, Indexes, Program, SelfDelta, Inserts;
    delta := WriteVarint([], |base|);
    delta := WriteVarint(delta, |target|);
    ghost var header := delta;
    var index := IndexBase(hash, base);
    var pending: Bytes, j: nat := [], 0;
    ghost var built: Bytes, matches: seq<(nat, nat)> := [], [];
    ScanBegins(hash, base, target, header);
    while j < |target|
      invariant j <= |target| && Scanned(hash, base, target, header, delta, pending, j, built, matches)
    {
      delta, pending, j, built, matches :=
        ScanStep(hash, index, base, target, header, delta, pending, j, built, matches);
    }
    ScanEnds(hash, base, target, header, delta, pending, j, built, matches);
    delta := LastBytes(base, target, header, delta, pending, built, matches);
    if SelfCase(base, target) { SelfProgram(hash, base); }
    if |base| <= TWO_32 { GreedyRight(hash, base, target, 0); }
  }

  /** Where the scan stands at `j`: what it has built, matched and written so far. */
  ghost predicate Scanned(hash: Bytes -> int, base: Bytes, target: Bytes, header: Bytes, delta: Bytes, pending: Bytes,
                          j: nat, built: Bytes, matches: seq<(nat, nat)>)
  {
    && Progress(base, target, header, delta, pending, j, built, matches)
    && matches + Greedy(hash, base, target, j) == Greedy(hash, base, target, 0)
    && delta + Program(hash, base, target, j, pending) == header + Program(hash, base, target, 0, [])
  }

  lemma ScanBegins(hash: Bytes -> int, base: Bytes, target: Bytes, header: Bytes)
    ensures Scanned(hash, base, target, header, header, [], 0, [], [])
  {
    hide Progress, Greedy, Program;
    Begins(base, target, header);
  }

  lemma ScanEnds(hash: Bytes -> int, base: Bytes, target: Bytes, header: Bytes, delta: Bytes, pending: Bytes,
                 j: nat, built: Bytes, matches: seq<(nat, nat)>)
    requires Scanned(hash, base, target, header, delta, pending, j, built, matches) && j == |target|
    ensures Progress(base, target, header, delta, pending, |target|, built, matches)
    ensures matches == Greedy(hash, base, target, 0)
    ensures delta + Inserts(pending) == header + Program(hash, base, target, 0, [])
  {
    hide Progress, Greedy, Program, Inserts;
    GreedyEnds(hash, base, target, j, matches);
    ProgramEnds(hash, base, target, j, pending);
  }

  /** Takes the match found at `j`, or the byte there. */
  method ScanStep(hash: Bytes -> int, index: map<int, nat>, base: Bytes, target: Bytes, ghost header: Bytes,
                  delta0: Bytes, pending0: Bytes, j0: nat, ghost built0: Bytes, ghost matches0: seq<(nat, nat)>)
    returns (delta: Bytes, pending: Bytes, j: nat, ghost built: Bytes, ghost matches: seq<(nat, nat)>)
    requires j0 < |target| && Indexes(hash, base, index)
    requires Scanned(hash, base, target, header, delta0, pending0, j0, built0, matches0)
    ensures j0 < j <= |target| && Scanned(hash, base, target, header, delta, pending, j, built, matches)
  {
    hide Progress, MatchAt, Greedy, Indexes, Program, Inserts, Copies;
    delta, pending, j, built, matches := delta0, pending0, j0, built0, matches0;
    var found := FindMatch(hash, index, base, target, j);
    GreedyStep(hash, base, target, j, matches);
    ProgramStep(hash, base, target, j, pending, delta);
    match found {
      case Some((p, len)) =>
        delta, built := TakeMatch(base, target, header, delta, pending, j, p, len, built, matches);
        matches := matches + [(p, len)];
        pending := [];
        j := j + len;
      case None =>
        delta, pending, built := TakeByte(base, target, header, delta, pending, j, built, matches);
        j := j + 1;
    }
  }

  lemma GreedyStep(hash: Bytes -> int, base: Bytes, target: Bytes, j: nat, matches: seq<(nat, nat)>)
    requires j < |target|
    ensures
      var m := MatchAt(hash, base, target, j);
      matches + Greedy(hash, base, target, j) ==
      if m.Some? && m.value.1 > 0 then matches + [m.value] + Greedy(hash, base, target, j + m.value.1)
      else matches + Greedy(hash, base, target, j + 1)
  {
    hide MatchAt;
    var m := MatchAt(hash, base, target, j);
    if m.Some? && m.value.1 > 0 {
      Regroup(matches, [m.value], Greedy(hash, base, target, j + m.value.1), []);
    }
  }

  lemma GreedyEnds(hash: Bytes -> int, base: Bytes, target: Bytes, j: nat, matches: seq<(nat, nat)>)
    requires j >= |target|
    ensures matches + Greedy(hash, base, target, j) == matches
  {}

  lemma {:induction false} GreedyRight(hash: Bytes -> int, base: Bytes, target: Bytes, j: nat)
    requires |base| <= TWO_32
    ensures AllRight(base, Greedy(hash, base, target, j))
    decreases |target| - j
  {
    hide MatchAt, Right;
    if j < |target| {
      var m := MatchAt(hash, base, target, j);
      if m.Some? && m.value.1 > 0 {
        GreedyRight(hash, base, target, j + m.value.1);
        ShortBaseRight(base, m.value.0, m.value.1);
      } else {
        GreedyRight(hash, base, target, j + 1);
      }
    }
  }

  method LastBytes(base: Bytes, target: Bytes, ghost header: Bytes, delta0: Bytes, pending: Bytes,
                   ghost built: Bytes, ghost matches: seq<(nat, nat)>) returns (delta: Bytes)
    requires |base| < TWO_64 && |target| < TWO_64 && header == VarintBytes(|base|) + VarintBytes(|target|)
    requires Progress(base, target, header, delta0, pending, |target|, built, matches)
    ensures |target| > MAX_TARGET ==> Apply(base, delta).Err?
    ensures |target| <= MAX_TARGET ==> Apply(base, delta).Ok? && |Apply(base, delta).value| == |target|
    ensures |target| <= MAX_TARGET ==> (Apply(base, delta) == Ok(target) <==> AllRight(base, matches))
    ensures |delta| <= |base| + 9 * |target| + 2 && delta == delta0 + Inserts(pending)
  {
    hide Inserts, Builds, VarintBytes, Apply, AllRight;
    delta := FlushInsert(base, delta0, pending, |header|, built);
    BuiltMore(target, built, pending, |target|);
    assert target[..|target|] == target;
    HeaderReads(base, built + pending, delta);
  }

  /** The delta so far builds as many bytes as it should before the pending ones, and the
      right ones exactly if every match so far is copied right. */
  ghost predicate Progress(base: Bytes, target: Bytes, header: Bytes, delta: Bytes, pending: Bytes, j: nat,
                           built: Bytes, matches: seq<(nat, nat)>)
  {
    && |pending| <= j <= |target| && header <= delta && |delta| <= |header| + 8 * (j - |pending|)
    && pending == target[j - |pending|..j] && Builds(base, delta, |header|, built) && |built| == j - |pending|
    && (built == target[..j - |pending|] <==> AllRight(base, matches))
  }

  lemma Begins(base: Bytes, target: Bytes, header: Bytes)
    ensures Progress(base, target, header, header, [], 0, [], [])
  {
    hide Builds;
    BuildsNothing(base, header);
    assert target[..0] == [];
  }

  /** Adding the pending bytes keeps what is right right and what is wrong wrong. */
  lemma BuiltMore(target: Bytes, built: Bytes, pending: Bytes, j: nat)
    requires |pending| <= j <= |target| && pending == target[j - |pending|..j] && |built| == j - |pending|
    ensures |built + pending| == j && (built + pending == target[..j] <==> built == target[..j - |pending|])
  {
    assert target[..j] == target[..j - |pending|] + pending;
    Halves(built, pending, target[..j - |pending|], pending);
  }

  method TakeMatch(base: Bytes, target: Bytes, ghost header: Bytes, delta0: Bytes, pending: Bytes, j: nat,
                   p: nat, len: nat, ghost built0: Bytes, ghost matches: seq<(nat, nat)>)
    returns (delta: Bytes, ghost built: Bytes)
    requires Progress(base, target, header, delta0, pending, j, built0, matches)
    requires p + len <= |base| && j + len <= |target| && base[p..p + len] == target[j..j + len]
    ensures Progress(base, target, header, delta, [], j + len, built, matches + [(p, len)])
    ensures delta == delta0 + Inserts(pending) + Copies(p, len)
  {
    hide Builds, Copied, Copies, Inserts, AllRight, Right;
    delta := FlushInsert(base, delta0, pending, |header|, built0);
    BuiltMore(target, built0, pending, j);
    built := built0 + pending;
    delta := EmitCopy(base, delta, p, len, |header|, built);
    MatchExtends(base, target, p, j, len);
    CopiedRight(base, p, len);
    Halves(built, Copied(base, p, len), target[..j], base[p..p + len]);
    AllRightSnoc(base, matches, (p, len));
    built := built + Copied(base, p, len);
  }

  method TakeByte(base: Bytes, target: Bytes, ghost header: Bytes, delta0: Bytes, pending0: Bytes, j: nat,
                  ghost built0: Bytes, ghost matches: seq<(nat, nat)>)
    returns (delta: Bytes, pending: Bytes, ghost built: Bytes)
    requires j < |target| && Progress(base, target, header, delta0, pending0, j, built0, matches)
    ensures Progress(base, target, header, delta, pending, j + 1, built, matches)
    ensures
      var more := pending0 + [target[j]];
      if |more| == MAX_INSERT then delta == delta0 + Inserts(more) && pending == []
      else delta == delta0 && pending == more
  {
    hide Builds, AllRight, Inserts;
    delta, pending, built := delta0, pending0 + [target[j]], built0;
    SliceGrows(target, j - |pending0|, j);
    if |pending| == MAX_INSERT {
      delta := FlushInsert(base, delta, pending, |header|, built);
      BuiltMore(target, built, pending, j + 1);
      built := built + pending;
      pending := [];
    }
  }

  lemma MatchExtends(base: Bytes, target: Bytes, p: nat, j: nat, len: nat)
    requires p + len <= |base| && j + len <= |target| && base[p..p + len] == target[j..j + len]
    ensures target[..j] + base[p..p + len] == target[..j + len]
  {}

  /** Extends a verified block match as far forward as the bytes agree. */
  method ExtendMatch(base: Bytes, target: Bytes, p: nat, j: nat) returns (len: nat)
    requires p + BLOCK <= |base| && j + BLOCK <= |target| && base[p..p + BLOCK] == target[j..j + BLOCK]
    ensures BLOCK <= len && p + len <= |base| && j + len <= |target|
    ensures base[p..p + len] == target[j..j + len] && len == Agreement(base, target, p, j)
    ensures p + len == |base| || j + len == |target| || base[p + len] != target[j + len]
  {
    hide Agreement;
    len := BLOCK;
    while p + len < |base| && j + len < |target| && base[p + len] == target[j + len]
      invariant BLOCK <= len && p + len <= |base| && j + len <= |target|
      invariant base[p..p + len] == target[j..j + len]
    {
      SliceGrows(base, p, p + len);
      SliceGrows(target, j, j + len);
      len := len + 1;
    }
    AgreementIs(base, target, p, j, len);
  }

  lemma SliceGrows(s: Bytes, i: nat, j: nat)
    requires i <= j < |s|
    ensures s[i..j + 1] == s[i..j] + [s[j]]
  {}

  lemma ApplyIs(base: Bytes, delta: Bytes, target: Bytes, mid: nat, start: nat)
    requires ReadVarint(delta, 0) == Ok((|base|, mid)) && ReadVarint(delta, mid) == Ok((|target|, start))
    requires Builds(base, delta, start, target)
    ensures Apply(base, delta) == if |target| <= MAX_TARGET then Ok(target) else Err
  {
    hide ReadVarint, Run;
  }

  lemma HeaderReads(base: Bytes, target: Bytes, delta: Bytes)
    requires |base| < TWO_64 && |target| < TWO_64
    requires VarintBytes(|base|) + VarintBytes(|target|) <= delta
    requires Builds(base, delta, |VarintBytes(|base|) + VarintBytes(|target|)|, target)
    ensures Apply(base, delta) == if |target| <= MAX_TARGET then Ok(target) else Err
  {
    hide VarintBytes, ReadVarint, Run, Apply;
    var a, b := VarintBytes(|base|), VarintBytes(|target|);
    assert delta[0..|a + b|] == a + b;
    AtSplit(delta, 0, a, b);
    VarintRoundTrip(delta, 0, |base|);
    VarintRoundTrip(delta, |a|, |target|);
    ApplyIs(base, delta, target, |a|, |a + b|);
  }
}
