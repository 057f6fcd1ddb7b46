/** Staging-index entries: fields, flags, path compression and padding (src/index.rs). */
module IndexEntry {
  import opened Base
  import opened Tables
  import PackFormat
  import Trees
  import TreeBuilder

  // -------------------------------------------------------------------- safe paths

  function Lower(b: byte): (r: byte) { if 0x41 <= b <= 0x5A then b + 0x20 else b }

  predicate SameIgnoringCase(a: Bytes, b: Bytes)
  {
    |a| == |b| && forall i :: 0 <= i < |a| ==> Lower(a[i]) == Lower(b[i])
  }

  /** Without trailing dots and spaces. */
  function Trimmed(s: Bytes): (r: Bytes)
  { if s != [] && (s[|s| - 1] == 0x2E || s[|s| - 1] == 0x20) then Trimmed(s[..|s| - 1]) else s }

  const DOT_GIT: Bytes := [0x2E, 0x67, 0x69, 0x74]
  const GIT_TILDE_1: Bytes := [0x67, 0x69, 0x74, 0x7E, 0x31]

  predicate SafeComponent(name: Bytes)
  {
    && name != [] && name != [0x2E] && name != [0x2E, 0x2E]
    && 0x2F !in name && 0x5C !in name && 0 !in name && 0x3A !in name
    && !SameIgnoringCase(Trimmed(name), DOT_GIT) && !SameIgnoringCase(name, GIT_TILDE_1)
  }

  /** Every slash-separated component is safe. */
  predicate SafePath(p: Bytes)
    decreases |p|
  {
    var k := Trees.Find(p, Trees.SLASH);
    SafeComponent(p[..k]) && (k < |p| ==> SafePath(p[k + 1..]))
  }

  /** A path the index accepts is one the tree builder can nest. */
  lemma {:induction false} SafeIsWellFormed(p: Bytes)
    requires SafePath(p)
    ensures p != [] && 0 !in p && TreeBuilder.WellFormed(p)
    decreases |p|
  {
    var k := Trees.Find(p, Trees.SLASH);
    if k < |p| {
      SafeIsWellFormed(p[k + 1..]);
      assert p == p[..k] + [p[k]] + p[k + 1..];
    } else {
      assert p[..k] == p;
    }
  }

  // ------------------------------------------------------------------------ varint

  /** Continues after a byte with the high bit set; a value past 64 bits is an error. */
  function ReadVarFrom(data: Bytes, pos: nat, value: nat): (r: Result<(nat, nat)>)
    ensures r.Ok? ==> pos < r.value.1 <= |data|
    decreases |data| - pos
  {
    if pos >= |data| || (value + 1) * 128 >= TWO_64 then Err
    else
      var v: nat := (value + 1) * 128 + data[pos] % 128;
      if data[pos] < 128 then Ok((v, pos + 1)) else ReadVarFrom(data, pos + 1, v)
  }

  function ReadVar(data: Bytes, pos: nat): (r: Result<(nat, nat)>)
    ensures r.Ok? ==> pos < r.value.1 <= |data|
  {
    if pos >= |data| then Err
    else if data[pos] < 128 then Ok((data[pos], pos + 1))
    else ReadVarFrom(data, pos + 1, data[pos] % 128)
  }

  lemma VarDigit(data: Bytes, at: nat, n: nat, b: byte)
    requires 128 <= n < TWO_64 && b % 128 == n % 128 && At(data, at, [b])
    ensures ReadVarFrom(data, at, n / 128 - 1) == if b < 128 then Ok((n, at + 1)) else ReadVarFrom(data, at + 1, n)
  {
    assert data[at] == data[at..at + 1][0];
    assert (n / 128 - 1 + 1) * 128 + n % 128 == n;
  }

  lemma {:induction false} VarPrefixReads(data: Bytes, pos: nat, n: nat)
    requires At(data, pos, PackFormat.OfsPrefix(n)) && n < TWO_64
    ensures ReadVar(data, pos) == ReadVarFrom(data, pos + |PackFormat.OfsPrefix(n)|, n)
    decreases n
  {
    hide ReadVarFrom;
    if n < 128 {
      assert data[pos] == data[pos..pos + 1][0];
    } else {
      var m := n / 128 - 1;
      AtSplit(data, pos, PackFormat.OfsPrefix(m), [128 + n % 128]);
      VarPrefixReads(data, pos, m);
      VarDigit(data, pos + |PackFormat.OfsPrefix(m)|, n, 128 + n % 128);
    }
  }

  lemma VarintRoundTrip(data: Bytes, pos: nat, n: nat)
    requires At(data, pos, PackFormat.OfsBytes(n)) && n < TWO_64
    ensures ReadVar(data, pos) == Ok((n, pos + |PackFormat.OfsBytes(n)|))
  {
    hide ReadVarFrom;
    if n < 128 {
      assert data[pos] == data[pos..pos + 1][0];
    } else {
      var m := n / 128 - 1;
      AtSplit(data, pos, PackFormat.OfsPrefix(m), [n % 128]);
      VarPrefixReads(data, pos, m);
      VarDigit(data, pos + |PackFormat.OfsPrefix(m)|, n, n % 128);
    }
  }

  method ReadVarint(data: Bytes, start: nat) returns (r: Result<(nat, nat)>)
    ensures r == ReadVar(data, start)
  {
    if start >= |data| { return Err; }
    var p, c := start + 1, data[start];
    var value: nat := c % 128;
    while c >= 128
      invariant start < p <= |data|
      invariant ReadVar(data, start) == if c < 128 then Ok((value, p)) else ReadVarFrom(data, p, value)
      decreases |data| - p, c
    {
      if p >= |data| || (value + 1) * 128 >= TWO_64 { return Err; }
      c := data[p];
      p := p + 1;
      value := (value + 1) * 128 + c % 128;
    }
    return Ok((value, p));
  }

  function Pow128(k: nat): (r: nat)
    ensures r >= 1
  { if k == 0 then 1 else 128 * Pow128(k - 1) }

  lemma FirstDigit(n: nat)
    requires n < TWO_64
    ensures n / 128 < Pow128(9)
    ensures PackFormat.OfsBytes(n) == if n / 128 == 0 then [n % 128] else PackFormat.OfsPrefix(n / 128 - 1) + [n % 128]
  {
    hide PackFormat.OfsPrefix;
    assert Pow128(3) == 0x20_0000;
    assert Pow128(6) == 128 * 128 * 128 * Pow128(3);
    assert Pow128(9) == 128 * 128 * 128 * Pow128(6);
  }

  lemma NextDigit(m: nat, k: nat)
    requires m + 1 < Pow128(k)
    ensures k > 0 && m / 128 < Pow128(k - 1)
  {}

  /** `digits` are the last bytes of the varint, and `value` is what the bytes before them say. */
  ghost predicate Remaining(n: nat, value: nat, digits: Bytes, room: nat)
  {
    && value < Pow128(room)
    && PackFormat.OfsBytes(n) == if value == 0 then digits else PackFormat.OfsPrefix(value - 1) + digits
  }

  lemma RemainingStarts(n: nat)
    requires n < TWO_64
    ensures Remaining(n, n / 128, [n % 128], 9)
  {
    hide Pow128, PackFormat.OfsPrefix, PackFormat.OfsBytes;
    FirstDigit(n);
  }

  lemma RemainingStep(n: nat, value: nat, digits: Bytes, room: nat)
    requires value > 0 && Remaining(n, value, digits, room)
    ensures room > 0 && Remaining(n, (value - 1) / 128, [128 + (value - 1) % 128] + digits, room - 1)
  {
    hide Pow128, PackFormat.OfsPrefix, PackFormat.OfsBytes;
    PackFormat.PrefixDigit(value - 1, digits);
    NextDigit(value - 1, room);
  }

  /** Fills a sixteen-byte buffer from its end; ten bytes are always enough. */
  method WriteVarint(n: nat) returns (out: Bytes)
    requires n < TWO_64
    ensures out == PackFormat.OfsBytes(n)
  {
    hide Remaining, PackFormat.OfsBytes;
    var buf := new byte[16];
    var pos := 15;
    buf[pos] := n % 128;
    var value: nat := n / 128;
    RemainingStarts(n);
    ghost var digits: Bytes := [n % 128];
    while value != 0
      invariant 6 <= pos <= 15 && buf.Length == 16 && Remaining(n, value, digits, pos - 6)
      invariant |digits| == 16 - pos && forall i :: 0 <= i < |digits| ==> buf[pos + i] == digits[i]
    {
      RemainingStep(n, value, digits, pos - 6);
      var digit: byte := 128 + (value - 1) % 128;
      pos := pos - 1;
      buf[pos] := digit;
      digits := [digit] + digits;
      value := (value - 1) / 128;
    }
    out := buf[pos..];
    assert out == digits;
    RemainingEnds(n, digits, pos - 6);
  }

  lemma RemainingEnds(n: nat, digits: Bytes, room: nat)
    requires Remaining(n, 0, digits, room)
    ensures digits == PackFormat.OfsBytes(n)
  {}

  // ----------------------------------------------------------------------- entries

  /** The ten cached stat words, in file order. */
  datatype Stat = Stat(ctime: (nat, nat), mtime: (nat, nat), dev: nat, ino: nat,
                       mode: nat, uid: nat, gid: nat, size: nat)

  datatype Entry = Entry(stat: Stat, id: Bytes, stage: nat, assumeValid: bool, extendedFlags: nat, path: Bytes)

  function Words(s: Stat): (r: seq<nat>)
    ensures |r| == 10
  { [s.ctime.0, s.ctime.1, s.mtime.0, s.mtime.1, s.dev, s.ino, s.mode, s.uid, s.gid, s.size] }

  predicate Fits(idLen: nat, e: Entry) { Sized(idLen, e) && SafePath(e.path) }

  /** Every field fits its place in the file. */
  predicate Sized(idLen: nat, e: Entry)
  {
    && (forall i :: 0 <= i < 10 ==> Words(e.stat)[i] < TWO_32)
    && |e.id| == idLen && e.stage < 4 && e.extendedFlags < 0x1_0000 && |e.path| < TWO_64
  }

  function StatParts(s: Stat): (r: seq<Bytes>)
    ensures |r| == 10 && Width(r, 4) && forall i :: 0 <= i < 10 ==> r[i] == U32Bytes(Words(s)[i])
  { seq(10, i requires 0 <= i < 10 => U32Bytes(Words(s)[i])) }

  predicate Extended(version: nat, e: Entry) { version >= 3 && e.extendedFlags != 0 }

  function FlagBits(version: nat, e: Entry): (r: nat)
    ensures r < 0x1_0000
  {
    Min(|e.path|, 0xFFF) + e.stage % 4 * 0x1000
    + (if Extended(version, e) then 0x4000 else 0) + (if e.assumeValid then 0x8000 else 0)
  }

  function Head(version: nat, e: Entry): (r: Bytes)
  {
    Concat(StatParts(e.stat)) + e.id + U16Bytes(FlagBits(version, e))
    + (if Extended(version, e) then U16Bytes(e.extendedFlags) else [])
  }

  /** Length of the longest common prefix. */
  function Common(a: Bytes, b: Bytes): (r: nat)
    ensures r <= |a| && r <= |b| && a[..r] == b[..r]
    ensures r < |a| && r < |b| ==> a[r] != b[r]
  {
    if a == [] || b == [] || a[0] != b[0] then 0
    else
      var t := Common(a[1..], b[1..]);
      assert a[..t + 1] == [a[0]] + a[1..][..t] && b[..t + 1] == [b[0]] + b[1..][..t];
      t + 1
  }

  function RoundUp8(n: nat): (r: nat)
    ensures n <= r < n + 8 && r % 8 == 0
  { (n + 7) / 8 * 8 }

  function Zeros(n: nat): (r: Bytes)
    ensures |r| == n && forall i :: 0 <= i < n ==> r[i] == 0
  { seq(n, _ => 0) }

  /** The name as stored: prefix-compressed in version 4, else NUL-padded to eight bytes. */
  function NameBytes(version: nat, prev: Bytes, headLen: nat, path: Bytes): (r: Bytes)
  {
    if version >= 4 then
      var common := Common(prev, path);
      PackFormat.OfsBytes(|prev| - common) + path[common..] + [0]
    else
      path + Zeros(RoundUp8(headLen + |path| + 1) - headLen - |path|)
  }

  function EncodeEntry(version: nat, prev: Bytes, e: Entry): (r: Bytes)
  { Head(version, e) + NameBytes(version, prev, |Head(version, e)|, e.path) }

  function WordAt(data: Bytes, start: nat, i: nat): (r: nat)
    requires i < 10 && start + 40 <= |data|
  { U32At(data, start + i * 4) }

  function StatAt(data: Bytes, start: nat): (r: Stat)
    requires start + 40 <= |data|
  {
    var f := (i: nat) requires i < 10 => WordAt(data, start, i);
    Stat((f(0), f(1)), (f(2), f(3)), f(4), f(5), f(6), f(7), f(8), f(9))
  }

  /** The path stored at `p`, and where the entry ends. */
  function ParseName(data: Bytes, start: nat, p: nat, version: nat, prev: Bytes,
                     nameLen: nat): (r: Result<(Bytes, nat)>)
    requires start <= p <= |data|
    ensures r.Ok? ==> |r.value.0| <= |prev| + (r.value.1 - start) && r.value.1 > start
  {
    if version >= 4 then
      var strip :- ReadVar(data, p);
      if strip.0 > |prev| then Err
      else
        var rest := data[strip.1..];
        var nul := Trees.Find(rest, 0);
        if nul == |rest| then Err else Ok((prev[..|prev| - strip.0] + rest[..nul], strip.1 + nul + 1))
    else
      var nul := Trees.Find(data[p..], 0);
      if nameLen >= 0xFFF && nul == |data[p..]| then Err
      else
        var end := p + if nameLen < 0xFFF then nameLen else nul;
        if end > |data| then Err else Ok((data[p..end], start + RoundUp8(end - start + 1)))
  }

  function ParseEntry(idLen: nat, data: Bytes, start: nat, version: nat, prev: Bytes): (r: Result<(Entry, nat)>)
    ensures r.Ok? ==> start < r.value.1 <= |data| && |r.value.0.path| <= |prev| + (r.value.1 - start)
  {
    var p := start + 42 + idLen;
    if p > |data| then Err
    else
      var flags := U16At(data, p - 2);
      var extended := flags / 0x4000 % 2 == 1;
      if extended && (version < 3 || p + 2 > |data|) then Err
      else
        var name :- ParseName(data, start, if extended then p + 2 else p, version, prev, flags % 0x1000);
        if name.1 > |data| || !SafePath(name.0) then Err
        else
          var e := Entry(StatAt(data, start), data[start + 40..p - 2], flags / 0x1000 % 4, flags / 0x8000 == 1,
                         if extended then U16At(data, p) else 0, name.0);
          Ok((e, name.1))
  }

  // -------------------------------------------------------------------- round trip

  lemma FlagsSplit(version: nat, e: Entry)
    requires e.stage < 4
    ensures
      var f := FlagBits(version, e);
      && f % 0x1000 == Min(|e.path|, 0xFFF) && f / 0x1000 % 4 == e.stage
      && (f / 0x4000 % 2 == 1 <==> Extended(version, e)) && (f / 0x8000 == 1 <==> e.assumeValid)
  {
    var f, x, v := FlagBits(version, e), if Extended(version, e) then 1 else 0, if e.assumeValid then 1 else 0;
    var high := e.stage + 4 * x + 8 * v;
    assert f == Min(|e.path|, 0xFFF) + 0x1000 * high;
    assert f / 0x1000 == high;
    assert f / 0x4000 == high / 4 && f / 0x8000 == high / 8;
  }

  lemma StatReads(data: Bytes, start: nat, s: Stat)
    requires At(data, start, Concat(StatParts(s))) && forall i :: 0 <= i < 10 ==> Words(s)[i] < TWO_32
    ensures |Concat(StatParts(s))| == 40 && start + 40 <= |data| && StatAt(data, start) == s
  {
    hide U32At, U32Bytes, Concat;
    ConcatWidth(StatParts(s), 4);
    forall i: nat | i < 10 ensures WordAt(data, start, i) == Words(s)[i] {
      RowAt(data, start, StatParts(s), 4, i);
      U32RoundTrip(data, start + i * 4, Words(s)[i]);
    }
  }

  lemma HeadReads(idLen: nat, data: Bytes, start: nat, version: nat, e: Entry)
    requires Sized(idLen, e) && At(data, start, Head(version, e))
    ensures
      var p := start + 42 + idLen;
      && p <= start + |Head(version, e)| <= |data|
      && |Head(version, e)| == 42 + idLen + (if Extended(version, e) then 2 else 0)
      && StatAt(data, start) == e.stat && data[start + 40..p - 2] == e.id && U16At(data, p - 2) == FlagBits(version, e)
      && (Extended(version, e) ==> U16At(data, p) == e.extendedFlags)
  {
    hide Concat, U16Bytes, U16At, FlagBits, SafePath, StatAt;
    var a, b, c := Concat(StatParts(e.stat)), e.id, U16Bytes(FlagBits(version, e));
    var d := if Extended(version, e) then U16Bytes(e.extendedFlags) else [];
    AtSplit(data, start, a + b + c, d);
    AtSplit(data, start, a + b, c);
    AtSplit(data, start, a, b);
    StatReads(data, start, e.stat);
    U16RoundTrip(data, start + 40 + idLen, FlagBits(version, e));
    if Extended(version, e) { U16RoundTrip(data, start + 42 + idLen, e.extendedFlags); }
  }

  /** A NUL-free piece followed by a NUL is found by scanning for it. */
  lemma ScanFinds(data: Bytes, p: nat, piece: Bytes, rest: Bytes)
    requires At(data, p, piece + [0] + rest) && 0 !in piece
    ensures p <= |data| && Trees.Find(data[p..], 0) == |piece| < |data[p..]| && data[p..][..|piece|] == piece
  {
    var tail := data[p + |piece| + 1 + |rest|..];
    assert data[p..] == piece + [0] + rest + tail;
    assert data[p..] == piece + [0] + (rest + tail);
    Trees.FindAfter(piece, 0, rest + tail);
  }

  lemma NameReads4(data: Bytes, start: nat, p: nat, prev: Bytes, path: Bytes, nameLen: nat)
    requires start <= p <= |data| && At(data, p, NameBytes(4, prev, p - start, path)) && 0 !in path && |prev| < TWO_64
    ensures ParseName(data, start, p, 4, prev, nameLen) == Ok((path, p + |NameBytes(4, prev, p - start, path)|))
  {
    hide ReadVar, PackFormat.OfsBytes, Trees.Find, Common;
    var common := Common(prev, path);
    var v, suffix := PackFormat.OfsBytes(|prev| - common), path[common..];
    assert v + suffix + [0] == v + (suffix + [0] + []);
    AtSplit(data, p, v, suffix + [0] + []);
    VarintRoundTrip(data, p, |prev| - common);
    ScanFinds(data, p + |v|, suffix, []);
    assert path == prev[..common] + suffix;
  }

  lemma NameReads23(data: Bytes, start: nat, p: nat, version: nat, prev: Bytes, path: Bytes, nameLen: nat)
    requires start <= p <= |data| && version < 4 && At(data, p, NameBytes(version, prev, p - start, path))
    requires 0 !in path && nameLen == Min(|path|, 0xFFF)
    ensures ParseName(data, start, p, version, prev, nameLen) ==
      Ok((path, p + |NameBytes(version, prev, p - start, path)|))
  {
    var pad := RoundUp8(p - start + |path| + 1) - (p - start) - |path|;
    assert Zeros(pad) == [0] + Zeros(pad - 1);
    assert path + Zeros(pad) == path + [0] + Zeros(pad - 1);
    ScanFinds(data, p, path, Zeros(pad - 1));
    assert data[p..p + |path|] == data[p..][..|path|];
  }

  lemma EntryRoundTrip(idLen: nat, data: Bytes, start: nat, version: nat, prev: Bytes, e: Entry)
    requires Fits(idLen, e) && 2 <= version <= 4 && |prev| < TWO_64 && (e.extendedFlags != 0 ==> version >= 3)
    requires At(data, start, EncodeEntry(version, prev, e))
    ensures ParseEntry(idLen, data, start, version, prev) == Ok((e, start + |EncodeEntry(version, prev, e)|))
  {
    hide ParseEntry, EncodeEntry, Sized;
    SafeIsWellFormed(e.path);
    EntryReads(idLen, data, start, version, prev, e);
  }

  /** A written entry is read back if its path is safe and refused otherwise. */
  lemma EntryReads(idLen: nat, data: Bytes, start: nat, version: nat, prev: Bytes, e: Entry)
    requires Sized(idLen, e) && 2 <= version <= 4 && |prev| < TWO_64 && (e.extendedFlags != 0 ==> version >= 3)
    requires 0 !in e.path && At(data, start, EncodeEntry(version, prev, e))
    ensures ParseEntry(idLen, data, start, version, prev) ==
      if SafePath(e.path) then Ok((e, start + |EncodeEntry(version, prev, e)|)) else Err
  {
    hide Head, NameBytes, ParseName, FlagBits, SafePath, StatAt, U16At;
    var head := Head(version, e);
    AtSplit(data, start, head, NameBytes(version, prev, |head|, e.path));
    HeadReads(idLen, data, start, version, e);
    FlagsSplit(version, e);
    var p := start + |head|;
    if version == 4 {
      NameReads4(data, start, p, prev, e.path, Min(|e.path|, 0xFFF));
    } else {
      NameReads23(data, start, p, version, prev, e.path, Min(|e.path|, 0xFFF));
    }
  }

  /** Whatever parses fits what the writer can store. */
  lemma ParsedFits(idLen: nat, data: Bytes, start: nat, version: nat, prev: Bytes)
    requires ParseEntry(idLen, data, start, version, prev).Ok?
    requires |prev| <= start && |data| < TWO_64
    ensures
      var r := ParseEntry(idLen, data, start, version, prev).value;
      Fits(idLen, r.0) && |r.0.path| <= r.1 && (r.0.extendedFlags != 0 ==> version >= 3)
  {
    hide ParseName, SafePath, U16At, U32At;
    assert forall i: nat :: i < 10 ==> WordAt(data, start, i) < TWO_32;
  }

  // ----------------------------------------------------------------------- writing

  method WriteName(out0: Bytes, start: nat, path: Bytes, version: nat, prev: Bytes) returns (out: Bytes)
    requires |prev| < TWO_64 && start <= |out0|
    ensures out == out0 + NameBytes(version, prev, |out0| - start, path)
  {
    hide PackFormat.OfsBytes, Common;
    if version >= 4 {
      var common := 0;
      while common < |prev| && common < |path| && prev[common] == path[common]
        invariant common <= |prev| && common <= |path| && forall i :: 0 <= i < common ==> prev[i] == path[i]
      {
        common := common + 1;
      }
      CommonIs(prev, path, common);
      var strip := WriteVarint(|prev| - common);
      out := out0 + strip + path[common..] + [0];
      assert out == out0 + (strip + path[common..] + [0]);
    } else {
      out := out0 + path + [0];
      var padded := RoundUp8(|out| - start);
      out := out + Zeros(start + padded - |out|);
      assert out == out0 + (path + Zeros(RoundUp8(|out0| - start + |path| + 1) - (|out0| - start) - |path|));
    }
  }

  method WriteEntry(out0: Bytes, e: Entry, version: nat, prev: Bytes) returns (out: Bytes)
    requires |prev| < TWO_64
    ensures out == out0 + EncodeEntry(version, prev, e)
  {
    hide Concat, StatParts, U16Bytes, FlagBits, NameBytes;
    var head := Concat(StatParts(e.stat)) + e.id + U16Bytes(FlagBits(version, e));
    if Extended(version, e) { head := head + U16Bytes(e.extendedFlags); }
    assert head == Head(version, e);
    out := WriteName(out0 + head, |out0|, e.path, version, prev);
  }

  lemma {:induction false} CommonIs(a: Bytes, b: Bytes, k: nat)
    requires k <= |a| && k <= |b| && (forall i :: 0 <= i < k ==> a[i] == b[i]) && (k < |a| && k < |b| ==> a[k] != b[k])
    ensures Common(a, b) == k
  {
    if k > 0 {
      CommonIs(a[1..], b[1..], k - 1);
    }
  }
}
