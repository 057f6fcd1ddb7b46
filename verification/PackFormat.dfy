/** Packfile entries: headers, base references and frames (src/pack/mod.rs, src/pack/writer.rs). */
module PackFormat {
  import opened Base
  import Delta

  datatype ObjType = Commit | Tree | Blob | Tag

  /** An object: its type and canonical payload. */
  datatype Obj = Obj(ty: ObjType, bytes: Bytes)

  datatype HashAlgo = Sha1 | Sha256 {
    function RawLen(): nat { if Sha1? then 20 else 32 }
  }

  type Id = Bytes

  /** A zlib implementation: `inflate` is given a bound and also returns how many
      input bytes the stream occupied. */
  datatype Zlib = Zlib(deflate: Bytes -> Bytes, inflate: (Bytes, nat) -> Result<(Bytes, nat)>) {
    /** Streams are self-delimiting and never run past their input. */
    ghost predicate Lawful() {
      && (forall x: Bytes, rest: Bytes, max: nat {:trigger inflate(deflate(x) + rest, max)} ::
            |x| <= max ==> inflate(deflate(x) + rest, max) == Ok((x, |deflate(x)|)))
      && (forall d: Bytes, max: nat :: inflate(d, max).Ok? ==> inflate(d, max).value.1 <= |d|)
    }
  }

  /** The external primitives a pack is read and written with. */
  datatype Env = Env(algo: HashAlgo, zlib: Zlib, hash: Obj -> Id, digest: Bytes -> Bytes, crc: Bytes -> nat) {
    ghost predicate Lawful() {
      && zlib.Lawful()
      && (forall o :: |hash(o)| == algo.RawLen())
      && (forall b :: |digest(b)| == algo.RawLen())
      && (forall b :: crc(b) < TWO_32)
    }
  }

  lemma InflateAt(z: Zlib, data: Bytes, pos: nat, x: Bytes, max: nat)
    requires z.Lawful() && At(data, pos, z.deflate(x)) && |x| <= max
    ensures z.inflate(data[pos..], max) == Ok((x, |z.deflate(x)|))
  {
    assert data[pos..] == z.deflate(x) + data[pos + |z.deflate(x)|..];
  }

  /** A stream format that meets the law: each byte behind a continuation mark. */
  function Stored(x: Bytes): (r: Bytes)
  {
    if x == [] then [0] else [1, x[0]] + Stored(x[1..])
  }

  function Unstored(d: Bytes, max: nat): (r: Result<(Bytes, nat)>)
    ensures r.Ok? ==> r.value.1 <= |d|
    decreases |d|
  {
    if d == [] then Err
    else if d[0] == 0 then Ok(([], 1))
    else if d[0] != 1 || |d| < 2 || max == 0 then Err
    else
      var t :- Unstored(d[2..], max - 1);
      Ok(([d[1]] + t.0, t.1 + 2))
  }

  lemma UnstoredStep(d: Bytes, max: nat)
    requires |d| >= 2 && d[0] == 1 && max > 0
    ensures Unstored(d, max) ==
      var t := Unstored(d[2..], max - 1);
      if t.Err? then Err else Ok(([d[1]] + t.value.0, t.value.1 + 2))
  {}

  lemma {:induction false} StoredRoundTrip(x: Bytes, rest: Bytes, max: nat)
    requires |x| <= max
    ensures Unstored(Stored(x) + rest, max) == Ok((x, |Stored(x)|))
    decreases |x|
  {
    hide Stored, Unstored;
    StoredNothing(rest, max);
    if x != [] {
      var d, tail := Stored(x) + rest, Stored(x[1..]) + rest;
      StoredStep(x);
      assert d[2..] == tail;
      StoredRoundTrip(x[1..], rest, max - 1);
      UnstoredStep(d, max);
      assert x == [x[0]] + x[1..];
    }
  }

  lemma StoredNothing(rest: Bytes, max: nat)
    ensures Unstored(Stored([]) + rest, max) == Ok(([], |Stored([])|))
  {}

  lemma StoredStep(x: Bytes)
    requires x != []
    ensures Stored(x) == [1, x[0]] + Stored(x[1..])
  {}

  lemma {:induction false} StoredLength(x: Bytes)
    ensures |Stored(x)| == 2 * |x| + 1
  {
    if x != [] { StoredLength(x[1..]); }
  }

  /** The law of `Zlib` is satisfiable. */
  lemma LawfulZlibExists()
    ensures Zlib(Stored, Unstored).Lawful()
  {
    forall x: Bytes, rest: Bytes, max: nat | |x| <= max
      ensures Unstored(Stored(x) + rest, max) == Ok((x, |Stored(x)|))
    {
      StoredRoundTrip(x, rest, max);
    }
  }

  // ------------------------------------------------------------ entry header

  const OFS_DELTA_TAG: nat := 6
  const REF_DELTA_TAG: nat := 7

  function TypeTag(ty: ObjType): nat {
    match ty case Commit => 1 case Tree => 2 case Blob => 3 case Tag => 4
  }

  function TypeOfTag(tag: nat): Option<ObjType> {
    if tag == 1 then Some(Commit) else if tag == 2 then Some(Tree)
    else if tag == 3 then Some(Blob) else if tag == 4 then Some(Tag) else None
  }

  predicate KnownTag(tag: nat) { TypeOfTag(tag).Some? || tag == OFS_DELTA_TAG || tag == REF_DELTA_TAG }

  /** Type tag and low four size bits, then the rest of the size seven bits at a time. */
  function HeaderBytes(tag: nat, size: nat): (r: Bytes)
    requires tag < 8
    ensures r != []
  {
    if size < 16 then [tag * 16 + size]
    else [128 + tag * 16 + size % 16] + Delta.VarintBytes(size / 16)
  }

  /** `(tag, size, position after the header)`. */
  function ReadHeader(data: Bytes, offset: nat): (r: Result<(nat, nat, nat)>)
    ensures r.Ok? ==> KnownTag(r.value.0) && offset < r.value.2 <= |data|
  {
    if offset >= |data| then Err
    else
      var first := data[offset];
      var tag := first / 16 % 8;
      if !KnownTag(tag) then Err
      else if first < 128 then Ok((tag, first % 16, offset + 1))
      else
        var size :- Delta.ReadVarintFrom(data, offset + 1, first % 16, 16);
        Ok((tag, size.0, size.1))
  }

  lemma HeaderRoundTrip(data: Bytes, offset: nat, tag: nat, size: nat)
    requires KnownTag(tag) && size < TWO_64 && At(data, offset, HeaderBytes(tag, size))
    ensures ReadHeader(data, offset) == Ok((tag, size, offset + |HeaderBytes(tag, size)|))
  {
    hide Delta.VarintBytes, Delta.ReadVarintFrom;
    assert data[offset] == data[offset..offset + |HeaderBytes(tag, size)|][0];
    if size < 16 {
      FirstByte(tag, size, 0);
    } else {
      var low := size % 16;
      FirstByte(tag, low, 1);
      AtSplit(data, offset, [128 + tag * 16 + low], Delta.VarintBytes(size / 16));
      Delta.VarintRoundTripFrom(data, offset + 1, low, 16, size / 16);
    }
  }

  lemma FirstByte(tag: nat, low: nat, more: nat)
    requires tag < 8 && low < 16 && more < 2
    ensures
      var b := 128 * more + tag * 16 + low;
      b / 16 % 8 == tag && b % 16 == low && (b < 128 <==> more == 0)
  {
    var b := 128 * more + tag * 16 + low;
    assert b == 16 * (8 * more + tag) + low;
    assert b / 16 == 8 * more + tag;
  }

  lemma VarintDigit(n: nat)
    ensures Delta.VarintBytes(n) ==
      if n / 128 == 0 then [n % 128] else [128 + n % 128] + Delta.VarintBytes(n / 128)
  {}

  method WriteEntryHeader(out0: Bytes, tag: nat, size: nat) returns (out: Bytes)
    requires tag < 8
    ensures out == out0 + HeaderBytes(tag, size)
  {
    hide Delta.VarintBytes;
    var rest: nat := size / 16;
    var first: byte := tag * 16 + size % 16;
    if rest != 0 {
      first := first + 128;
    }
    out := out0 + [first];
    ghost var tail := if rest == 0 then [] else Delta.VarintBytes(rest);
    assert out + tail == out0 + HeaderBytes(tag, size);
    while rest != 0
      invariant out + (if rest == 0 then [] else Delta.VarintBytes(rest)) == out0 + HeaderBytes(tag, size)
    {
      VarintDigit(rest);
      var b: byte := rest % 128;
      rest := rest / 128;
      if rest != 0 {
        b := b + 128;
      }
      out := out + [b];
    }
  }

  method ParseEntryHeader(data: Bytes, offset: nat) returns (r: Result<(nat, nat, nat)>)
    ensures r == ReadHeader(data, offset)
  {
    if offset >= |data| {
      return Err;
    }
    var p, c := offset + 1, data[offset];
    var tag := c / 16 % 8;
    if !KnownTag(tag) {
      return Err;
    }
    var size: nat, scale: nat := c % 16, 16;
    while c >= 128
      invariant offset < p <= |data|
      invariant ReadHeader(data, offset) ==
        if c < 128 then Ok((tag, size, p))
        else
          var tail := Delta.ReadVarintFrom(data, p, size, scale);
          if tail.Err? then Err else Ok((tag, tail.value.0, tail.value.1))
      decreases |data| - p, c
    {
      if p >= |data| || scale >= TWO_64 {
        return Err;
      }
      c := data[p];
      p := p + 1;
      size := size + (c % 128 * scale) % TWO_64;
      scale := scale * 128;
    }
    return Ok((tag, size, p));
  }

  // ----------------------------------------------------- offset-style varint

  /** Big-endian base-128 where every continuation byte stands for one more than it shows. */
  function OfsBytes(n: nat): (r: Bytes)
    ensures r != []
  {
    if n < 128 then [n] else OfsPrefix(n / 128 - 1) + [n % 128]
  }

  function OfsPrefix(n: nat): (r: Bytes)
    ensures r != []
  {
    if n < 128 then [128 + n] else OfsPrefix(n / 128 - 1) + [128 + n % 128]
  }

  /** Continues after a byte with the high bit set; arithmetic wraps at 64 bits. */
  function ReadOfsFrom(data: Bytes, pos: nat, value: nat): (r: Result<(nat, nat)>)
    ensures r.Ok? ==> pos < r.value.1 <= |data|
    decreases |data| - pos
  {
    if pos >= |data| then Err
    else
      var v := ((value + 1) * 128 + data[pos] % 128) % TWO_64;
      if data[pos] < 128 then Ok((v, pos + 1)) else ReadOfsFrom(data, pos + 1, v)
  }

  function ReadOfs(data: Bytes, pos: nat): (r: Result<(nat, nat)>)
    ensures r.Ok? ==> pos < r.value.1 <= |data|
  {
    if pos >= |data| then Err
    else if data[pos] < 128 then Ok((data[pos], pos + 1))
    else ReadOfsFrom(data, pos + 1, data[pos] % 128)
  }

  lemma OfsDigit(data: Bytes, at: nat, n: nat, b: byte)
    requires 128 <= n < TWO_64 && b % 128 == n % 128 && At(data, at, [b])
    ensures ReadOfsFrom(data, at, n / 128 - 1) ==
      if b < 128 then Ok((n, at + 1)) else ReadOfsFrom(data, at + 1, n)
  {
    assert data[at] == data[at..at + 1][0];
    assert (n / 128 - 1 + 1) * 128 + n % 128 == n;
  }

  lemma {:induction false} OfsPrefixReads(data: Bytes, pos: nat, n: nat)
    requires At(data, pos, OfsPrefix(n)) && n < TWO_64
    ensures ReadOfs(data, pos) == ReadOfsFrom(data, pos + |OfsPrefix(n)|, n)
    decreases n
  {
    hide ReadOfsFrom;
    if n < 128 {
      assert data[pos] == data[pos..pos + 1][0];
    } else {
      var m := n / 128 - 1;
      AtSplit(data, pos, OfsPrefix(m), [128 + n % 128]);
      OfsPrefixReads(data, pos, m);
      OfsDigit(data, pos + |OfsPrefix(m)|, n, 128 + n % 128);
    }
  }

  lemma OfsRoundTrip(data: Bytes, pos: nat, n: nat)
    requires At(data, pos, OfsBytes(n)) && n < TWO_64
    ensures ReadOfs(data, pos) == Ok((n, pos + |OfsBytes(n)|))
  {
    hide ReadOfsFrom, OfsPrefix;
    if n < 128 {
      assert data[pos] == data[pos..pos + 1][0];
    } else {
      LongOfs(data, pos, n, n / 128 - 1, n % 128);
    }
  }

  /** The last digit behind the continuation bytes for `m`. */
  lemma LongOfs(data: Bytes, pos: nat, n: nat, m: nat, b: byte)
    requires 128 <= n < TWO_64 && m == n / 128 - 1 && b == n % 128 && At(data, pos, OfsPrefix(m) + [b])
    ensures ReadOfs(data, pos) == Ok((n, pos + |OfsPrefix(m) + [b]|))
  {
    hide ReadOfs, ReadOfsFrom, OfsPrefix;
    AtSplit(data, pos, OfsPrefix(m), [b]);
    OfsPrefixReads(data, pos, m);
    OfsDigit(data, pos + |OfsPrefix(m)|, n, b);
  }

  function Reversed(s: Bytes): (r: Bytes)
    ensures |r| == |s|
  { if s == [] then [] else Reversed(s[1..]) + [s[0]] }

  lemma {:induction false} ReversedSnoc(s: Bytes, b: byte)
    ensures Reversed(s + [b]) == [b] + Reversed(s)
  {
    if s != [] {
      assert (s + [b])[1..] == s[1..] + [b];
      ReversedSnoc(s[1..], b);
    } else {
      assert s + [b] == [b];
    }
  }

  lemma PrefixDigit(m: nat, digits: Bytes)
    ensures OfsPrefix(m) + digits ==
      if m < 128 then [128 + m] + digits else OfsPrefix(m / 128 - 1) + ([128 + m % 128] + digits)
  {}

  /** Builds the digits least significant first and reverses them. */
  method EncodeOfs(distance: nat) returns (out: Bytes)
    ensures out == OfsBytes(distance)
  {
    var buf: Bytes := [distance % 128];
    var ofs: nat := distance / 128;
    ghost var digits := [distance % 128];
    while ofs != 0
      invariant digits == Reversed(buf)
      invariant OfsBytes(distance) == if ofs == 0 then digits else OfsPrefix(ofs - 1) + digits
    {
      hide Reversed;
      var m: nat := ofs - 1;
      var b: byte := 128 + m % 128;
      ReversedSnoc(buf, b);
      PrefixDigit(m, digits);
      buf := buf + [b];
      digits := [b] + digits;
      ofs := m / 128;
    }
    return Reversed(buf);
  }

  method ReadOffsetVarint(data: Bytes, start: nat) returns (r: Result<(nat, nat)>)
    ensures r == ReadOfs(data, start)
  {
    if start >= |data| {
      return Err;
    }
    var p, c := start + 1, data[start];
    var value: nat := c % 128;
    while c >= 128
      invariant start < p <= |data|
      invariant ReadOfs(data, start) == if c < 128 then Ok((value, p)) else ReadOfsFrom(data, p, value)
      decreases |data| - p, c
    {
      if p >= |data| {
        return Err;
      }
      c := data[p];
      p := p + 1;
      value := ((value + 1) * 128 + c % 128) % TWO_64;
    }
    return Ok((value, p));
  }

  // ------------------------------------------------------------------ frames

  datatype Kind = Full(ty: ObjType) | OfsDelta(rel: nat) | RefDelta(id: Id)

  /** One parsed entry: what it is, its inflated stream, and where the next begins. */
  datatype Entry = Entry(kind: Kind, stream: Bytes, next: nat)

  function ReadEntry(env: Env, data: Bytes, offset: nat): (r: Result<Entry>)
    ensures r.Ok? ==> offset < r.value.next
  {
    var header :- ReadHeader(data, offset);
    var (tag, size, body) := header;
    if tag == OFS_DELTA_TAG then
      var rel :- ReadOfs(data, body);
      var z :- env.zlib.inflate(data[rel.1..], size);
      Ok(Entry(OfsDelta(rel.0), z.0, rel.1 + z.1))
    else if tag == REF_DELTA_TAG then
      var idLen := env.algo.RawLen();
      if body + idLen > |data| then Err
      else
        var z :- env.zlib.inflate(data[body + idLen..], size);
        Ok(Entry(RefDelta(data[body..body + idLen]), z.0, body + idLen + z.1))
    else
      var z :- env.zlib.inflate(data[body..], size);
      Ok(Entry(Full(TypeOfTag(tag).value), z.0, body + z.1))
  }

  /** The bytes an entry of this kind carrying `stream` occupies in a pack. */
  function FrameBytes(env: Env, kind: Kind, stream: Bytes): (r: Bytes)
    ensures r != []
  {
    match kind
    case Full(ty) => HeaderBytes(TypeTag(ty), |stream|) + env.zlib.deflate(stream)
    case OfsDelta(rel) => HeaderBytes(OFS_DELTA_TAG, |stream|) + OfsBytes(rel) + env.zlib.deflate(stream)
    case RefDelta(id) => HeaderBytes(REF_DELTA_TAG, |stream|) + id + env.zlib.deflate(stream)
  }

  predicate KindFits(env: Env, kind: Kind) {
    && (kind.OfsDelta? ==> kind.rel < TWO_64)
    && (kind.RefDelta? ==> |kind.id| == env.algo.RawLen())
  }

  lemma FrameRoundTrip(env: Env, data: Bytes, offset: nat, kind: Kind, stream: Bytes)
    requires env.Lawful() && KindFits(env, kind) && |stream| < TWO_64
    requires At(data, offset, FrameBytes(env, kind, stream))
    ensures ReadEntry(env, data, offset) == Ok(Entry(kind, stream, offset + |FrameBytes(env, kind, stream)|))
  {
    hide ReadEntry, FrameBytes;
    match kind
    case Full(ty) => FullRoundTrip(env, data, offset, ty, stream);
    case OfsDelta(rel) => OfsFrameRoundTrip(env, data, offset, rel, stream);
    case RefDelta(id) => RefFrameRoundTrip(env, data, offset, id, stream);
  }

  lemma FullRoundTrip(env: Env, data: Bytes, offset: nat, ty: ObjType, stream: Bytes)
    requires env.zlib.Lawful() && |stream| < TWO_64 && At(data, offset, FrameBytes(env, Full(ty), stream))
    ensures ReadEntry(env, data, offset) == Ok(Entry(Full(ty), stream, offset + |FrameBytes(env, Full(ty), stream)|))
  {
    hide ReadHeader, HeaderBytes, ReadOfs, OfsBytes;
    var h := HeaderBytes(TypeTag(ty), |stream|);
    AtSplit(data, offset, h, env.zlib.deflate(stream));
    HeaderRoundTrip(data, offset, TypeTag(ty), |stream|);
    InflateAt(env.zlib, data, offset + |h|, stream, |stream|);
  }

  lemma OfsFrameRoundTrip(env: Env, data: Bytes, offset: nat, rel: nat, stream: Bytes)
    requires env.zlib.Lawful() && |stream| < TWO_64 && rel < TWO_64
    requires At(data, offset, FrameBytes(env, OfsDelta(rel), stream))
    ensures ReadEntry(env, data, offset) ==
      Ok(Entry(OfsDelta(rel), stream, offset + |FrameBytes(env, OfsDelta(rel), stream)|))
  {
    hide ReadHeader, HeaderBytes, ReadOfs, OfsBytes;
    var h, z := HeaderBytes(OFS_DELTA_TAG, |stream|), env.zlib.deflate(stream);
    AtSplit(data, offset, h + OfsBytes(rel), z);
    AtSplit(data, offset, h, OfsBytes(rel));
    HeaderRoundTrip(data, offset, OFS_DELTA_TAG, |stream|);
    OfsRoundTrip(data, offset + |h|, rel);
    InflateAt(env.zlib, data, offset + |h| + |OfsBytes(rel)|, stream, |stream|);
  }

  lemma RefFrameRoundTrip(env: Env, data: Bytes, offset: nat, id: Id, stream: Bytes)
    requires env.zlib.Lawful() && |stream| < TWO_64 && |id| == env.algo.RawLen()
    requires At(data, offset, FrameBytes(env, RefDelta(id), stream))
    ensures ReadEntry(env, data, offset) ==
      Ok(Entry(RefDelta(id), stream, offset + |FrameBytes(env, RefDelta(id), stream)|))
  {
    hide ReadHeader, HeaderBytes, ReadOfs, OfsBytes;
    var h, z := HeaderBytes(REF_DELTA_TAG, |stream|), env.zlib.deflate(stream);
    AtSplit(data, offset, h + id, z);
    AtSplit(data, offset, h, id);
    HeaderRoundTrip(data, offset, REF_DELTA_TAG, |stream|);
    InflateAt(env.zlib, data, offset + |h| + |id|, stream, |stream|);
  }
}
