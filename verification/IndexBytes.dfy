/** What the bytes of an index file are and which paths it accepts (src/index.rs, src/object/tree.rs). */
module IndexBytes {
  import opened Base
  import opened Tables
  import opened IndexEntry
  import opened Index
  import PackFormat
  import Trees

  // -------------------------------------------------------------------- safe paths

  /** A name no component of a path may have: nothing, `.` or `..`, anything with `/`, `\`, `:` or
      NUL in it, `.git` in any case with nothing but dots and spaces behind it, `git~1` in any case. */
  predicate Refused(name: Bytes)
  {
    || name == [] || name == [0x2E] || name == [0x2E, 0x2E]
    || (exists i :: 0 <= i < |name| && name[i] in {0x2F, 0x5C, 0x3A, 0x00})
    || (|name| >= 4 && name[0] == 0x2E && name[1] in {0x47, 0x67} && name[2] in {0x49, 0x69} && name[3] in {0x54, 0x74}
        && forall i :: 4 <= i < |name| ==> name[i] in {0x2E, 0x20})
    || (|name| == 5 && name[0] in {0x47, 0x67} && name[1] in {0x49, 0x69} && name[2] in {0x54, 0x74}
        && name[3] == 0x7E && name[4] == 0x31)
  }

  /** Exactly the names not refused are accepted. */
  lemma SafeMeans(name: Bytes)
    ensures SafeComponent(name) <==> !Refused(name)
  {
    hide Trimmed;
    TrimmedMeans(name);
    var n := |Trimmed(name)|;
    LowerMeans();
    assert Lower(0x2E) == 0x2E && Lower(0x7E) == 0x7E && Lower(0x31) == 0x31;
    assert Lower(0x67) == 0x67 && Lower(0x69) == 0x69 && Lower(0x74) == 0x74;
    DotGitMeans(name);
    TildeMeans(name);
  }

  lemma TildeMeans(name: Bytes)
    ensures SameIgnoringCase(name, GIT_TILDE_1) <==>
      |name| == 5 && name[0] in {0x47, 0x67} && name[1] in {0x49, 0x69} && name[2] in {0x54, 0x74}
      && name[3] == 0x7E && name[4] == 0x31
  {}

  lemma DotGitMeans(name: Bytes)
    ensures SameIgnoringCase(Trimmed(name), DOT_GIT) <==>
      |name| >= 4 && name[0] == 0x2E && name[1] in {0x47, 0x67} && name[2] in {0x49, 0x69} && name[3] in {0x54, 0x74}
      && forall i :: 4 <= i < |name| ==> name[i] in {0x2E, 0x20}
  {
    hide Trimmed;
    TrimmedMeans(name);
    var n := |Trimmed(name)|;
    if n > 4 { assert name[n - 1] !in {0x2E, 0x20}; }
    if n < 4 <= |name| { assert name[3] in {0x2E, 0x20}; }
  }

  lemma LowerMeans()
    ensures forall b: byte :: Lower(b) == if 0x41 <= b <= 0x5A then b + 0x20 else b
  {}

  lemma {:induction false} TrimmedMeans(s: Bytes)
    ensures
      var n := |Trimmed(s)|;
      && n <= |s| && Trimmed(s) == s[..n] && (n > 0 ==> s[n - 1] !in {0x2E, 0x20})
      && forall i :: n <= i < |s| ==> s[i] in {0x2E, 0x20}
  {
    if s != [] && s[|s| - 1] in {0x2E, 0x20} { TrimmedMeans(s[..|s| - 1]); }
  }

  /** `p[i..j]` is one of the parts the slashes of `p` cut it into. */
  predicate Part(p: Bytes, i: nat, j: nat)
  {
    && i <= j <= |p| && (i == 0 || p[i - 1] == 0x2F) && (j == |p| || p[j] == 0x2F)
    && forall k :: i <= k < j ==> p[k] != 0x2F
  }

  /** A path is accepted exactly if none of its parts is refused. */
  lemma {:induction false} SafePathMeans(p: Bytes)
    ensures SafePath(p) <==> forall i: nat, j: nat :: Part(p, i, j) ==> !Refused(p[i..j])
    decreases |p|
  {
    hide SafeComponent, Refused, Part;
    var k := Trees.Find(p, Trees.SLASH);
    SafeMeans(p[..k]);
    FirstPart(p);
    if k < |p| {
      var rest := p[k + 1..];
      SafePathMeans(rest);
      forall i: nat, j: nat | Part(rest, i, j)
        ensures i <= j <= |rest| && Part(p, k + 1 + i, k + 1 + j) && rest[i..j] == p[k + 1 + i..k + 1 + j]
      {
        PartBack(p, k, i, j);
      }
      forall i: nat, j: nat | Part(p, i, j)
        ensures
          || (i == 0 && j == k)
          || (k < i <= j <= |p| && Part(rest, i - k - 1, j - k - 1) && rest[i - k - 1..j - k - 1] == p[i..j])
      {
        PartPlace(p, k, i, j);
      }
    } else {
      forall i: nat, j: nat | Part(p, i, j) ensures i == 0 && j == k { PartPlace(p, k, i, j); }
    }
  }

  lemma FirstPart(p: Bytes)
    ensures
      var k := Trees.Find(p, Trees.SLASH);
      Part(p, 0, k) && p[0..k] == p[..k] && (k < |p| ==> p[k] == 0x2F) && forall m :: 0 <= m < k ==> p[m] != 0x2F
  {}

  lemma PartBack(p: Bytes, k: nat, i: nat, j: nat)
    requires k < |p| && p[k] == 0x2F && Part(p[k + 1..], i, j)
    ensures Part(p, k + 1 + i, k + 1 + j) && p[k + 1..][i..j] == p[k + 1 + i..k + 1 + j]
  {
    var rest := p[k + 1..];
    Slice(p, k + 1, k + 1 + i, k + 1 + j);
    assert forall m :: k + 1 + i <= m < k + 1 + j ==> p[m] == rest[m - k - 1];
  }

  lemma PartPlace(p: Bytes, k: nat, i: nat, j: nat)
    requires k <= |p| && (k < |p| ==> p[k] == 0x2F) && (forall m :: 0 <= m < k ==> p[m] != 0x2F) && Part(p, i, j)
    ensures
      || (i == 0 && j == k)
      || (k < i <= j <= |p| && Part(p[k + 1..], i - k - 1, j - k - 1) && p[k + 1..][i - k - 1..j - k - 1] == p[i..j])
  {
    hide Part;
    if i > k { PartAfter(p, k, i, j); } else { PartFirst(p, k, i, j); }
  }

  lemma PartFirst(p: Bytes, k: nat, i: nat, j: nat)
    requires i <= k <= |p| && (k < |p| ==> p[k] == 0x2F) && (forall m :: 0 <= m < k ==> p[m] != 0x2F) && Part(p, i, j)
    ensures i == 0 && j == k
  {}

  lemma PartAfter(p: Bytes, k: nat, i: nat, j: nat)
    requires k < i && Part(p, i, j)
    ensures i <= j <= |p| && Part(p[k + 1..], i - k - 1, j - k - 1)
    ensures p[k + 1..][i - k - 1..j - k - 1] == p[i..j]
  {
    Slice(p, k + 1, i, j);
    var rest := p[k + 1..];
    assert forall m :: i - k - 1 <= m < j - k - 1 ==> rest[m] == p[k + 1 + m];
  }

  lemma Slice(p: Bytes, k: nat, i: nat, j: nat)
    requires k <= i <= j <= |p|
    ensures p[k..][i - k..j - k] == p[i..j]
  {}

  /** A written index reads back exactly if no part of a path in it is refused. */
  lemma AcceptedPaths(env: PackFormat.Env, idx: Index)
    requires env.Lawful() && |idx.entries| < TWO_32 && !HasLink(idx.extensions)
    requires forall e :: e in idx.entries ==> Sized(env.algo.RawLen(), e) && 0 !in e.path
    ensures Parse(env, Serialize(env, idx)).Ok? <==>
      forall e, i: nat, j: nat :: e in idx.entries && Part(e.path, i, j) ==> !Refused(e.path[i..j])
  {
    hide Parse, Serialize, Settled, HasLink, Sized, SafePath, Refused;
    IndexReads(env, idx);
    forall e | e in idx.entries
      ensures SafePath(e.path) <==> forall i: nat, j: nat :: Part(e.path, i, j) ==> !Refused(e.path[i..j])
    {
      SafePathMeans(e.path);
    }
  }

  /** `README.md` is accepted, `.gitignore` too, `.git` and `.GIT. ` are not. */
  lemma SomeNames(name: Bytes)
    ensures name == [0x52, 0x45, 0x41, 0x44, 0x4D, 0x45, 0x2E, 0x6D, 0x64] ==> SafePath(name)
    ensures name == [0x2E, 0x67, 0x69, 0x74, 0x69, 0x67, 0x6E, 0x6F, 0x72, 0x65] ==> SafePath(name)
    ensures name == [0x2E, 0x67, 0x69, 0x74] || name == [0x2E, 0x47, 0x49, 0x54, 0x2E, 0x20] ==> !SafePath(name)
  {
    hide SafePath;
    if 0x2F !in name {
      OneName(name);
      if |name| == 10 { assert name[4] == 0x69 ==> name[4] !in {0x2E, 0x20}; }
    }
  }

  lemma OneName(name: Bytes)
    requires 0x2F !in name
    ensures SafePath(name) <==> !Refused(name)
  {
    hide SafeComponent, Refused;
    SafeMeans(name);
    assert name[..|name|] == name;
  }

  // ------------------------------------------------------------------- positions

  /** Where each field of an entry stands; `f` is where its flags do. */
  lemma FieldsAt(idLen: nat, data: Bytes, start: nat, version: nat, prev: Bytes)
    requires ParseEntry(idLen, data, start, version, prev).Ok?
    ensures
      var e, f := ParseEntry(idLen, data, start, version, prev).value.0, start + 40 + idLen;
      && f + 2 <= |data|
      && e.stat.ctime == (U32At(data, start), U32At(data, start + 4))
      && e.stat.mtime == (U32At(data, start + 8), U32At(data, start + 12))
      && e.stat.dev == U32At(data, start + 16) && e.stat.ino == U32At(data, start + 20)
      && e.stat.mode == U32At(data, start + 24) && e.stat.uid == U32At(data, start + 28)
      && e.stat.gid == U32At(data, start + 32) && e.stat.size == U32At(data, start + 36)
      && e.id == data[start + 40..f]
      && (e.assumeValid <==> data[f] >= 0x80) && e.stage == data[f] / 0x10 % 4
      && (data[f] / 0x40 % 2 == 0 ==> e.extendedFlags == 0)
      && (data[f] / 0x40 % 2 == 1 ==> version >= 3 && f + 4 <= |data| && e.extendedFlags == U16At(data, f + 2))
    ensures
      var (e, end) := ParseEntry(idLen, data, start, version, prev).value;
      var f := start + 40 + idLen;
      f + 2 <= |data| &&
      var p := f + if data[f] / 0x40 % 2 == 1 then 4 else 2;
      p <= |data| && end <= |data| &&
      ParseName(data, start, p, version, prev, data[f] as int % 0x10 * 0x100 + data[f + 1]) == Ok((e.path, end))
  {
    hide ParseName, SafePath, U32At, U16At, Words;
    FlagBytes(data, start + 40 + idLen);
  }

  lemma FlagBytes(data: Bytes, f: nat)
    requires f + 2 <= |data|
    ensures
      var w := U16At(data, f);
      && w / 0x8000 == data[f] / 0x80 && w / 0x4000 % 2 == data[f] / 0x40 % 2 && w / 0x1000 % 4 == data[f] / 0x10 % 4
      && w % 0x1000 == data[f] as int % 0x10 * 0x100 + data[f + 1]
  {
    var hi, lo := data[f] as int, data[f + 1] as int;
    assert (hi * 0x100 + lo) / 0x1000 == hi / 0x10;
    assert hi / 0x10 / 4 == hi / 0x40 && hi / 0x10 / 8 == hi / 0x80;
  }

  lemma FindsIn(data: Bytes, p: nat)
    requires p <= |data|
    ensures
      var n := Trees.Find(data[p..], 0);
      p + n <= |data| && |data[p..]| == |data| - p && data[p..][..n] == data[p..p + n] && 0 !in data[p..p + n]
      && (p + n < |data| ==> data[p + n] == 0)
  {
    var n := Trees.Find(data[p..], 0);
    assert data[p..p + n] == data[p..][..n];
  }

  /** Up to version 3 the length of the name is in the flags, unless that is 0xFFF and a NUL ends
      the name; NULs fill the entry up to a multiple of eight. */
  lemma NameMeans(data: Bytes, start: nat, p: nat, version: nat, prev: Bytes, n: nat)
    requires start <= p <= |data| && version < 4 && ParseName(data, start, p, version, prev, n).Ok?
    ensures
      var (path, end) := ParseName(data, start, p, version, prev, n).value;
      && p + |path| <= |data| && path == data[p..p + |path|]
      && (if n < 0xFFF then |path| == n else p + |path| < |data| && 0 !in path && data[p + |path|] == 0)
      && (end - start) % 8 == 0 && p + |path| < end <= p + |path| + 8
  {
    hide Trees.Find;
    FindsIn(data, p);
  }

  /** In version 4 the name is the previous one without its last bytes, as many as a varint says,
      and then what stands up to the next NUL. */
  lemma ShortenedName(data: Bytes, start: nat, p: nat, prev: Bytes, n: nat)
    requires start <= p <= |data| && ParseName(data, start, p, 4, prev, n).Ok?
    ensures
      var (path, end) := ParseName(data, start, p, 4, prev, n).value;
      var strip := ReadVar(data, p);
      && strip.Ok? && strip.value.0 <= |prev| && strip.value.1 < end <= |data| && data[end - 1] == 0
      && 0 !in data[strip.value.1..end - 1]
      && path == prev[..|prev| - strip.value.0] + data[strip.value.1..end - 1]
      && (data[p] < 0x80 ==> strip.value == (data[p] as int, p + 1))
  {
    hide ReadVarFrom, Trees.Find;
    FindsIn(data, ReadVar(data, p).value.1);
  }

  // ------------------------------------------------------------------------ file

  /** A file starts with `DIRC`, version and count; version 4 stays, and else it is 3 or 2 as some
      entry has extended flags or none has. A digest of all that is before it ends the file. */
  lemma FileStarts(env: PackFormat.Env, idx: Index)
    requires env.Lawful() && |idx.entries| < 0x1_0000_0000
    ensures
      var data, n := Serialize(env, idx), env.algo.RawLen();
      && |data| >= 12 + n && data[..4] == [0x44, 0x49, 0x52, 0x43]
      && (idx.version == 4 ==> U32At(data, 4) == 4)
      && (idx.version != 4 ==>
            U32At(data, 4) == if exists e :: e in idx.entries && e.extendedFlags != 0 then 3 else 2)
      && U32At(data, 8) == |idx.entries| && data[|data| - n..] == env.digest(data[..|data| - n])
  {
    hide Content, Serialize, U32At, Body, Kept;
    ContentPieces(idx, Content(idx));
    ContentPiecesOuter(env, idx);
    SerializeEnds(env, idx);
    if e :| e in idx.entries && e.extendedFlags != 0 {
      var i :| 0 <= i < |idx.entries| && idx.entries[i] == e;
    }
  }

  /** What is read has that start, a digest or zeros at the end, and no `link` extension. */
  lemma ReadFiles(env: PackFormat.Env, data: Bytes)
    requires Parse(env, data).Ok?
    ensures
      var idx, n := Parse(env, data).value, env.algo.RawLen();
      && |data| >= 12 + n && data[..4] == [0x44, 0x49, 0x52, 0x43] && idx.version == U32At(data, 4)
      && 2 <= idx.version <= 4 && |idx.entries| == U32At(data, 8)
      && (data[|data| - n..] == env.digest(data[..|data| - n]) || forall i :: |data| - n <= i < |data| ==> data[i] == 0)
      && forall b :: b in Blocks(idx.extensions) ==> b.0 != [0x6C, 0x69, 0x6E, 0x6B]
  {
    hide ParseAll, Blocks, U32At;
    var n := env.algo.RawLen();
    var stored := data[|data| - n..];
    assert forall i :: |data| - n <= i < |data| ==> data[i] == stored[i - (|data| - n)];
  }

  /** An extension is four bytes of name, four of length, and as many of content; one that runs past
      the end stops the reading. */
  lemma BlockMeans(name: Bytes, content: Bytes, rest: Bytes)
    requires |name| == 4 && |content| < 0x1_0000_0000
    ensures
      var block := name + U32Bytes(|content|) + content;
      Blocks(block + rest) == [(name, block)] + Blocks(rest)
    ensures forall cut: nat :: cut < 8 + |content| ==> Blocks((name + U32Bytes(|content|) + content)[..cut]) == []
  {
    hide U32At, U32Bytes;
    var block := name + U32Bytes(|content|) + content;
    assert block[4..8] == U32Bytes(|content|);
    U32RoundTrip(block, 4, |content|);
    assert block[..4] == name;
    BlockAhead(block, rest);
    forall cut: nat | cut < 8 + |content| ensures Blocks(block[..cut]) == [] {
      if cut >= 8 {
        assert block[..cut][4..8] == U32Bytes(|content|);
        U32RoundTrip(block[..cut], 4, |content|);
      }
    }
  }
}
