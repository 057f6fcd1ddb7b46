/** What the bytes of a tree object are, and which file modes they stand for (src/object/tree.rs). */
module TreeBytes {
  import opened Base
  import opened Trees
  import IndexEntry
  import IndexTree
  import Order

  /** The spellings of a mode: `40000` or `040000`, `100644`, `100755`, `120000`, `160000`. */
  predicate Spells(text: Bytes, m: FileMode)
  {
    match m
    case Tree => text == [0x34, 0x30, 0x30, 0x30, 0x30] || text == [0x30, 0x34, 0x30, 0x30, 0x30, 0x30]
    case Regular => text == [0x31, 0x30, 0x30, 0x36, 0x34, 0x34]
    case Executable => text == [0x31, 0x30, 0x30, 0x37, 0x35, 0x35]
    case Symlink => text == [0x31, 0x32, 0x30, 0x30, 0x30, 0x30]
    case Gitlink => text == [0x31, 0x36, 0x30, 0x30, 0x30, 0x30]
  }

  /** Exactly these spellings are read. */
  lemma SpellingRead(text: Bytes, m: FileMode)
    ensures FromOctal(text) == Ok(m) <==> Spells(text, m)
  {
    assert [0x30] + Octal(FileMode.Tree) == [0x30, 0x34, 0x30, 0x30, 0x30, 0x30];
    if Spells(text, m) && text == Octal(m) { ModeRoundTrip(m); }
  }

  /** An entry is a mode, a space, a name without slash or NUL, a NUL and an id. */
  predicate Reads(idLen: nat, payload: Bytes, text: Bytes, e: TreeEntry, rest: Bytes)
  {
    && Spells(text, e.mode) && payload == text + [0x20] + e.name + [0x00] + e.id + rest
    && e.name != [] && 0x2F !in e.name && 0x00 !in e.name && |e.id| == idLen
  }

  /** What is read from a payload is exactly what stands there in that form. */
  lemma EntryExactly(idLen: nat, payload: Bytes, e: TreeEntry, rest: Bytes)
    ensures ParseEntry(idLen, payload) == Ok((e, rest)) <==> exists text :: Reads(idLen, payload, text, e, rest)
  {
    if ParseEntry(idLen, payload) == Ok((e, rest)) { var text := EntryStands(idLen, payload, e, rest); }
    if text :| Reads(idLen, payload, text, e, rest) { EntryIsRead(idLen, payload, text, e, rest); }
  }

  lemma EntryStands(idLen: nat, payload: Bytes, e: TreeEntry, rest: Bytes) returns (text: Bytes)
    requires ParseEntry(idLen, payload) == Ok((e, rest))
    ensures Reads(idLen, payload, text, e, rest)
  {
    hide Find, FromOctal, Spells;
    EntrySplit(idLen, payload, e, rest);
    var space := Find(payload, SPACE);
    text := payload[..space];
    SpellingRead(text, e.mode);
  }

  lemma EntrySplit(idLen: nat, payload: Bytes, e: TreeEntry, rest: Bytes)
    requires ParseEntry(idLen, payload) == Ok((e, rest))
    ensures payload == payload[..Find(payload, SPACE)] + [0x20] + e.name + [0x00] + e.id + rest
  {
    hide Find, FromOctal;
    var space := Find(payload, SPACE);
    var tail := payload[space + 1..];
    var nul := Find(tail, 0);
    CutAt(payload, space);
    CutAt(tail, nul);
    var after := tail[nul + 1..];
    assert after == e.id + rest;
    Regroup(payload[..space], [0x20], tail, []);
    Assemble(payload[..space], e.name, e.id, rest);
  }

  lemma CutAt(s: Bytes, n: nat)
    requires n < |s|
    ensures s == s[..n] + [s[n]] + s[n + 1..]
  {}

  lemma Assemble(text: Bytes, name: Bytes, id: Bytes, rest: Bytes)
    ensures text + [0x20] + (name + [0x00] + (id + rest)) == text + [0x20] + name + [0x00] + id + rest
  {}

  lemma EntryIsRead(idLen: nat, payload: Bytes, text: Bytes, e: TreeEntry, rest: Bytes)
    requires Reads(idLen, payload, text, e, rest)
    ensures ParseEntry(idLen, payload) == Ok((e, rest))
  {
    hide Find, FromOctal;
    SpellingRead(text, e.mode);
    assert payload == text + [0x20] + (e.name + [0] + (e.id + rest));
    Delimited(text, SPACE, e.name + [0] + (e.id + rest));
    Delimited(e.name, 0, e.id + rest);
    assert (e.id + rest)[..idLen] == e.id && (e.id + rest)[idLen..] == rest;
  }

  /** What is written for an entry, in the short spelling of its mode. */
  lemma EntryWritten(e: TreeEntry)
    ensures exists text :: Spells(text, e.mode) && text[0] != 0x30
                           && EntryBytes(e) == text + [0x20] + e.name + [0x00] + e.id
  {
    assert Spells(Octal(e.mode), e.mode);
  }

  /** A name as it is compared: a subtree's with a slash behind it. */
  function Compared(e: TreeEntry): (r: Bytes) { if e.mode == FileMode.Tree then e.name + [0x2F] else e.name }

  /** In a written tree the first byte in which two compared names differ puts them in order. */
  lemma EntryOrder(entries: seq<TreeEntry>, i: nat, j: nat)
    requires i < j < |entries|
    ensures
      var a, b := Compared(Canonical(entries)[i]), Compared(Canonical(entries)[j]);
      a == b || exists k :: 0 <= k <= |a| && k < |b| && a[..k] == b[..k] && (k == |a| || a[k] < b[k])
  {
    hide Canonical, Order.Less;
    var s := Canonical(entries);
    assert ByName()(s[i], s[j]);
    Order.LessMeans(Compared(s[i]), Compared(s[j]));
  }

  /** The mode of a staged file: its type in the bits above twelve, then three bits that do not
      matter and three octal digits, of which an odd one makes a regular file executable. */
  lemma ModeMeans(kind: nat, s: nat, a: nat, b: nat, c: nat)
    requires kind < 0x10 && s < 8 && a < 8 && b < 8 && c < 8
    ensures IndexTree.ModeOf(kind * 0x1000 + s * 512 + a * 64 + b * 8 + c) ==
      if kind == 0x4 then Ok(FileMode.Tree)
      else if kind == 0x8 && (a % 2 == 1 || b % 2 == 1 || c % 2 == 1) then Ok(Executable)
      else if kind == 0x8 then Ok(Regular)
      else if kind == 0xA then Ok(Symlink)
      else if kind == 0xE then Ok(Gitlink)
      else Err
  {
    var low := s * 512 + a * 64 + b * 8 + c;
    var mode := kind * 0x1000 + low;
    assert mode / 0x1000 == kind;
    assert mode / 8 == (kind * 512 + s * 64 + a * 8) + b;
    assert mode / 64 == (kind * 64 + s * 8) + a;
  }

  /** Bit 13 of the extended flags marks a placeholder, which no tree lists. */
  lemma PlaceholderMeans(e: IndexEntry.Entry, high: nat, low: nat)
    requires low < 0x2000
    ensures e.extendedFlags == high * 0x4000 + 0x2000 + low ==> IndexTree.IntentToAdd(e)
    ensures e.extendedFlags == high * 0x4000 + low ==> !IndexTree.IntentToAdd(e)
  {
    assert (high * 0x4000 + 0x2000 + low) / 0x2000 == high * 2 + 1 && (high * 0x4000 + low) / 0x2000 == high * 2;
  }

  /** 0100644 is a regular file and 0100755 an executable one. */
  lemma CommonModes()
    ensures IndexTree.ModeOf(33188) == Ok(Regular) && IndexTree.ModeOf(33261) == Ok(Executable)
    ensures IndexTree.ModeOf(40960) == Ok(Symlink) && IndexTree.ModeOf(57344) == Ok(Gitlink)
  {}
}
