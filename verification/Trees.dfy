/** Tree objects: entry order and the payload codec (src/object/tree.rs). */
module Trees {
  import opened Base
  import Order

  type Id = Bytes

  datatype FileMode = Tree | Regular | Executable | Symlink | Gitlink

  datatype TreeEntry = TreeEntry(mode: FileMode, name: Bytes, id: Id)

  const SPACE: byte := 0x20
  const SLASH: byte := 0x2F

  function Octal(m: FileMode): (r: Bytes)
    ensures SPACE !in r
  {
    match m
    case Tree => [0x34, 0x30, 0x30, 0x30, 0x30]
    case Regular => [0x31, 0x30, 0x30, 0x36, 0x34, 0x34]
    case Executable => [0x31, 0x30, 0x30, 0x37, 0x35, 0x35]
    case Symlink => [0x31, 0x32, 0x30, 0x30, 0x30, 0x30]
    case Gitlink => [0x31, 0x36, 0x30, 0x30, 0x30, 0x30]
  }

  /** Also accepts the old zero-padded spelling of a subtree's mode. */
  function FromOctal(s: Bytes): (r: Result<FileMode>)
    ensures r.Ok? ==> s == Octal(r.value) || (r.value.Tree? && s == [0x30] + Octal(Tree))
  {
    if s == Octal(Tree) || s == [0x30] + Octal(Tree) then Ok(Tree)
    else if s == Octal(Regular) then Ok(Regular)
    else if s == Octal(Executable) then Ok(Executable)
    else if s == Octal(Symlink) then Ok(Symlink)
    else if s == Octal(Gitlink) then Ok(Gitlink)
    else Err
  }

  lemma ModeRoundTrip(m: FileMode)
    ensures FromOctal(Octal(m)) == Ok(m)
  {
    assert Octal(Tree)[0] == 0x34 && Octal(m) != [] && Octal(m)[0] != 0x30;
    assert m != Tree ==> Octal(m)[0] == 0x31 && |Octal(m)| == 6;
    match m
    case Tree =>
    case Regular => assert Octal(m)[3] == 0x36;
    case Executable => assert Octal(m)[3] == 0x37 && Octal(Regular)[3] == 0x36;
    case Symlink => assert Octal(m)[1] == 0x32 && Octal(Regular)[1] == 0x30 && Octal(Executable)[1] == 0x30;
    case Gitlink =>
      assert Octal(m)[1] == 0x36 && Octal(Regular)[1] == 0x30;
      assert Octal(Executable)[1] == 0x30 && Octal(Symlink)[1] == 0x32;
  }

  // -------------------------------------------------------------------- order

  /** A subtree sorts as though its name ended in a slash. */
  function EffectiveName(e: TreeEntry): (r: Bytes)
  { if e.mode.Tree? then e.name + [SLASH] else e.name }

  function ByName(): (TreeEntry, TreeEntry) -> bool
  { (a: TreeEntry, b: TreeEntry) => Order.AtMost(EffectiveName(a), EffectiveName(b)) }

  lemma ByNameTotal()
    ensures Order.TotalOrder(ByName())
  {
    forall a: TreeEntry, b: TreeEntry ensures ByName()(a, b) || ByName()(b, a) {
      Order.LessTotal(EffectiveName(a), EffectiveName(b));
    }
    forall a: TreeEntry, b: TreeEntry, c: TreeEntry | ByName()(a, b) && ByName()(b, c) ensures ByName()(a, c) {
      var x, y, z := EffectiveName(a), EffectiveName(b), EffectiveName(c);
      if Order.Less(x, y) && Order.Less(y, z) { Order.LessTransitive(x, y, z); }
    }
  }

  function Canonical(entries: seq<TreeEntry>): (r: seq<TreeEntry>)
    ensures Order.Sorted(ByName(), r) && multiset(r) == multiset(entries) && |r| == |entries|
    ensures forall e :: e in r <==> e in entries
  {
    ByNameTotal();
    Order.Sort(ByName(), entries)
  }

  predicate StrictlyNamed(entries: seq<TreeEntry>)
  {
    forall i, j :: 0 <= i < j < |entries| ==> Order.Less(EffectiveName(entries[i]), EffectiveName(entries[j]))
  }

  lemma CanonicalAlready(entries: seq<TreeEntry>)
    requires StrictlyNamed(entries)
    ensures Canonical(entries) == entries
  {
    ByNameTotal();
    Order.SortSorted(ByName(), entries);
  }

  // -------------------------------------------------------------------- codec

  /** The index of the first `b`, or the length. */
  function Find(s: Bytes, b: byte): (r: nat)
    ensures r <= |s| && b !in s[..r] && (r < |s| ==> s[r] == b)
    ensures r == |s| ==> b !in s
  {
    if s == [] || s[0] == b then 0
    else
      var t := Find(s[1..], b);
      assert s[..t + 1] == [s[0]] + s[1..][..t];
      assert s == [s[0]] + s[1..];
      t + 1
  }

  lemma {:induction false} FindAfter(a: Bytes, b: byte, rest: Bytes)
    requires b !in a
    ensures Find(a + [b] + rest, b) == |a|
  {
    if a != [] {
      assert (a + [b] + rest)[1..] == a[1..] + [b] + rest;
      FindAfter(a[1..], b, rest);
    }
  }

  function EntryBytes(e: TreeEntry): (r: Bytes)
  { Octal(e.mode) + [SPACE] + e.name + [0] + e.id }

  function Encode(entries: seq<TreeEntry>): (r: Bytes)
  { if entries == [] then [] else EntryBytes(entries[0]) + Encode(entries[1..]) }

  function Serialize(entries: seq<TreeEntry>): (r: Bytes) { Encode(Canonical(entries)) }

  /** One entry at the head of a payload, and what follows it. */
  function ParseEntry(idLen: nat, payload: Bytes): (r: Result<(TreeEntry, Bytes)>)
    ensures r.Ok? ==> |r.value.1| < |payload|
  {
    var space := Find(payload, SPACE);
    if space == |payload| then Err
    else
      var mode :- FromOctal(payload[..space]);
      var rest := payload[space + 1..];
      var nul := Find(rest, 0);
      if nul == |rest| then Err
      else
        var name, after := rest[..nul], rest[nul + 1..];
        if name == [] || SLASH in name || 0 in name || |after| < idLen then Err
        else Ok((TreeEntry(mode, name, after[..idLen]), after[idLen..]))
  }

  function Parse(idLen: nat, payload: Bytes): (r: Result<seq<TreeEntry>>)
    decreases |payload|
  {
    if payload == [] then Ok([])
    else
      var first :- ParseEntry(idLen, payload);
      var rest :- Parse(idLen, first.1);
      Ok([first.0] + rest)
  }

  predicate GoodEntry(idLen: nat, e: TreeEntry) { e.name != [] && SLASH !in e.name && 0 !in e.name && |e.id| == idLen }

  predicate Good(idLen: nat, entries: seq<TreeEntry>)
  {
    forall i :: 0 <= i < |entries| ==> GoodEntry(idLen, entries[i])
  }

  lemma EntryRoundTrip(idLen: nat, e: TreeEntry, rest: Bytes)
    requires GoodEntry(idLen, e)
    ensures ParseEntry(idLen, EntryBytes(e) + rest) == Ok((e, rest))
  {
    hide Octal, FromOctal, Find, EntryBytes;
    var tail := e.name + [0] + (e.id + rest);
    EntryTail(e, rest);
    Delimited(Octal(e.mode), SPACE, tail);
    ModeRoundTrip(e.mode);
    Delimited(e.name, 0, e.id + rest);
    assert (e.id + rest)[..idLen] == e.id && (e.id + rest)[idLen..] == rest;
  }

  lemma EntryTail(e: TreeEntry, rest: Bytes)
    ensures EntryBytes(e) + rest == Octal(e.mode) + [SPACE] + (e.name + [0] + (e.id + rest))
  {}

  lemma Delimited(a: Bytes, b: byte, rest: Bytes)
    requires b !in a
    ensures
      var s := a + [b] + rest;
      Find(s, b) == |a| < |s| && s[..|a|] == a && s[|a| + 1..] == rest
  {
    hide Find;
    FindAfter(a, b, rest);
  }

  lemma {:induction false} EncodeRoundTrip(idLen: nat, entries: seq<TreeEntry>)
    requires Good(idLen, entries)
    ensures Parse(idLen, Encode(entries)) == Ok(entries)
  {
    hide ParseEntry, EntryBytes;
    if entries != [] {
      EntryRoundTrip(idLen, entries[0], Encode(entries[1..]));
      EncodeRoundTrip(idLen, entries[1..]);
      assert EntryBytes(entries[0]) != [] by { NonEmpty(entries[0]); }
      assert entries == [entries[0]] + entries[1..];
    }
  }

  lemma NonEmpty(e: TreeEntry)
    ensures EntryBytes(e) != []
  {}

  /** Reading back a written tree gives its entries in git's order. */
  lemma TreeRoundTrip(idLen: nat, entries: seq<TreeEntry>)
    requires Good(idLen, entries)
    ensures Parse(idLen, Serialize(entries)) == Ok(Canonical(entries))
  {
    hide Canonical;
    var sorted := Canonical(entries);
    forall i | 0 <= i < |sorted| ensures GoodEntry(idLen, sorted[i]) {
      assert sorted[i] in entries;
    }
    EncodeRoundTrip(idLen, sorted);
  }

  /** Entries with different names serialize alike in whatever order they were pushed. */
  lemma SerializeIgnoresOrder(a: seq<TreeEntry>, b: seq<TreeEntry>)
    requires multiset(a) == multiset(b)
    requires forall x, y :: x in a && y in a && EffectiveName(x) == EffectiveName(y) ==> x == y
    ensures Serialize(a) == Serialize(b)
  {
    hide EffectiveName, Order.Less;
    ByNameTotal();
    var s, t := Canonical(a), Canonical(b);
    forall x, y | x in s && y in s && ByName()(x, y) && ByName()(y, x) ensures x == y {
      Order.LessTotal(EffectiveName(x), EffectiveName(y));
    }
    Order.SortedUnique(ByName(), s, t);
  }

  method SerializeTree(entries: seq<TreeEntry>) returns (out: Bytes)
    ensures out == Serialize(entries)
  {
    hide Canonical, EntryBytes, Encode;
    var sorted := Canonical(entries);
    out := [];
    assert sorted[0..] == sorted;
    for i := 0 to |sorted|
      invariant out + Encode(sorted[i..]) == Encode(sorted)
    {
      EncodeStep(sorted, i);
      out := out + EntryBytes(sorted[i]);
    }
    assert sorted[|sorted|..] == [];
    EncodeNothing();
  }

  lemma EncodeNothing()
    ensures Encode([]) == []
  {}

  lemma EncodeStep(entries: seq<TreeEntry>, i: nat)
    requires i < |entries|
    ensures Encode(entries[i..]) == EntryBytes(entries[i]) + Encode(entries[i + 1..])
  {
    assert entries[i..][1..] == entries[i + 1..];
  }

  /** What a parse gives once `entries` have been read. */
  function Onto(entries: seq<TreeEntry>, r: Result<seq<TreeEntry>>): Result<seq<TreeEntry>>
  { if r.Err? then Err else Ok(entries + r.value) }

  lemma OntoStep(idLen: nat, entries: seq<TreeEntry>, payload: Bytes)
    ensures Onto([], Parse(idLen, payload)) == Parse(idLen, payload)
    ensures payload == [] ==> Onto(entries, Parse(idLen, payload)) == Ok(entries)
    ensures payload != [] ==> var first := ParseEntry(idLen, payload);
      Onto(entries, Parse(idLen, payload)) ==
        if first.Err? then Err else Onto(entries + [first.value.0], Parse(idLen, first.value.1))
  {
    hide ParseEntry;
    var r := Parse(idLen, payload);
    if r.Ok? { assert [] + r.value == r.value; }
    assert entries + [] == entries;
    if payload != [] && ParseEntry(idLen, payload).Ok? {
      var first := ParseEntry(idLen, payload).value;
      var rest := Parse(idLen, first.1);
      if rest.Ok? { assert entries + ([first.0] + rest.value) == entries + [first.0] + rest.value; }
    }
  }

  method ParseTree(idLen: nat, data: Bytes) returns (r: Result<seq<TreeEntry>>)
    ensures r == Parse(idLen, data)
  {
    hide ParseEntry, Parse, Onto;
    var payload, entries: seq<TreeEntry> := data, [];
    OntoStep(idLen, [], data);
    while payload != []
      invariant Parse(idLen, data) == Onto(entries, Parse(idLen, payload))
      decreases |payload|
    {
      OntoStep(idLen, entries, payload);
      var first := ParseEntry(idLen, payload);
      if first.Err? { return Err; }
      entries, payload := entries + [first.value.0], first.value.1;
    }
    OntoStep(idLen, entries, payload);
    return Ok(entries);
  }
}
