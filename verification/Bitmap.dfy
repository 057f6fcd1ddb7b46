/** Reachability bitmaps and the reverse index of a pack (src/pack/bitmap.rs). */
module Bitmap {
  import opened Base
  import opened Tables
  import opened Ewah
  import opened Graph
  import opened Walk
  import Order
  import PackFormat

  /** One index row: an object's pack offset and id. */
  datatype Row = Row(offset: nat, id: Id)

  const SIGNATURE: Bytes := [0x42, 0x49, 0x54, 0x4D]

  ghost predicate ValidRows(rows: seq<Row>)
  {
    && |rows| < TWO_32
    && (forall i, j :: 0 <= i < j < |rows| ==> rows[i].offset != rows[j].offset && rows[i].id != rows[j].id)
  }

  // ------------------------------------------------------------------ pack order

  function Key(rows: seq<Row>, i: nat): (r: nat) { if i < |rows| then rows[i].offset else 0 }

  function ByOffset(rows: seq<Row>): (nat, nat) -> bool { (a: nat, b: nat) => Key(rows, a) <= Key(rows, b) }

  function Numbers(n: nat): (r: seq<nat>)
    ensures |r| == n && forall i :: 0 <= i < n ==> r[i] == i
  { seq(n, i => i) }

  /** Index rows in the order their objects lie in the pack. */
  function PackOrder(rows: seq<Row>): (r: seq<nat>)
    ensures |r| == |rows| && multiset(r) == multiset(Numbers(|rows|)) && Order.Sorted(ByOffset(rows), r)
  {
    assert Order.TotalOrder(ByOffset(rows));
    Order.Sort(ByOffset(rows), Numbers(|rows|))
  }

  /** Pack order is a permutation of the rows, by increasing offset. */
  lemma PackOrderPermutes(rows: seq<Row>)
    requires ValidRows(rows)
    ensures
      var order := PackOrder(rows);
      && Order.Distinct(order)
      && (forall k :: 0 <= k < |order| ==> order[k] < |rows|)
      && (forall row: nat :: row < |rows| ==> row in order)
      && (forall i, j :: 0 <= i < j < |order| ==> rows[order[i]].offset < rows[order[j]].offset)
  {
    hide PackOrder;
    var order, numbers := PackOrder(rows), Numbers(|rows|);
    Order.SameElements(numbers, order);
    forall k | 0 <= k < |order| ensures order[k] < |rows| {
      assert order[k] in numbers;
    }
    forall row: nat | row < |rows| ensures row in order {
      assert numbers[row] in numbers;
    }
    Order.PermutedDistinct(numbers, order);
    forall i, j | 0 <= i < j < |order| ensures rows[order[i]].offset < rows[order[j]].offset {
      assert ByOffset(rows)(order[i], order[j]);
    }
  }

  /** The object at a pack position. */
  function IdAt(rows: seq<Row>, order: seq<nat>, p: nat): (r: Id)
    requires p < |order| && order[p] < |rows|
  { rows[order[p]].id }

  // --------------------------------------------------------------- reverse index

  function ReverseBody(algo: PackFormat.HashAlgo, order: seq<nat>, packHash: Bytes): (r: Bytes)
  {
    [0x52, 0x49, 0x44, 0x58] + U32Bytes(1) + U32Bytes(if algo.Sha1? then 1 else 2) + Concat(WordParts(order)) + packHash
  }

  method WriteReverseIndex(env: PackFormat.Env, rows: seq<Row>, packHash: Bytes) returns (out: Bytes)
    ensures out ==
      ReverseBody(env.algo, PackOrder(rows), packHash) + env.digest(ReverseBody(env.algo, PackOrder(rows), packHash))
  {
    hide PackOrder, U32Bytes;
    var order := PackOrder(rows);
    out := [0x52, 0x49, 0x44, 0x58] + U32Bytes(1) + U32Bytes(if env.algo.Sha1? then 1 else 2);
    ghost var head, parts := out, WordParts(order);
    for i := 0 to |order|
      invariant out == head + Concat(parts[..i])
    {
      assert parts[..i + 1] == parts[..i] + [parts[i]];
      ConcatSnoc(parts[..i], parts[i]);
      out := out + U32Bytes(order[i]);
    }
    assert parts[..|order|] == parts;
    out := out + packHash;
    out := out + env.digest(out);
  }

  /** Word `k` of the file is the index row of the object at pack position `k`. */
  lemma ReverseReads(algo: PackFormat.HashAlgo, rows: seq<Row>, packHash: Bytes, rest: Bytes, k: nat)
    requires ValidRows(rows) && k < |rows|
    ensures
      var data := ReverseBody(algo, PackOrder(rows), packHash) + rest;
      12 + k * 4 + 4 <= |data| && U32At(data, 12 + k * 4) == PackOrder(rows)[k]
  {
    hide PackOrder, U32Bytes, U32At, Concat;
    PackOrderPermutes(rows);
    var order := PackOrder(rows);
    var head := [0x52, 0x49, 0x44, 0x58] + U32Bytes(1) + U32Bytes(if algo.Sha1? then 1 else 2);
    var table := Concat(WordParts(order));
    var data := ReverseBody(algo, order, packHash) + rest;
    assert data == head + table + (packHash + rest);
    assert data[12..12 + |table|] == table;
    RowAt(data, 12, WordParts(order), 4, k);
    U32RoundTrip(data, 12 + k * 4, order[k]);
  }

  // ------------------------------------------------------------------ file format

  /** The contents of a bitmap file: four type bitmaps, then a bitmap per commit row. */
  datatype Plan = Plan(types: seq<Ewah>, entries: seq<(nat, Ewah)>)

  predicate PlanFits(plan: Plan)
  {
    && |plan.types| == 4 && (forall t :: 0 <= t < 4 ==> Storable(plan.types[t]))
    && |plan.entries| < TWO_32
    && (forall k :: 0 <= k < |plan.entries| ==> plan.entries[k].0 < TWO_32 && Storable(plan.entries[k].1))
  }

  function TypeParts(types: seq<Ewah>): (r: seq<Bytes>)
    ensures |r| == |types| && forall i :: 0 <= i < |types| ==> r[i] == ToBytes(types[i])
  { seq(|types|, i requires 0 <= i < |types| => ToBytes(types[i])) }

  function EntryBytes(row: nat, e: Ewah): (r: Bytes) { U32Bytes(row) + [0, 0] + ToBytes(e) }

  function EntryParts(entries: seq<(nat, Ewah)>): (r: seq<Bytes>)
    ensures |r| == |entries| && forall i :: 0 <= i < |entries| ==> r[i] == EntryBytes(entries[i].0, entries[i].1)
  { seq(|entries|, i requires 0 <= i < |entries| => EntryBytes(entries[i].0, entries[i].1)) }

  function Body(packHash: Bytes, count: nat, plan: Plan): (r: Bytes)
  {
    SIGNATURE + U16Bytes(1) + U16Bytes(1) + U32Bytes(count) + packHash
    + Concat(TypeParts(plan.types)) + Concat(EntryParts(plan.entries))
  }

  function File(env: PackFormat.Env, packHash: Bytes, count: nat, plan: Plan): (r: Bytes)
  {
    Body(packHash, count, plan) + env.digest(Body(packHash, count, plan))
  }

  // ------------------------------------------------------- reading the format back

  function ReadTypes(data: Bytes, pos: nat, n: nat): (r: Result<(seq<Ewah>, nat)>)
    requires pos <= |data|
    ensures r.Ok? ==> pos <= r.value.1 <= |data|
    decreases n
  {
    if n == 0 then Ok(([], pos))
    else
      var e :- FromBytesAt(data, pos);
      var rest :- ReadTypes(data, e.1, n - 1);
      Ok(([e.0] + rest.0, rest.1))
  }

  /** Entries of standalone bitmaps: row, zero xor offset, flags, bitmap. */
  function ReadEntries(data: Bytes, pos: nat, n: nat): (r: Result<(seq<(nat, Ewah)>, nat)>)
    requires pos <= |data|
    ensures r.Ok? ==> pos <= r.value.1 <= |data| && |r.value.0| == n
    decreases n
  {
    if n == 0 then Ok(([], pos))
    else if pos + 6 > |data| || data[pos + 4] != 0 then Err
    else
      var e :- FromBytesAt(data, pos + 6);
      var rest :- ReadEntries(data, e.1, n - 1);
      Ok(([(U32At(data, pos), e.0)] + rest.0, rest.1))
  }

  function Read(env: PackFormat.Env, data: Bytes): (r: Result<Plan>)
  {
    var h := env.algo.RawLen();
    if |data| < 12 + 2 * h || data[..4] != SIGNATURE || U16At(data, 4) != 1 then Err
    else
      var types :- ReadTypes(data, 12 + h, 4);
      var entries :- ReadEntries(data, types.1, U32At(data, 8));
      if |data| != entries.1 + h || env.digest(data[..entries.1]) != data[entries.1..] then Err
      else Ok(Plan(types.0, entries.0))
  }

  lemma {:induction false} TypesRead(data: Bytes, base: nat, types: seq<Ewah>, i: nat)
    requires i <= |types| && At(data, base, Concat(TypeParts(types)))
    requires forall k :: 0 <= k < |types| ==> Storable(types[k])
    ensures base + |Concat(TypeParts(types)[..i])| <= |data|
    ensures ReadTypes(data, base + |Concat(TypeParts(types)[..i])|, |types| - i) ==
            Ok((types[i..], base + |Concat(TypeParts(types))|))
    decreases |types| - i
  {
    hide Concat, ToBytes, Storable, FromBytesAt;
    var parts := TypeParts(types);
    assert parts[..|types|] == parts;
    if i < |types| {
      PartAt(data, base, parts, i);
      BytesRoundTrip(data, base + |Concat(parts[..i])|, types[i]);
      assert parts[..i + 1] == parts[..i] + [parts[i]];
      ConcatSnoc(parts[..i], parts[i]);
      TypesRead(data, base, types, i + 1);
      assert types[i..] == [types[i]] + types[i + 1..];
    } else {
      assert types[i..] == [];
    }
  }

  lemma EntryReads(data: Bytes, pos: nat, row: nat, e: Ewah)
    requires row < TWO_32 && Storable(e) && pos <= |data| && At(data, pos, EntryBytes(row, e))
    ensures pos + 6 <= |data| && U32At(data, pos) == row && data[pos + 4] == 0
    ensures FromBytesAt(data, pos + 6) == Ok((e, pos + |EntryBytes(row, e)|))
  {
    hide ToBytes, Storable, FromBytesAt, U32At, U32Bytes;
    AtSplit(data, pos, U32Bytes(row) + [0, 0], ToBytes(e));
    AtSplit(data, pos, U32Bytes(row), [0, 0]);
    U32RoundTrip(data, pos, row);
    var z := data[pos + 4..pos + 6];
    assert data[pos + 4] == z[0];
    BytesRoundTrip(data, pos + 6, e);
  }

  lemma {:induction false} EntriesRead(data: Bytes, base: nat, entries: seq<(nat, Ewah)>, i: nat)
    requires i <= |entries| && At(data, base, Concat(EntryParts(entries)))
    requires forall k :: 0 <= k < |entries| ==> entries[k].0 < TWO_32 && Storable(entries[k].1)
    ensures base + |Concat(EntryParts(entries)[..i])| <= |data|
    ensures ReadEntries(data, base + |Concat(EntryParts(entries)[..i])|, |entries| - i) ==
            Ok((entries[i..], base + |Concat(EntryParts(entries))|))
    decreases |entries| - i
  {
    hide Concat, EntryBytes, Storable, FromBytesAt, U32At;
    var parts := EntryParts(entries);
    assert parts[..|entries|] == parts;
    if i < |entries| {
      PartAt(data, base, parts, i);
      EntryReads(data, base + |Concat(parts[..i])|, entries[i].0, entries[i].1);
      assert parts[..i + 1] == parts[..i] + [parts[i]];
      ConcatSnoc(parts[..i], parts[i]);
      EntriesRead(data, base, entries, i + 1);
      assert entries[i..] == [entries[i]] + entries[i + 1..];
    } else {
      assert entries[i..] == [];
    }
  }

  lemma BodyPieces(packHash: Bytes, count: nat, plan: Plan, data: Bytes)
    requires At(data, 0, Body(packHash, count, plan)) && count < TWO_32
    ensures |data| >= 12 && data[..4] == SIGNATURE && U16At(data, 4) == 1 && U32At(data, 8) == count
    ensures At(data, 12 + |packHash|, Concat(TypeParts(plan.types)))
    ensures At(data, 12 + |packHash| + |Concat(TypeParts(plan.types))|, Concat(EntryParts(plan.entries)))
    ensures |Body(packHash, count, plan)| ==
      12 + |packHash| + |Concat(TypeParts(plan.types))| + |Concat(EntryParts(plan.entries))|
  {
    hide Concat, TypeParts, EntryParts, U16Bytes, U32Bytes, U16At, U32At;
    var a, b, c, d := SIGNATURE, U16Bytes(1), U16Bytes(1), U32Bytes(count);
    var e, f := Concat(TypeParts(plan.types)), Concat(EntryParts(plan.entries));
    AtSplit(data, 0, a + b + c + d + packHash + e, f);
    AtSplit(data, 0, a + b + c + d + packHash, e);
    AtSplit(data, 0, a + b + c + d, packHash);
    AtSplit(data, 0, a + b + c, d);
    AtSplit(data, 0, a + b, c);
    AtSplit(data, 0, a, b);
    U16RoundTrip(data, 4, 1);
    U32RoundTrip(data, 8, count);
  }

  /** A bitmap file whose header counts its entries reads back to the same bitmaps. */
  lemma FileReads(env: PackFormat.Env, packHash: Bytes, plan: Plan)
    requires env.Lawful() && |packHash| == env.algo.RawLen() && PlanFits(plan)
    ensures Read(env, File(env, packHash, |plan.entries|, plan)) == Ok(plan)
  {
    hide Body, Concat, TypeParts, EntryParts, ReadTypes, ReadEntries, U16At, U32At, Storable;
    var body := Body(packHash, |plan.entries|, plan);
    var data := File(env, packHash, |plan.entries|, plan);
    assert data[..|body|] == body && data[|body|..] == env.digest(body);
    BodyPieces(packHash, |plan.entries|, plan, data);
    NoParts();
    var base := 12 + |packHash|;
    TypesRead(data, base, plan.types, 0);
    assert TypeParts(plan.types)[..0] == [] && plan.types[0..] == plan.types;
    EntriesRead(data, base + |Concat(TypeParts(plan.types))|, plan.entries, 0);
    assert EntryParts(plan.entries)[..0] == [] && plan.entries[0..] == plan.entries;
  }

  // --------------------------------------------------------------- the writer

  ghost predicate Marks(e: Ewah, p: nat) { IsSet(DecodeFrom(e.words, 0), p) && p < e.bitSize }

  /** A bitmap over `set`, sized one past its last member. */
  method TypeBitmap(members: seq<nat>) returns (e: Ewah)
    requires Increasing(members) && forall p :: p in members ==> p + 1 < TWO_32
    ensures Storable(e) && forall p: nat :: Marks(e, p) <==> p in members
  {
    hide DecodeFrom, IsSet, Storable, CompressWords;
    var bitSize: nat := if members == [] then 0 else members[|members| - 1] + 1;
    assert members != [] ==> members[|members| - 1] in members;
    e := FromSetBits(members, bitSize);
    CompressedIsStorable(e, DecodeFrom(e.words, 0));
    forall p | p in members ensures p < bitSize {
      var k :| 0 <= k < |members| && members[k] == p;
    }
  }

  /** The type an object is stored under; it need not parse. */
  function KindOf(n: Node): (r: nat)
    ensures r < 4
  {
    match n
    case Commit(_, _, _) => 0 case BadCommit => 0
    case Tree(_) => 1 case BadTree => 1
    case Blob => 2
    case Tag(_) => 3 case BadTag => 3
  }

  predicate AllStored(store: Store, rows: seq<Row>) { forall i :: 0 <= i < |rows| ==> rows[i].id in store }

  ghost predicate InPack(rows: seq<Row>, id: Id) { exists i :: 0 <= i < |rows| && rows[i].id == id }

  ghost function RowOf(rows: seq<Row>, id: Id): (r: nat)
    requires InPack(rows, id)
    ensures r < |rows| && rows[r].id == id
  {
    var i :| 0 <= i < |rows| && rows[i].id == id;
    i
  }

  lemma RowOfIs(rows: seq<Row>, id: Id, row: nat)
    requires ValidRows(rows) && row < |rows| && rows[row].id == id
    ensures InPack(rows, id) && RowOf(rows, id) == row
  {
    assert InPack(rows, id);
  }

  /** The rows of the selected commits that are in the pack. */
  ghost function Selected(rows: seq<Row>, commits: seq<Id>): (r: seq<nat>)
    ensures |r| <= |commits| && forall k :: 0 <= k < |r| ==> r[k] < |rows| && rows[r[k]].id in commits
    ensures |r| == |commits| <==> forall k :: 0 <= k < |commits| ==> InPack(rows, commits[k])
  {
    if commits == [] then []
    else
      var n := |commits| - 1;
      var init := Selected(rows, commits[..n]);
      assert forall k :: 0 <= k < n ==> commits[..n][k] == commits[k];
      if InPack(rows, commits[n]) then init + [RowOf(rows, commits[n])] else init
  }

  function RowOrder(): (nat, nat) -> bool { (a: nat, b: nat) => a <= b }

  /** The row that holds `id`, for every id of the pack. */
  method RowMap(rows: seq<Row>) returns (m: map<Id, nat>)
    requires ValidRows(rows)
    ensures forall id :: id in m <==> InPack(rows, id)
    ensures forall i :: 0 <= i < |rows| ==> rows[i].id in m && m[rows[i].id] == i
    ensures forall id :: id in m ==> m[id] < |rows| && rows[m[id]].id == id
  {
    m := map[];
    for i := 0 to |rows|
      invariant forall k :: 0 <= k < i ==> rows[k].id in m && m[rows[k].id] == k
      invariant forall id :: id in m ==> m[id] < i && rows[m[id]].id == id
    {
      m := m[rows[i].id := i];
    }
  }

  /** The pack position of every id of the pack. */
  method Positions(rows: seq<Row>, order: seq<nat>) returns (m: map<Id, nat>)
    requires ValidRows(rows) && order == PackOrder(rows)
    ensures |order| == |rows| && forall p :: 0 <= p < |order| ==>
      order[p] < |rows| && IdAt(rows, order, p) in m && m[IdAt(rows, order, p)] == p
    ensures forall id :: id in m ==> m[id] < |order| && order[m[id]] < |rows| && IdAt(rows, order, m[id]) == id
  {
    hide PackOrder;
    PackOrderPermutes(rows);
    m := map[];
    for p := 0 to |order|
      invariant forall k :: 0 <= k < p ==> IdAt(rows, order, k) in m && m[IdAt(rows, order, k)] == k
      invariant forall id :: id in m ==> m[id] < p && IdAt(rows, order, m[id]) == id
    {
      m := m[IdAt(rows, order, p) := p];
    }
  }

  /** `bits` are the positions whose object is in `ids`. */
  ghost predicate PositionsOf(rows: seq<Row>, order: seq<nat>, ids: set<Id>, bits: seq<nat>)
    requires forall p :: 0 <= p < |order| ==> order[p] < |rows|
  {
    Increasing(bits) && forall p: nat :: p in bits <==> p < |order| && IdAt(rows, order, p) in ids
  }

  /** Positions of the reached objects, sorted. */
  method ReachedPositions(rows: seq<Row>, order: seq<nat>, position: map<Id, nat>, ids: set<Id>)
    returns (bits: seq<nat>)
    requires forall p :: 0 <= p < |order| ==>
      order[p] < |rows| && IdAt(rows, order, p) in position && position[IdAt(rows, order, p)] == p
    requires forall id :: id in position ==> position[id] < |order| && IdAt(rows, order, position[id]) == id
    ensures PositionsOf(rows, order, ids, bits)
  {
    var found: seq<nat> := [];
    var rest := ids;
    while rest != {}
      invariant rest <= ids && Order.Distinct(found)
      invariant forall p: nat :: p in found <==>
        p < |order| && IdAt(rows, order, p) in ids && IdAt(rows, order, p) !in rest
      decreases |rest|
    {
      var id :| id in rest;
      if id in position { found := found + [position[id]]; }
      rest := rest - {id};
    }
    assert Order.TotalOrder(RowOrder());
    bits := Order.Sort(RowOrder(), found);
    Order.PermutedDistinct(found, bits);
    assert forall i, j :: 0 <= i < j < |bits| ==> RowOrder()(bits[i], bits[j]);
  }

  predicate HasKind(store: Store, id: Id, t: int) { id in store && KindOf(store[id]) == t }

  /** Type bitmap `t` marks exactly the positions of objects of type `t`. */
  ghost predicate TypesSplit(store: Store, rows: seq<Row>, order: seq<nat>, types: seq<Ewah>)
    requires forall p :: 0 <= p < |order| ==> order[p] < |rows|
  {
    |types| == 4 && forall t, p: nat :: 0 <= t < 4 ==>
      (Marks(types[t], p) <==> p < |order| && HasKind(store, IdAt(rows, order, p), t))
  }

  /** Every position is marked in exactly one of the four type bitmaps. */
  lemma TypesPartition(store: Store, rows: seq<Row>, order: seq<nat>, types: seq<Ewah>, p: nat)
    requires AllStored(store, rows) && forall k :: 0 <= k < |order| ==> order[k] < |rows|
    requires TypesSplit(store, rows, order, types) && p < |order|
    ensures exists t :: 0 <= t < 4 && Marks(types[t], p) && forall u :: 0 <= u < 4 && u != t ==> !Marks(types[u], p)
  {
    hide Marks;
    var t := KindOf(store[IdAt(rows, order, p)]);
    assert HasKind(store, IdAt(rows, order, p), t);
    assert Marks(types[t], p);
  }

  /** An entry's bitmap marks exactly the positions of what its commit reaches. */
  ghost predicate EntryReaches(store: Store, rows: seq<Row>, order: seq<nat>, entry: (nat, Ewah))
    requires forall p :: 0 <= p < |order| ==> order[p] < |rows|
  {
    && entry.0 < |rows|
    && forall p: nat :: Marks(entry.1, p) <==>
         p < |order| && Reach(Refs(store), {rows[entry.0].id}, {}, IdAt(rows, order, p))
  }

  ghost predicate SoundFrom(store: Store, id: Id)
  {
    forall x :: Reach(Refs(store), {id}, {}, x) ==> !Corrupt(store, x)
  }

  function EntryRows(entries: seq<(nat, Ewah)>): (r: seq<nat>)
    ensures |r| == |entries| && forall k :: 0 <= k < |r| ==> r[k] == entries[k].0
  { seq(|entries|, k requires 0 <= k < |entries| => entries[k].0) }

  /** `bits` are the first `n` positions whose object has type `t`. */
  ghost predicate KindPositions(store: Store, rows: seq<Row>, order: seq<nat>, n: nat, t: int, bits: seq<nat>)
    requires n <= |order| && forall p :: 0 <= p < |order| ==> order[p] < |rows|
  {
    Increasing(bits) && forall p: nat :: p in bits <==> p < n && HasKind(store, IdAt(rows, order, p), t)
  }

  /** One positions list per type, in pack order. */
  method TypePositions(store: Store, rows: seq<Row>, order: seq<nat>) returns (r: Result<seq<seq<nat>>>)
    requires |order| == |rows| && forall p :: 0 <= p < |order| ==> order[p] < |rows|
    requires forall row: nat :: row < |rows| ==> row in order
    ensures r.Ok? <==> AllStored(store, rows)
    ensures r.Ok? ==> |r.value| == 4 && forall t :: 0 <= t < 4 ==>
      KindPositions(store, rows, order, |order|, t, r.value[t])
  {
    var sets: seq<seq<nat>> := [[], [], [], []];
    for p := 0 to |order|
      invariant |sets| == 4 && forall t :: 0 <= t < 4 ==> KindPositions(store, rows, order, p, t, sets[t])
      invariant forall k :: 0 <= k < p ==> IdAt(rows, order, k) in store
    {
      var id := IdAt(rows, order, p);
      if id !in store { return Err; }
      var t := KindOf(store[id]);
      assert forall k :: 0 <= k < |sets[t]| ==> sets[t][k] in sets[t];
      ghost var before := sets;
      sets := sets[t := sets[t] + [p]];
      forall u | 0 <= u < 4 ensures KindPositions(store, rows, order, p + 1, u, sets[u]) {
        assert KindPositions(store, rows, order, p, u, before[u]);
        assert u != t ==> sets[u] == before[u];
      }
    }
    forall i | 0 <= i < |rows| ensures rows[i].id in store {
      assert i in order;
      var k :| 0 <= k < |order| && order[k] == i;
      assert IdAt(rows, order, k) in store;
    }
    return Ok(sets);
  }

  method TypeBitmaps(store: Store, rows: seq<Row>, order: seq<nat>, sets: seq<seq<nat>>) returns (types: seq<Ewah>)
    requires |order| < TWO_32 && forall p :: 0 <= p < |order| ==> order[p] < |rows|
    requires |sets| == 4 && forall t :: 0 <= t < 4 ==> KindPositions(store, rows, order, |order|, t, sets[t])
    ensures |types| == 4 && TypesSplit(store, rows, order, types) && forall t :: 0 <= t < 4 ==> Storable(types[t])
  {
    hide Storable, Marks, HasKind;
    types := [];
    for t := 0 to 4
      invariant |types| == t && forall u :: 0 <= u < t ==> Storable(types[u])
      invariant forall u, p: nat :: 0 <= u < t ==> (Marks(types[u], p) <==> p in sets[u])
    {
      assert KindPositions(store, rows, order, |order|, t, sets[t]);
      var e := TypeBitmap(sets[t]);
      types := types + [e];
    }
    forall t, p: nat | 0 <= t < 4
      ensures Marks(types[t], p) <==> p < |order| && HasKind(store, IdAt(rows, order, p), t)
    {
      assert KindPositions(store, rows, order, |order|, t, sets[t]);
    }
  }

  /** The rows of the selected commits, through the id-to-row map. */
  method SelectRows(rows: seq<Row>, rowOf: map<Id, nat>, commits: seq<Id>) returns (r: seq<nat>)
    requires ValidRows(rows)
    requires forall id :: id in rowOf <==> InPack(rows, id)
    requires forall id :: id in rowOf ==> rowOf[id] < |rows| && rows[rowOf[id]].id == id
    ensures r == Selected(rows, commits)
  {
    hide Selected, InPack, ValidRows;
    r := [];
    SelectedNothing(rows, commits);
    for i := 0 to |commits|
      invariant r == Selected(rows, commits[..i])
    {
      var c := commits[i];
      SelectedStep(rows, commits, i, if c in rowOf then rowOf[c] else 0);
      if c in rowOf { r := r + [rowOf[c]]; }
    }
    assert commits[..|commits|] == commits;
  }

  lemma SelectedNothing(rows: seq<Row>, commits: seq<Id>)
    ensures Selected(rows, commits[..0]) == []
  {}

  lemma SelectedStep(rows: seq<Row>, commits: seq<Id>, i: nat, row: nat)
    requires ValidRows(rows) && i < |commits|
    requires InPack(rows, commits[i]) ==> row < |rows| && rows[row].id == commits[i]
    ensures Selected(rows, commits[..i + 1]) ==
      Selected(rows, commits[..i]) + if InPack(rows, commits[i]) then [row] else []
  {
    hide InPack, RowOf, ValidRows;
    assert commits[..i + 1][..i] == commits[..i];
    if InPack(rows, commits[i]) { RowOfIs(rows, commits[i], row); }
  }

  /** One bitmap per row, in the given order. */
  method EntryBitmaps(store: Store, rows: seq<Row>, order: seq<nat>, position: map<Id, nat>, selected: seq<nat>)
    returns (r: Result<seq<(nat, Ewah)>>)
    requires |rows| < TWO_32 && |order| == |rows| && forall k :: 0 <= k < |selected| ==> selected[k] < |rows|
    requires forall p :: 0 <= p < |order| ==>
      order[p] < |rows| && IdAt(rows, order, p) in position && position[IdAt(rows, order, p)] == p
    requires forall id :: id in position ==> position[id] < |order| && IdAt(rows, order, position[id]) == id
    ensures r.Ok? <==> forall k :: 0 <= k < |selected| ==> SoundFrom(store, rows[selected[k]].id)
    ensures r.Ok? ==> EntryRows(r.value) == selected && forall k :: 0 <= k < |r.value| ==>
      Storable(r.value[k].1) && EntryReaches(store, rows, order, r.value[k])
  {
    hide Reach, RefsIn, Storable, DecodeFrom, IsSet;
    var out: seq<(nat, Ewah)> := [];
    for i := 0 to |selected|
      invariant |out| == i && forall k :: 0 <= k < i ==>
        out[k].0 == selected[k] && SoundFrom(store, rows[selected[k]].id)
      invariant forall k :: 0 <= k < i ==> Storable(out[k].1) && EntryReaches(store, rows, order, out[k])
    {
      hide Marks;
      var commit := rows[selected[i]].id;
      assert AsSet([commit]) == {commit};
      var reachable := CollectClosure(store, [commit], {});
      if reachable.Err? { return Err; }
      var bits := ReachedPositions(rows, order, position, reachable.value);
      var e := TypeBitmap(bits);
      out := out + [(selected[i], e)];
    }
    return Ok(out);
  }

  method WriteBitmap(env: PackFormat.Env, store: Store, rows: seq<Row>, packHash: Bytes, commits: seq<Id>)
    returns (r: Result<Bytes>, ghost plan: Plan)
    requires ValidRows(rows)
    ensures r.Ok? <==> AllStored(store, rows) && forall c :: c in commits && InPack(rows, c) ==> SoundFrom(store, c)
    ensures r.Ok? ==> r.value == File(env, packHash, |commits|, plan)
    ensures r.Ok? ==> forall p :: 0 <= p < |PackOrder(rows)| ==> PackOrder(rows)[p] < |rows|
    ensures r.Ok? ==> TypesSplit(store, rows, PackOrder(rows), plan.types)
    ensures r.Ok? ==> Order.Sorted(RowOrder(), EntryRows(plan.entries))
    ensures r.Ok? ==> multiset(EntryRows(plan.entries)) == multiset(Selected(rows, commits))
    ensures r.Ok? ==> forall k :: 0 <= k < |plan.entries| ==>
      EntryReaches(store, rows, PackOrder(rows), plan.entries[k])
    ensures r.Ok? && |commits| < TWO_32 ==> PlanFits(plan)
  {
    hide PackOrder, Reach, Storable, Selected, RefsIn, Concat, ToBytes, U16Bytes, U32Bytes, Marks, HasKind;
    plan := Plan([], []);
    var order := PackOrder(rows);
    PackOrderPermutes(rows);
    var position := Positions(rows, order);
    var rowOf := RowMap(rows);
    var sets := TypePositions(store, rows, order);
    if sets.Err? { return Err, plan; }
    var selected := SelectRows(rows, rowOf, commits);
    assert Order.TotalOrder(RowOrder());
    var sorted := Order.Sort(RowOrder(), selected);
    SelectedSound(store, rows, commits, selected, sorted);
    var types := TypeBitmaps(store, rows, order, sets.value);
    var entries := EntryBitmaps(store, rows, order, position, sorted);
    if entries.Err? { return Err, plan; }
    plan := Plan(types, entries.value);
    var out := Assemble(env, packHash, |commits|, types, entries.value);
    return Ok(out), plan;
  }

  /** Sorting the selected rows keeps which commits must be sound. */
  lemma SelectedSound(store: Store, rows: seq<Row>, commits: seq<Id>, selected: seq<nat>, sorted: seq<nat>)
    requires selected == Selected(rows, commits) && multiset(sorted) == multiset(selected)
    ensures |sorted| <= |commits| && forall k :: 0 <= k < |sorted| ==> sorted[k] < |rows|
    ensures (forall k :: 0 <= k < |sorted| ==> SoundFrom(store, rows[sorted[k]].id)) <==>
            (forall c :: c in commits && InPack(rows, c) ==> SoundFrom(store, c))
  {
    hide SoundFrom;
    Order.SameElements(selected, sorted);
    forall k | 0 <= k < |sorted|
      ensures sorted[k] < |rows| && rows[sorted[k]].id in commits && InPack(rows, rows[sorted[k]].id)
    {
      assert sorted[k] in selected;
    }
    if forall k :: 0 <= k < |sorted| ==> SoundFrom(store, rows[sorted[k]].id) {
      forall c | c in commits && InPack(rows, c) ensures SoundFrom(store, c) {
        SelectedAll(rows, commits, c);
        var k :| 0 <= k < |selected| && rows[selected[k]].id == c;
        assert selected[k] in sorted;
        var j :| 0 <= j < |sorted| && sorted[j] == selected[k];
      }
    }
  }

  lemma {:induction false} SelectedAll(rows: seq<Row>, commits: seq<Id>, c: Id)
    requires c in commits && InPack(rows, c)
    ensures exists k :: 0 <= k < |Selected(rows, commits)| && rows[Selected(rows, commits)[k]].id == c
  {
    var n := |commits| - 1;
    assert commits == commits[..n] + [commits[n]];
    var init, all := Selected(rows, commits[..n]), Selected(rows, commits);
    assert all[..|init|] == init;
    if c in commits[..n] {
      SelectedAll(rows, commits[..n], c);
      var k :| 0 <= k < |init| && rows[init[k]].id == c;
      assert all[k] == init[k];
    } else {
      assert rows[all[|all| - 1]].id == c;
    }
  }

  method Assemble(env: PackFormat.Env, packHash: Bytes, count: nat, types: seq<Ewah>, entries: seq<(nat, Ewah)>)
    returns (out: Bytes)
    ensures out == File(env, packHash, count, Plan(types, entries))
  {
    hide ToBytes, U16Bytes, U32Bytes;
    out := SIGNATURE + U16Bytes(1) + U16Bytes(1) + U32Bytes(count) + packHash;
    ghost var head, parts := out, TypeParts(types);
    for i := 0 to |types|
      invariant out == head + Concat(parts[..i])
    {
      assert parts[..i + 1] == parts[..i] + [parts[i]];
      ConcatSnoc(parts[..i], parts[i]);
      var bytes := WriteBytes(types[i]);
      out := out + bytes;
    }
    assert parts[..|types|] == parts;
    ghost var body, rest := out, EntryParts(entries);
    for i := 0 to |entries|
      invariant out == body + Concat(rest[..i])
    {
      assert rest[..i + 1] == rest[..i] + [rest[i]];
      ConcatSnoc(rest[..i], rest[i]);
      var bytes := WriteBytes(entries[i].1);
      out := out + (U32Bytes(entries[i].0) + [0, 0] + bytes);
    }
    assert rest[..|entries|] == rest;
    out := out + env.digest(out);
  }

  lemma ReadCounts(env: PackFormat.Env, data: Bytes)
    ensures Read(env, data).Ok? ==> |data| >= 12 && |Read(env, data).value.entries| == U32At(data, 8)
  {
    hide ReadTypes, ReadEntries, U16At, U32At;
  }

  /** The header counts the selected commits, which is the number of entries exactly
      when every one of them is in the pack; then, and only then, the file reads back. */
  lemma HeaderCounts(env: PackFormat.Env, packHash: Bytes, rows: seq<Row>, commits: seq<Id>, plan: Plan)
    requires env.Lawful() && |packHash| == env.algo.RawLen() && |commits| < TWO_32 && PlanFits(plan)
    requires multiset(EntryRows(plan.entries)) == multiset(Selected(rows, commits))
    ensures
      var data := File(env, packHash, |commits|, plan);
      && |data| >= 12
      && (U32At(data, 8) == |plan.entries| <==> forall k :: 0 <= k < |commits| ==> InPack(rows, commits[k]))
      && (Read(env, data) == Ok(plan) <==> forall k :: 0 <= k < |commits| ==> InPack(rows, commits[k]))
  {
    hide Body, Read, U32At, Selected;
    var data := File(env, packHash, |commits|, plan);
    var body := Body(packHash, |commits|, plan);
    assert data[..|body|] == body;
    BodyPieces(packHash, |commits|, plan, data);
    Order.SameElements(EntryRows(plan.entries), Selected(rows, commits));
    ReadCounts(env, data);
    if |commits| == |plan.entries| { FileReads(env, packHash, plan); }
  }
}
