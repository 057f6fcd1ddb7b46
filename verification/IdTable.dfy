/** Sorted tables of object ids with their 256-entry fanout, as pack indexes and commit-graphs store them. */
module IdTable {
  import opened Base
  import opened Tables
  import Order

  type Id = Bytes

  predicate NonEmpty(ids: seq<Id>) { forall i :: 0 <= i < |ids| ==> ids[i] != [] }

  // ------------------------------------------------------------------ fanout

  /** How many ids start with a byte at most `b`. */
  function CountUpTo(ids: seq<Id>, b: int): (r: nat)
    requires NonEmpty(ids)
    ensures r <= |ids|
  {
    if ids == [] then 0
    else CountUpTo(ids[..|ids| - 1], b) + if ids[|ids| - 1][0] <= b then 1 else 0
  }

  function CountEqual(ids: seq<Id>, b: int): (r: nat)
    requires NonEmpty(ids)
    ensures r <= |ids|
  {
    if ids == [] then 0
    else CountEqual(ids[..|ids| - 1], b) + if ids[|ids| - 1][0] == b then 1 else 0
  }

  lemma {:induction false} CountSteps(ids: seq<Id>, b: int)
    requires NonEmpty(ids)
    ensures CountUpTo(ids, b) == CountUpTo(ids, b - 1) + CountEqual(ids, b)
    ensures b < 0 ==> CountUpTo(ids, b) == 0
    ensures b >= 255 ==> CountUpTo(ids, b) == |ids|
  {
    if ids != [] {
      CountSteps(ids[..|ids| - 1], b);
    }
  }

  /** The fanout: for each byte the cumulative count, four bytes each. */
  function FanoutParts(ids: seq<Id>): (r: seq<Bytes>)
    requires NonEmpty(ids)
    ensures |r| == 256 && Width(r, 4)
  {
    seq(256, b requires 0 <= b < 256 => U32Bytes(CountUpTo(ids, b)))
  }

  /** The last fanout entry is the number of ids. */
  lemma FanoutTotal(ids: seq<Id>, data: Bytes, pos: nat)
    requires NonEmpty(ids) && |ids| < TWO_32 && At(data, pos, Concat(FanoutParts(ids)))
    ensures pos + 1024 <= |data| && U32At(data, pos + 255 * 4) == |ids|
  {
    RowAt(data, pos, FanoutParts(ids), 4, 255);
    CountSteps(ids, 255);
    U32RoundTrip(data, pos + 255 * 4, |ids|);
  }

  // ------------------------------------------------------------------- lookup

  /** `count` ids of `width` bytes each. */
  datatype Ids = Ids(width: nat, bytes: Bytes, count: nat)

  predicate Valid(t: Ids) { t.count * t.width <= |t.bytes| }

  function Row(t: Ids, i: nat): (id: Id)
    requires Valid(t) && i < t.count
  {
    RowBounds(i, t.count, t.width);
    t.bytes[i * t.width..i * t.width + t.width]
  }

  ghost predicate Sorted(t: Ids)
    requires Valid(t)
  {
    forall i, j :: 0 <= i < j < t.count ==> Order.Less(Row(t, i), Row(t, j))
  }

  /** Binary search. A hit is always right; on a sorted table a miss is too. */
  method Search(t: Ids, id: Id) returns (r: Option<nat>)
    requires Valid(t)
    ensures r.Some? ==> r.value < t.count && Row(t, r.value) == id
    ensures Sorted(t) && r.None? ==> forall i :: 0 <= i < t.count ==> Row(t, i) != id
  {
    var lo, hi := 0, t.count;
    while lo < hi
      invariant 0 <= lo <= hi <= t.count
      invariant Sorted(t) ==> forall i :: 0 <= i < lo ==> Order.Less(Row(t, i), id)
      invariant Sorted(t) ==> forall i :: hi <= i < t.count ==> Order.Less(id, Row(t, i))
    {
      var mid := (lo + hi) / 2;
      var row := Row(t, mid);
      Order.LessTotal(row, id);
      if row == id {
        return Some(mid);
      } else if Order.Less(row, id) {
        if Sorted(t) { BelowMid(t, mid, id); }
        lo := mid + 1;
      } else {
        if Sorted(t) { AboveMid(t, mid, id); }
        hi := mid;
      }
    }
    forall i | 0 <= i < t.count && Sorted(t) ensures Row(t, i) != id {
      Order.LessIrreflexive(id);
    }
    return None;
  }

  lemma BelowMid(t: Ids, mid: nat, id: Id)
    requires Valid(t) && Sorted(t) && mid < t.count && Order.Less(Row(t, mid), id)
    ensures forall i :: 0 <= i <= mid ==> Order.Less(Row(t, i), id)
  {
    forall i | 0 <= i < mid ensures Order.Less(Row(t, i), id) {
      Order.LessTransitive(Row(t, i), Row(t, mid), id);
    }
  }

  lemma AboveMid(t: Ids, mid: nat, id: Id)
    requires Valid(t) && Sorted(t) && mid < t.count && Order.Less(id, Row(t, mid))
    ensures forall i :: mid <= i < t.count ==> Order.Less(id, Row(t, i))
  {
    forall i | mid < i < t.count ensures Order.Less(id, Row(t, i)) {
      Order.LessTransitive(id, Row(t, mid), Row(t, i));
    }
  }

  /** The table holding the given ids back to back. */
  function TableOf(ids: seq<Id>, width: nat): (t: Ids) { Ids(width, Concat(ids), |ids|) }

  lemma TableRows(ids: seq<Id>, width: nat)
    requires Width(ids, width)
    ensures Valid(TableOf(ids, width))
    ensures forall i :: 0 <= i < |ids| ==> Row(TableOf(ids, width), i) == ids[i]
  {
    ConcatWidth(ids, width);
    forall i | 0 <= i < |ids| ensures Row(TableOf(ids, width), i) == ids[i] {
      RowBounds(i, |ids|, width);
      RowAt(Concat(ids), 0, ids, width, i);
    }
  }

  lemma TableSorted(ids: seq<Id>, width: nat)
    requires Width(ids, width) && Order.StrictlyIncreasing(ids)
    ensures Valid(TableOf(ids, width)) && Sorted(TableOf(ids, width))
  {
    TableRows(ids, width);
  }
}
