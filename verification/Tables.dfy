/** Fixed-width tables laid out back to back. */
module Tables {
  import opened Base

  /** The parts one after another. */
  function Concat(parts: seq<Bytes>): (r: Bytes)
  {
    if parts == [] then [] else Concat(parts[..|parts| - 1]) + parts[|parts| - 1]
  }

  predicate Width(parts: seq<Bytes>, w: nat) { forall i :: 0 <= i < |parts| ==> |parts[i]| == w }

  /** A table of 32-bit words. */
  function WordParts(words: seq<nat>): (r: seq<Bytes>)
    ensures |r| == |words| && Width(r, 4) && forall i :: 0 <= i < |words| ==> r[i] == U32Bytes(words[i])
  { seq(|words|, i requires 0 <= i < |words| => U32Bytes(words[i])) }

  lemma NoParts()
    ensures Concat([]) == []
  {}

  lemma ConcatSnoc(parts: seq<Bytes>, last: Bytes)
    ensures Concat(parts + [last]) == Concat(parts) + last
  {
    assert (parts + [last])[..|parts|] == parts;
  }

  lemma {:induction false} ConcatAppend(a: seq<Bytes>, b: seq<Bytes>)
    ensures Concat(a + b) == Concat(a) + Concat(b)
    decreases |b|
  {
    if b == [] {
      assert a + b == a;
    } else {
      var init, last := b[..|b| - 1], b[|b| - 1];
      assert a + b == (a + init) + [last] && b == init + [last];
      ConcatAppend(a, init);
      ConcatSnoc(a + init, last);
      ConcatSnoc(init, last);
    }
  }

  lemma {:induction false} ConcatWidth(parts: seq<Bytes>, w: nat)
    requires Width(parts, w)
    ensures |Concat(parts)| == |parts| * w
  {
    if parts != [] {
      ConcatWidth(parts[..|parts| - 1], w);
      assert |parts| * w == (|parts| - 1) * w + w;
    }
  }

  /** Row `i` of a table of rows `w` bytes wide sits `i * w` bytes in. */
  lemma {:induction false} RowAt(data: Bytes, pos: nat, parts: seq<Bytes>, w: nat, i: nat)
    requires Width(parts, w) && i < |parts| && At(data, pos, Concat(parts))
    ensures 0 <= i * w && i * w + w <= |parts| * w && pos + |parts| * w <= |data|
    ensures At(data, pos + i * w, parts[i])
  {
    var init := parts[..|parts| - 1];
    ConcatWidth(parts, w);
    ConcatWidth(init, w);
    AtSplit(data, pos, Concat(init), parts[|parts| - 1]);
    RowBounds(i, |parts|, w);
    if i < |parts| - 1 {
      RowAt(data, pos, init, w, i);
    }
  }

  lemma RowBounds(i: nat, n: nat, w: nat)
    requires i < n
    ensures 0 <= i * w && i * w + w <= n * w
  {
    assert (n - i - 1) * w >= 0;
    assert n * w == i * w + w + (n - i - 1) * w;
  }

  /** Variable-width parts: part `i` follows everything before it. */
  lemma {:induction false} PartAt(data: Bytes, pos: nat, parts: seq<Bytes>, i: nat)
    requires i < |parts| && At(data, pos, Concat(parts))
    ensures At(data, pos + |Concat(parts[..i])|, parts[i])
  {
    var init := parts[..|parts| - 1];
    AtSplit(data, pos, Concat(init), parts[|parts| - 1]);
    if i < |parts| - 1 {
      PartAt(data, pos, init, i);
      assert init[..i] == parts[..i];
    }
  }
}
