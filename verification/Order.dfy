/** Byte-string order and the stable library sort, shared by every sorted table. */
module Order {
  import opened Base

  /** Lexicographic order of byte slices. */
  predicate Less(a: Bytes, b: Bytes)
    decreases |a|
  {
    b != [] && (a == [] || a[0] < b[0] || (a[0] == b[0] && Less(a[1..], b[1..])))
  }

  /** The first byte that differs decides, and a string comes before what it is a prefix of. */
  lemma {:induction false} LessMeans(a: Bytes, b: Bytes)
    ensures Less(a, b) <==>
      exists k :: 0 <= k <= |a| && k < |b| && a[..k] == b[..k] && (k == |a| || a[k] < b[k])
    decreases |a|
  {
    if a != [] && b != [] && a[0] == b[0] {
      LessMeans(a[1..], b[1..]);
      forall k | 0 < k <= |a| && k < |b|
        ensures a[..k] == b[..k] <==> a[1..][..k - 1] == b[1..][..k - 1]
      {
        assert a[..k] == [a[0]] + a[1..][..k - 1] && b[..k] == [b[0]] + b[1..][..k - 1];
      }
      var x, y := a[1..], b[1..];
      if j :| 0 <= j <= |x| && j < |y| && x[..j] == y[..j] && (j == |x| || x[j] < y[j]) {
        assert a[..j + 1] == b[..j + 1];
      }
    } else if b != [] {
      assert a[..0] == b[..0];
    }
  }

  predicate AtMost(a: Bytes, b: Bytes) { a == b || Less(a, b) }

  lemma {:induction false} LessIrreflexive(a: Bytes)
    ensures !Less(a, a)
    decreases |a|
  {
    if a != [] { LessIrreflexive(a[1..]); }
  }

  lemma {:induction false} LessTransitive(a: Bytes, b: Bytes, c: Bytes)
    requires Less(a, b) && Less(b, c)
    ensures Less(a, c)
    decreases |a|
  {
    if a != [] && a[0] == b[0] == c[0] { LessTransitive(a[1..], b[1..], c[1..]); }
  }

  lemma {:induction false} LessTotal(a: Bytes, b: Bytes)
    ensures Less(a, b) || a == b || Less(b, a)
    ensures !(Less(a, b) && Less(b, a))
    decreases |a|
  {
    if a != [] && b != [] && a[0] == b[0] {
      LessTotal(a[1..], b[1..]);
      assert a == [a[0]] + a[1..] && b == [b[0]] + b[1..];
    }
  }

  /** Two strings in order stay in order below a common prefix, and only then. */
  lemma {:induction false} LessPrefix(p: Bytes, a: Bytes, b: Bytes)
    ensures Less(p + a, p + b) == Less(a, b)
    decreases |p|
  {
    if p == [] {
      assert p + a == a && p + b == b;
    } else {
      assert (p + a)[1..] == p[1..] + a && (p + b)[1..] == p[1..] + b;
      LessPrefix(p[1..], a, b);
    }
  }

  // ------------------------------------------------------------------ sorting

  ghost predicate TotalOrder<T(!new)>(le: (T, T) -> bool) {
    && (forall x, y :: le(x, y) || le(y, x))
    && (forall x, y, z :: le(x, y) && le(y, z) ==> le(x, z))
  }

  predicate Sorted<T>(le: (T, T) -> bool, s: seq<T>) {
    forall i, j :: 0 <= i < j < |s| ==> le(s[i], s[j])
  }

  function Insert<T(!new)>(le: (T, T) -> bool, x: T, s: seq<T>): (r: seq<T>)
    requires TotalOrder(le) && Sorted(le, s)
    ensures Sorted(le, r) && multiset(r) == multiset{x} + multiset(s) && |r| == |s| + 1
    ensures forall y :: y in r <==> y == x || y in s
  {
    if s == [] || le(x, s[0]) then
      assert forall i :: 0 < i < |s| && le(x, s[0]) ==> le(x, s[i]);
      [x] + s
    else
      var t := Insert(le, x, s[1..]);
      assert s == [s[0]] + s[1..];
      assert forall y :: y in t ==> le(s[0], y) by {
        forall y | y in t ensures le(s[0], y) {
          if y != x { assert y in s[1..]; }
        }
      }
      [s[0]] + t
  }

  /** The library's stable sort: a sorted permutation that keeps ties in order. */
  function Sort<T(!new)>(le: (T, T) -> bool, s: seq<T>): (r: seq<T>)
    requires TotalOrder(le)
    ensures Sorted(le, r) && multiset(r) == multiset(s) && |r| == |s|
    ensures forall y :: y in r <==> y in s
  {
    if s == [] then []
    else
      assert s == [s[0]] + s[1..];
      Insert(le, s[0], Sort(le, s[1..]))
  }

  /** Sorting something already sorted changes nothing. */
  lemma {:induction false} SortSorted<T(!new)>(le: (T, T) -> bool, s: seq<T>)
    requires TotalOrder(le) && Sorted(le, s)
    ensures Sort(le, s) == s
  {
    if s != [] {
      SortSorted(le, s[1..]);
      assert s == [s[0]] + s[1..];
    }
  }

  lemma SameElements<T>(a: seq<T>, b: seq<T>)
    requires multiset(a) == multiset(b)
    ensures |a| == |b| && forall x :: x in a <==> x in b
  {
    assert |multiset(a)| == |multiset(b)|;
    forall x ensures x in a <==> x in b {
      assert x in a <==> x in multiset(a);
      assert x in b <==> x in multiset(b);
    }
  }

  lemma SameTail<T>(a: seq<T>, b: seq<T>)
    requires a != [] && b != [] && a[0] == b[0] && multiset(a) == multiset(b)
    ensures multiset(a[1..]) == multiset(b[1..])
  {
    assert a == [a[0]] + a[1..] && b == [b[0]] + b[1..];
    assert multiset(a[1..]) == multiset(a) - multiset{a[0]};
    assert multiset(b[1..]) == multiset(b) - multiset{b[0]};
  }

  /** When equal rank means equal element, the sorted arrangement is unique. */
  lemma {:induction false} SortedUnique<T(!new)>(le: (T, T) -> bool, a: seq<T>, b: seq<T>)
    requires Sorted(le, a) && Sorted(le, b) && multiset(a) == multiset(b)
    requires forall x, y :: x in a && y in a && le(x, y) && le(y, x) ==> x == y
    ensures a == b
    decreases |a|
  {
    SameElements(a, b);
    if a != [] {
      assert a[0] in b && b[0] in a;
      var i :| 0 <= i < |b| && b[i] == a[0];
      var j :| 0 <= j < |a| && a[j] == b[0];
      assert a[0] == b[0] by {
        assert (i == 0 || le(b[0], b[i])) && (j == 0 || le(a[0], a[j]));
      }
      SameTail(a, b);
      SortedUnique(le, a[1..], b[1..]);
      assert a == [a[0]] + a[1..] && b == [b[0]] + b[1..];
    }
  }

  predicate Distinct<T(==)>(s: seq<T>) { forall i, j :: 0 <= i < j < |s| ==> s[i] != s[j] }

  lemma TwiceCounts<T>(s: seq<T>, i: nat, j: nat)
    requires i < j < |s| && s[i] == s[j]
    ensures multiset(s)[s[i]] >= 2
  {
    assert s == s[..j] + s[j..];
    assert s[i] in s[..j] && s[j] in s[j..];
    assert multiset(s) == multiset(s[..j]) + multiset(s[j..]);
  }

  lemma OnceCounts<T>(s: seq<T>, k: nat)
    requires k < |s| && forall i :: 0 <= i < |s| && i != k ==> s[i] != s[k]
    ensures multiset(s)[s[k]] == 1
  {
    var x := s[k];
    assert s == s[..k] + [x] + s[k + 1..];
    assert multiset(s) == multiset(s[..k]) + multiset{x} + multiset(s[k + 1..]);
    assert x !in s[..k] && x !in s[k + 1..];
  }

  /** A permutation of distinct elements has distinct elements. */
  lemma PermutedDistinct<T>(a: seq<T>, b: seq<T>)
    requires Distinct(a) && multiset(a) == multiset(b)
    ensures Distinct(b)
  {
    SameElements(a, b);
    forall i, j | 0 <= i < j < |b| ensures b[i] != b[j] {
      assert b[i] in a;
      var k :| 0 <= k < |a| && a[k] == b[i];
      OnceCounts(a, k);
      if b[i] == b[j] { TwiceCounts(b, i, j); }
    }
  }

  // ------------------------------------------------------- ordered iteration

  predicate StrictlyIncreasing(s: seq<Bytes>) {
    forall i, j :: 0 <= i < j < |s| ==> Less(s[i], s[j])
  }

  /** Inserts a string that is not there yet into its place. */
  method InsertNew(s: seq<Bytes>, x: Bytes) returns (r: seq<Bytes>)
    requires StrictlyIncreasing(s) && x !in s
    ensures StrictlyIncreasing(r) && forall y :: y in r <==> y == x || y in s
  {
    var i := 0;
    while i < |s| && Less(s[i], x)
      invariant 0 <= i <= |s| && forall j :: 0 <= j < i ==> Less(s[j], x)
    {
      i := i + 1;
    }
    forall j | i <= j < |s| ensures Less(x, s[j]) {
      LessTotal(s[i], x);
      if i < j { LessTransitive(x, s[i], s[j]); }
    }
    r := s[..i] + [x] + s[i..];
  }

  /** The members of a set in the order a sorted set yields them. */
  method Ascending(s: set<Bytes>) returns (r: seq<Bytes>)
    ensures StrictlyIncreasing(r) && forall y :: y in r <==> y in s
  {
    r := [];
    var rest := s;
    while rest != {}
      invariant rest <= s && StrictlyIncreasing(r) && forall y :: y in r <==> y in s && y !in rest
      decreases |rest|
    {
      var x :| x in rest;
      r := InsertNew(r, x);
      rest := rest - {x};
    }
  }
}
