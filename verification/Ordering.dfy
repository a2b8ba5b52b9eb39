/** Byte-wise string order and the contract of Go's library sorts. */
module Ordering {

  /** Go's `<` on strings. */
  predicate Less(a: string, b: string)
  {
    if b == "" then false
    else if a == "" then true
    else a[0] < b[0] || (a[0] == b[0] && Less(a[1..], b[1..]))
  }

  lemma {:induction false} LessIrreflexive(a: string)
    ensures !Less(a, a)
  {
    if a != "" { LessIrreflexive(a[1..]); }
  }

  lemma {:induction false} LessTransitive(a: string, b: string, c: string)
    requires Less(a, b) && Less(b, c)
    ensures Less(a, c)
  {
    if a != "" && a[0] == b[0] == c[0] { LessTransitive(a[1..], b[1..], c[1..]); }
  }

  lemma {:induction false} LessTotal(a: string, b: string)
    ensures a == b || Less(a, b) || Less(b, a)
  {
    if a != "" && b != "" && a[0] == b[0] {
      LessTotal(a[1..], b[1..]);
      assert a == [a[0]] + a[1..] && b == [b[0]] + b[1..];
    }
  }

  lemma LessForSorting()
    ensures StrictWeakOrder(Less)
  {
    forall a ensures !Less(a, a) { LessIrreflexive(a); }
    forall a, b, c | Less(a, b) && Less(b, c) ensures Less(a, c) { LessTransitive(a, b, c); }
    forall a, b, c | !Less(a, b) && !Less(b, c) ensures !Less(a, c) {
      LessTotal(a, b);
      LessTotal(b, c);
      if Less(a, c) {
        if Less(b, a) { LessTransitive(b, a, c); }
      }
    }
  }

  /** Sorting distinct strings leaves them strictly ascending. */
  lemma SortedIsAscending(unsorted: seq<string>, sorted: seq<string>)
    requires Distinct(unsorted) && SortedBy(sorted, Less) && multiset(sorted) == multiset(unsorted)
    ensures StrictlyAscending(sorted)
    ensures forall x :: x in sorted <==> x in unsorted
  {
    forall x ensures x in sorted <==> x in unsorted {
      assert x in multiset(sorted) <==> x in multiset(unsorted);
    }
    DistinctMultiset(unsorted);
    forall i, j | 0 <= i < j < |sorted| ensures Less(sorted[i], sorted[j]) {
      LessTotal(sorted[i], sorted[j]);
      assert sorted[i] in unsorted;
      if sorted[i] == sorted[j] { TwoCopies(sorted, i, j); }
    }
  }

  lemma {:induction false} DistinctMultiset<T>(s: seq<T>)
    requires Distinct(s)
    ensures forall x | x in s :: multiset(s)[x] == 1
  {
    if s != [] {
      var t := s[..|s| - 1];
      DistinctMultiset(t);
      assert s == t + [s[|s| - 1]];
    }
  }

  lemma TwoCopies<T>(s: seq<T>, i: nat, j: nat)
    requires i < j < |s| && s[i] == s[j]
    ensures multiset(s)[s[i]] >= 2
  {
    assert s == s[..j] + [s[j]] + s[j + 1..];
    assert s[i] in s[..j];
    assert multiset(s[..j])[s[i]] >= 1;
  }

  lemma AscendingIsDistinct(s: seq<string>)
    requires StrictlyAscending(s)
    ensures Distinct(s)
  {
    forall i, j | 0 <= i < j < |s| ensures s[i] != s[j] { LessIrreflexive(s[i]); }
  }

  predicate IntLess(a: int, b: int) { a < b }

  /** What sort.Slice demands of its comparator. */
  ghost predicate StrictWeakOrder<T(!new)>(less: (T, T) -> bool) {
    && (forall x :: !less(x, x))
    && (forall x, y, z :: less(x, y) && less(y, z) ==> less(x, z))
    && (forall x, y, z :: !less(x, y) && !less(y, z) ==> !less(x, z))
  }

  ghost predicate SortedBy<T>(s: seq<T>, less: (T, T) -> bool) {
    forall i, j | 0 <= i < j < |s| :: !less(s[j], s[i])
  }

  ghost predicate StrictlyAscending(s: seq<string>) {
    forall i, j | 0 <= i < j < |s| :: Less(s[i], s[j])
  }

  ghost predicate Distinct<T>(s: seq<T>) {
    forall i, j | 0 <= i < j < |s| :: s[i] != s[j]
  }

  /**
   * sort.Slice: some sorted permutation of its argument. Which one is left open,
   * because Go's sort is not stable; nothing else is known about this body.
   */
  method SortSlice<T(==, !new)>(s: seq<T>, less: (T, T) -> bool) returns (r: seq<T>)
    requires StrictWeakOrder(less)
    ensures SortedBy(r, less)
    ensures multiset(r) == multiset(s)
  {
    r := [];
    for i := 0 to |s|
      invariant SortedBy(r, less)
      invariant multiset(r) == multiset(s[..i])
    {
      var j := 0;
      while j < |r| && !less(s[i], r[j])
        invariant 0 <= j <= |r|
        invariant forall k | 0 <= k < j :: !less(s[i], r[k])
      {
        j := j + 1;
      }
      ghost var was := r;
      r := r[..j] + [s[i]] + r[j..];
      assert was == was[..j] + was[j..];
      assert s[..i + 1] == s[..i] + [s[i]];
    }
    assert s[..|s|] == s;
  }

  /** Two sorted permutations agree when the order separates distinct elements. */
  lemma {:induction false} SortedPermutationUnique<T(!new)>(a: seq<T>, b: seq<T>, less: (T, T) -> bool)
    requires SortedBy(a, less) && SortedBy(b, less)
    requires multiset(a) == multiset(b)
    requires forall x, y :: x in a && y in a && x != y ==> less(x, y) || less(y, x)
    ensures a == b
  {
    SameLength(a, b);
    if a != [] {
      SameFirst(a, b, less);
      WithoutFirst(a);
      WithoutFirst(b);
      SortedPermutationUnique(a[1..], b[1..], less);
    }
  }

  lemma WithoutFirst<T>(s: seq<T>)
    requires s != []
    ensures multiset(s[1..]) == multiset(s) - multiset{s[0]}
  {
    assert s == [s[0]] + s[1..];
  }

  lemma SameFirst<T(!new)>(a: seq<T>, b: seq<T>, less: (T, T) -> bool)
    requires a != [] && b != []
    requires SortedBy(a, less) && SortedBy(b, less)
    requires multiset(a) == multiset(b)
    requires forall x, y :: x in a && y in a && x != y ==> less(x, y) || less(y, x)
    ensures a[0] == b[0]
  {
    assert a[0] in multiset(b) && b[0] in multiset(a);
    var i :| 0 <= i < |b| && b[i] == a[0];
    var j :| 0 <= j < |a| && a[j] == b[0];
  }

  lemma SameLength<T>(a: seq<T>, b: seq<T>)
    requires multiset(a) == multiset(b)
    ensures |a| == |b|
  {
    assert |multiset(a)| == |a| && |multiset(b)| == |b|;
  }

  lemma WithoutOne<T>(s: seq<T>, k: nat)
    requires k < |s|
    ensures multiset(s[..k] + s[k + 1..]) == multiset(s) - multiset{s[k]}
  {
    assert s == s[..k] + [s[k]] + s[k + 1..];
  }

  lemma HasMember<T>(s: seq<T>)
    ensures s == [] || exists x :: x in s
  {
    if s != [] { assert s[0] in s; }
  }

  /** A strictly ascending sequence is determined by its set of elements. */
  lemma {:induction false} AscendingUnique(a: seq<string>, b: seq<string>)
    requires StrictlyAscending(a) && StrictlyAscending(b)
    requires forall x :: x in a <==> x in b
    ensures a == b
  {
    if a == [] {
      HasMember(b);
    } else {
      assert a[0] in b && b[0] in a;
      var i :| 0 <= i < |b| && b[i] == a[0];
      var j :| 0 <= j < |a| && a[j] == b[0];
      if i > 0 {
        LessIrreflexive(a[0]);
        if j > 0 { LessTransitive(a[0], b[0], a[0]); }
      }
      assert a[0] == b[0];
      forall x ensures x in a[1..] <==> x in b[1..] {
        AscendingTail(a, x);
        AscendingTail(b, x);
      }
      AscendingUnique(a[1..], b[1..]);
    }
  }

  lemma AscendingTail(a: seq<string>, x: string)
    requires a != [] && StrictlyAscending(a)
    ensures x in a[1..] <==> x in a && x != a[0]
  {
    LessIrreflexive(a[0]);
  }

  /** The keys of a map in some order; Go promises nothing about which. */
  method RangeOver<K(==)>(keys: set<K>) returns (order: seq<K>)
    ensures Distinct(order)
    ensures forall k :: k in order <==> k in keys
  {
    order := [];
    var pending := keys;
    while |pending| > 0
      invariant pending <= keys
      invariant Distinct(order)
      invariant forall k :: k in order <==> k in keys - pending
      decreases pending
    {
      var k :| k in pending;
      pending := pending - {k};
      assert forall i | 0 <= i < |order| :: order[i] in order;
      order := order + [k];
    }
  }

  /** The keys of a map in the order sort.Strings leaves them. */
  ghost function SortedKeys(keys: set<string>): (r: seq<string>)
    ensures StrictlyAscending(r)
    ensures forall x :: x in r <==> x in keys
    ensures |r| == |keys|
  {
    if keys == {} then []
    else
      Smallest(keys);
      var k :| IsSmallest(k, keys);
      [k] + SortedKeys(keys - {k})
  }

  ghost predicate IsSmallest(k: string, keys: set<string>) {
    k in keys && forall x :: x in keys && x != k ==> Less(k, x)
  }

  lemma {:induction false} Smallest(keys: set<string>)
    requires keys != {}
    ensures exists k :: IsSmallest(k, keys)
  {
    var y :| y in keys;
    var rest := keys - {y};
    assert keys == rest + {y};
    if rest == {} {
      assert IsSmallest(y, keys);
    } else {
      Smallest(rest);
      var k :| IsSmallest(k, rest);
      LessTotal(y, k);
      if Less(y, k) {
        forall x | x in keys && x != y ensures Less(y, x) {
          if x != k { LessTransitive(y, k, x); }
        }
        assert IsSmallest(y, keys);
      } else {
        assert IsSmallest(k, keys);
      }
    }
  }
}
