/** Lists that hold one result for each selected element of another list, in the same order. */
module Selection {
  import opened Common

  /** `e` is what the first element that yields anything yields. */
  ghost predicate FirstHit<T, E>(s: seq<T>, test: T -> Option<E>, e: E) {
    exists i | 0 <= i < |s| :: test(s[i]) == Some(e) && forall k | 0 <= k < i :: test(s[k]).None?
  }

  lemma FirstHitUnique<T, E>(s: seq<T>, test: T -> Option<E>, a: E, b: E)
    requires FirstHit(s, test, a) && FirstHit(s, test, b)
    ensures a == b
  {
    var i :| 0 <= i < |s| && test(s[i]) == Some(a) && forall k | 0 <= k < i :: test(s[k]).None?;
    var j :| 0 <= j < |s| && test(s[j]) == Some(b) && forall k | 0 <= k < j :: test(s[k]).None?;
    assert i == j;
  }

  /** What the first element that yields anything yields, if there is one. */
  function FirstYield<T, E>(s: seq<T>, test: T -> Option<E>): (r: Option<E>)
    ensures r.Some? <==> exists i | 0 <= i < |s| :: test(s[i]).Some?
  {
    var i := FirstWhere(s, (x: T) => test(x).Some?);
    if i < |s| then test(s[i]) else None
  }

  method FindFirst<T, E>(s: seq<T>, test: T -> Option<E>) returns (r: Option<E>)
    ensures r.None? <==> forall i | 0 <= i < |s| :: test(s[i]).None?
    ensures r.Some? ==> FirstHit(s, test, r.value)
    ensures r == FirstYield(s, test)
  {
    for i := 0 to |s|
      invariant forall k | 0 <= k < i :: test(s[k]).None?
    {
      var e := test(s[i]);
      if e.Some? { return e; }
    }
    return None;
  }

  ghost predicate OneEach<H, M>(results: seq<M>, from: seq<H>, keep: H -> bool, fits: (M, H) -> bool) {
    if from == [] then results == []
    else
      var last, before := from[|from| - 1], from[..|from| - 1];
      if keep(last)
      then results != [] && fits(results[|results| - 1], last) && OneEach(results[..|results| - 1], before, keep, fits)
      else OneEach(results, before, keep, fits)
  }

  ghost function Filter<H(!new)>(from: seq<H>, keep: H -> bool): (r: seq<H>)
    ensures forall h :: h in r <==> h in from && keep(h)
  {
    if from == [] then []
    else
      var n := |from| - 1;
      assert from == from[..n] + [from[n]];
      Filter(from[..n], keep) + (if keep(from[n]) then [from[n]] else [])
  }

  lemma NotKept<H, M>(results: seq<M>, from: seq<H>, keep: H -> bool, fits: (M, H) -> bool, h: H)
    requires OneEach(results, from, keep, fits) && !keep(h)
    ensures OneEach(results, from + [h], keep, fits)
  {
    assert (from + [h])[..|from|] == from;
  }

  lemma OneEachAppend<H, M>(results: seq<M>, from: seq<H>, keep: H -> bool, fits: (M, H) -> bool, h: H, m: M)
    requires OneEach(results, from, keep, fits) && keep(h) && fits(m, h)
    ensures OneEach(results + [m], from + [h], keep, fits)
  {
    assert (from + [h])[..|from|] == from;
    assert (results + [m])[..|results|] == results;
  }

  /** The i-th result belongs to the i-th selected element. */
  lemma {:induction false} OneEachPairs<H(!new), M>(results: seq<M>, from: seq<H>, keep: H -> bool,
                                                    fits: (M, H) -> bool)
    requires OneEach(results, from, keep, fits)
    ensures |results| == |Filter(from, keep)|
    ensures forall i | 0 <= i < |results| :: fits(results[i], Filter(from, keep)[i])
  {
    if from != [] {
      var n := |from| - 1;
      if keep(from[n]) {
        OneEachPairs(results[..|results| - 1], from[..n], keep, fits);
      } else {
        OneEachPairs(results, from[..n], keep, fits);
      }
    }
  }
}
