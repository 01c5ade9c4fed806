/** The list shapes the loops share: visit the items in order and keep the
    result of each item that yields one, or find the first item that
    satisfies a test (`findIndex`, `find`). */
module Sequences {
  import opened Wrappers

  /** The first position whose item satisfies `p`, if any. */
  function FirstIndex<T>(s: seq<T>, p: T -> bool): (r: Option<nat>)
    ensures r.Some? ==> r.value < |s| && p(s[r.value])
    ensures r.Some? ==> forall j :: 0 <= j < r.value ==> !p(s[j])
    ensures r.None? ==> forall j :: 0 <= j < |s| ==> !p(s[j])
  {
    if s == [] then None
    else if p(s[0]) then Some(0)
    else
      match FirstIndex(s[1..], p)
      case None => None
      case Some(i) => Some(i + 1)
  }

  /** The kept results, in item order. */
  function FilterMap<A, B>(f: A -> Option<B>, xs: seq<A>): seq<B>
    decreases |xs|
  {
    if xs == [] then []
    else
      var init := FilterMap(f, xs[..|xs| - 1]);
      match f(xs[|xs| - 1])
      case None => init
      case Some(y) => init + [y]
  }

  /** Exactly the items that yield a result contribute one, so there are
      never more results than items. */
  lemma {:induction false} FilterMapExactly<A, B>(f: A -> Option<B>, xs: seq<A>)
    ensures |FilterMap(f, xs)| <= |xs|
    ensures forall y :: y in FilterMap(f, xs) <==> exists i :: 0 <= i < |xs| && f(xs[i]) == Some(y)
    decreases |xs|
  {
    if xs != [] {
      var init := xs[..|xs| - 1];
      FilterMapExactly(f, init);
      forall y
        ensures (exists i :: 0 <= i < |xs| && f(xs[i]) == Some(y)) <==>
                (exists i :: 0 <= i < |init| && f(init[i]) == Some(y)) || f(xs[|xs| - 1]) == Some(y)
      {
        if i :| 0 <= i < |xs| && f(xs[i]) == Some(y) {
          if i < |init| {
            assert xs[i] == init[i];
          }
        }
        if i :| 0 <= i < |init| && f(init[i]) == Some(y) {
          assert xs[i] == init[i];
        }
      }
    }
  }

  /** The results of a concatenation are the concatenated results: each
      item's fate depends on that item alone. */
  lemma {:induction false} FilterMapAppend<A, B>(f: A -> Option<B>, xs: seq<A>, ys: seq<A>)
    ensures FilterMap(f, xs + ys) == FilterMap(f, xs) + FilterMap(f, ys)
    decreases |ys|
  {
    if ys == [] {
      assert xs + ys == xs;
    } else {
      var init := ys[..|ys| - 1];
      FilterMapAppend(f, xs, init);
      assert (xs + ys)[..|xs + ys| - 1] == xs + init;
      assert (xs + ys)[|xs + ys| - 1] == ys[|ys| - 1];
    }
  }

  /** Two steps that agree on every item keep the same results. */
  lemma {:induction false} FilterMapAgree<A, B>(f: A -> Option<B>, g: A -> Option<B>, xs: seq<A>)
    requires forall i :: 0 <= i < |xs| ==> f(xs[i]) == g(xs[i])
    ensures FilterMap(f, xs) == FilterMap(g, xs)
    decreases |xs|
  {
    if xs != [] {
      var init := xs[..|xs| - 1];
      assert forall i :: 0 <= i < |init| ==> init[i] == xs[i];
      FilterMapAgree(f, g, init);
    }
  }
}
