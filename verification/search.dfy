/** Linear search in feed order, the shape of Rust's `Iterator::find`: the
    scraper uses it to pick an attribute of a cell and a summary entry. */
module Search {
  import opened Errors

  /** `i` is the first position of `xs` whose element satisfies `p`. */
  ghost predicate IsFirst<T>(xs: seq<T>, p: T -> bool, i: int) {
    0 <= i < |xs| && p(xs[i]) && forall j :: 0 <= j < i ==> !p(xs[j])
  }

  function FirstFrom<T>(xs: seq<T>, p: T -> bool, k: nat): (r: Option<nat>)
    requires k <= |xs|
    ensures r.None? <==> forall i :: k <= i < |xs| ==> !p(xs[i])
    ensures r.Some? ==> k <= r.value < |xs| && p(xs[r.value])
    ensures r.Some? ==> forall j :: k <= j < r.value ==> !p(xs[j])
    decreases |xs| - k
  {
    if k == |xs| then None
    else if p(xs[k]) then Some(k)
    else FirstFrom(xs, p, k + 1)
  }

  /** The position `find` stops at, or `None` when it runs off the end. */
  function First<T>(xs: seq<T>, p: T -> bool): (r: Option<nat>)
    ensures r.None? <==> forall i :: 0 <= i < |xs| ==> !p(xs[i])
    ensures r.Some? ==> IsFirst(xs, p, r.value)
  {
    FirstFrom(xs, p, 0)
  }
}
