/**
 * Path distances with "infinity when there is no path", and the first-wins
 * minimum/maximum scans the player's decision rules are built from.
 * Every distance is a whole number of edges or +infinity, so `double`
 * comparison is exactly the order below: finite values compare as numbers,
 * every finite value is below +infinity, and +infinity is not below itself.
 */
module Distances {
  import opened Wrappers

  datatype Dist = Fin(n: nat) | Inf

  /** `a < b` on doubles. */
  predicate Lt(a: Dist, b: Dist)
  {
    match a
    case Inf => false
    case Fin(x) => b.Inf? || x < b.n
  }

  /** `a <= b` on doubles. */
  predicate Le(a: Dist, b: Dist)
  {
    !Lt(b, a)
  }

  /** `Math.min(a, b)`. */
  function Min(a: Dist, b: Dist): (r: Dist)
    ensures Le(r, a) && Le(r, b)
    ensures r == a || r == b
  {
    if Lt(b, a) then b else a
  }

  /**
   * The running minimum of a loop that starts at +infinity and folds `Math.min`
   * over `ds` from the front: the least element, or +infinity when every
   * element is +infinity (in particular for no elements at all).
   */
  function MinOf(ds: seq<Dist>): (r: Dist)
    ensures forall k :: 0 <= k < |ds| ==> Le(r, ds[k])
    ensures r.Inf? <==> forall k :: 0 <= k < |ds| ==> ds[k].Inf?
    ensures r.Fin? ==> r in ds
    decreases |ds|
  {
    if |ds| == 0 then Inf
    else Min(MinOf(ds[..|ds| - 1]), ds[|ds| - 1])
  }

  /** Index `i` holds the least finite value of `ds`, and no earlier index holds that value. */
  ghost predicate IsFirstArgMin(ds: seq<Dist>, i: nat)
  {
    && i < |ds|
    && ds[i].Fin?
    && (forall k :: 0 <= k < |ds| ==> Le(ds[i], ds[k]))
    && (forall k :: 0 <= k < i ==> Lt(ds[i], ds[k]))
  }

  /** Index `i` holds the greatest value of `ds`, and no earlier index holds that value. */
  ghost predicate IsFirstArgMax(ds: seq<Dist>, i: nat)
  {
    && i < |ds|
    && (forall k :: 0 <= k < |ds| ==> Le(ds[k], ds[i]))
    && (forall k :: 0 <= k < i ==> Lt(ds[k], ds[i]))
  }

  /**
   * The loop `best = null; bestDist = +inf; for each d: if (d < bestDist) { best = it; bestDist = d; }`
   * over `ds`, answering with the index it keeps. Since the comparison is
   * strict and starts at +infinity, an unreachable (+infinity) entry is never
   * kept and ties go to the earliest entry.
   */
  function FirstArgMin(ds: seq<Dist>): (r: Option<nat>)
    ensures r.Some? ==> IsFirstArgMin(ds, r.value)
    ensures r.None? <==> forall k :: 0 <= k < |ds| ==> ds[k].Inf?
    decreases |ds|
  {
    if |ds| == 0 then None
    else
      var prev := FirstArgMin(ds[..|ds| - 1]);
      var best := if prev.None? then Inf else ds[prev.value];
      if Lt(ds[|ds| - 1], best) then Some(|ds| - 1) else prev
  }

  /**
   * The loop `best = null; bestDist = -1; for each d: if (d > bestDist) { best = it; bestDist = d; }`
   * over `ds`. Every distance exceeds -1, so the first entry is always kept,
   * and only `ds` being empty leaves nothing chosen; ties go to the earliest entry.
   */
  function FirstArgMax(ds: seq<Dist>): (r: Option<nat>)
    ensures r.Some? ==> IsFirstArgMax(ds, r.value)
    ensures r.None? <==> |ds| == 0
    decreases |ds|
  {
    if |ds| == 0 then None
    else
      var prev := FirstArgMax(ds[..|ds| - 1]);
      if prev.None? || Lt(ds[prev.value], ds[|ds| - 1]) then Some(|ds| - 1) else prev
  }

  /** The first-wins minimum is unique: any index meeting the description is the one the scan returns. */
  lemma FirstArgMinIsUnique(ds: seq<Dist>, i: nat)
    requires IsFirstArgMin(ds, i)
    ensures FirstArgMin(ds) == Some(i)
  {
    var r := FirstArgMin(ds);
    assert r.Some?;
    assert IsFirstArgMin(ds, r.value);
  }

  /** The first-wins maximum is unique: any index meeting the description is the one the scan returns. */
  lemma FirstArgMaxIsUnique(ds: seq<Dist>, i: nat)
    requires IsFirstArgMax(ds, i)
    ensures FirstArgMax(ds) == Some(i)
  {
    var r := FirstArgMax(ds);
    assert r.Some?;
    assert IsFirstArgMax(ds, r.value);
  }
}
