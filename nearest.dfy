/**
 * Nearest-timestamp lookup on a time index, as done by
 * `Index.get_indexer([t], method='nearest')` on a monotonic increasing index.
 * The tie rule between two equally distant entries belongs to pandas, not to
 * the preprocessing code, so it is a parameter.
 */
module Nearest {
  import opened Rides

  /** Which of two equally distant index entries wins. pandas prefers the later one on an increasing index. */
  datatype Tie = PreferEarlier | PreferLater

  function Dist(a: int, t: int): nat {
    if a >= t then a - t else t - a
  }

  /** `v` beats `u` on a tie. */
  predicate WinsTie(v: int, u: int, tie: Tie) {
    if tie == PreferLater then v > u else v < u
  }

  /** `v` is the entry of `s` that a nearest lookup of `t` returns. */
  predicate IsNearest(v: int, s: set<int>, t: int, tie: Tie) {
    && v in s
    && forall u :: u in s ==>
         && Dist(v, t) <= Dist(u, t)
         && (u != v && Dist(u, t) == Dist(v, t) ==> WinsTie(v, u, tie))
  }

  /** The answer of a nearest lookup is determined by the set of entries. */
  lemma NearestIsUnique(v: int, w: int, s: set<int>, t: int, tie: Tie)
    requires IsNearest(v, s, t, tie) && IsNearest(w, s, t, tie)
    ensures v == w
  {
  }

  /** Dropping entries other than the answer does not change the answer. */
  lemma NearestSurvivesRemoval(v: int, s: set<int>, s': set<int>, t: int, tie: Tie)
    requires IsNearest(v, s, t, tie) && v in s' && s' <= s
    ensures IsNearest(v, s', t, tie)
  {
  }

  /** An entry equal to the looked-up time is its own nearest entry. */
  lemma ExactMatchIsNearest(s: set<int>, t: int, tie: Tie)
    requires t in s
    ensures IsNearest(t, s, t, tie)
  {
  }

  /** Whether an entry `x` later than every other entry replaces the best answer `v` so far. */
  predicate LaterReplaces(x: int, v: int, t: int, tie: Tie) {
    if tie == PreferLater then Dist(x, t) <= Dist(v, t) else Dist(x, t) < Dist(v, t)
  }

  /** Adding an entry later than all others: the answer is the new entry or the old answer. */
  lemma NearestOfExtension(v: int, s: set<int>, x: int, t: int, tie: Tie)
    requires IsNearest(v, s, t, tie) && forall u :: u in s ==> u < x
    ensures LaterReplaces(x, v, t, tie) ==> IsNearest(x, s + {x}, t, tie)
    ensures !LaterReplaces(x, v, t, tie) ==> IsNearest(v, s + {x}, t, tie)
  {
  }

  /** An increasing index is its entries before the last, all smaller, plus the last. */
  lemma SplitLast(xs: seq<int>, init: seq<int>)
    requires |xs| > 1 && Increasing(xs) && init == xs[..|xs| - 1]
    ensures Increasing(init)
    ensures Elems(xs) == Elems(init) + {xs[|init|]}
    ensures forall u :: u in Elems(init) ==> u < xs[|init|]
  {
    var n := |init|;
    assert xs == init + [xs[n]];
    forall u | u in Elems(init) ensures u < xs[n] {
      var i :| 0 <= i < n && init[i] == u;
    }
  }

  /** Position of the entry a nearest lookup of `t` returns, scanning the index left to right. */
  function NearestIndex(xs: seq<int>, t: int, tie: Tie): (k: nat)
    requires |xs| > 0 && Increasing(xs)
    ensures k < |xs| && IsNearest(xs[k], Elems(xs), t, tie)
  {
    if |xs| == 1 then
      assert Elems(xs) == {xs[0]};
      0
    else
      var n := |xs| - 1;
      var init := xs[..n];
      SplitLast(xs, init);
      var j := NearestIndex(init, t, tie);
      assert init[j] == xs[j];
      NearestOfExtension(xs[j], Elems(init), xs[n], t, tie);
      if LaterReplaces(xs[n], xs[j], t, tie) then n else j
  }

  /** The value a nearest lookup of `t` returns. */
  function NearestValue(xs: seq<int>, t: int, tie: Tie): (v: int)
    requires |xs| > 0 && Increasing(xs)
    ensures v in xs && IsNearest(v, Elems(xs), t, tie)
  {
    xs[NearestIndex(xs, t, tie)]
  }
}
