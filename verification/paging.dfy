/** The skip-then-take window `retrieveUsers` applies to the filtered users. */
module Paging {

  /** How many leading entries a window skips: `$start` clamped to the list. */
  function Skipped(n: nat, start: int): (k: nat)
    ensures k <= n
  {
    if start <= 0 then 0 else if start < n then start else n
  }

  /** Whether the entry at position `j` of the filtered list is returned:
      it is at or after `start`, and when `limit` is positive it is one of
      the first `limit` such entries. */
  predicate InWindow(j: int, start: int, limit: int)
  {
    start <= j && (limit <= 0 || j < (if start < 0 then 0 else start) + limit)
  }

  /** The entries from position `start` on, at most `limit` of them when
      `limit` is positive and all of them otherwise. */
  function Window<T>(xs: seq<T>, start: int, limit: int): (w: seq<T>)
    ensures Skipped(|xs|, start) + |w| <= |xs| && (limit > 0 ==> |w| <= limit)
    ensures forall k :: 0 <= k < |w| ==> w[k] == xs[Skipped(|xs|, start) + k]
    ensures forall j :: 0 <= j < |xs| ==>
              (InWindow(j, start, limit) <==> Skipped(|xs|, start) <= j < Skipped(|xs|, start) + |w|)
  {
    var from := Skipped(|xs|, start);
    var to := if limit > 0 && from + limit < |xs| then from + limit else |xs|;
    xs[from..to]
  }

  /** The entries from `start` on of a growing list, as `retrieveUsers`
      collects them: one more entry joins them exactly when its position
      is at or after `start`. */
  lemma TailStep<T>(p: seq<T>, x: T, start: int)
    ensures start <= |p| ==> (p + [x])[Skipped(|p| + 1, start)..] == p[Skipped(|p|, start)..] + [x]
    ensures start > |p| ==> (p + [x])[Skipped(|p| + 1, start)..] == p[Skipped(|p|, start)..] == []
  {
  }

  /** Once `limit` entries from `start` on are collected from a prefix of
      the list, they are the window of the whole list. */
  lemma TailOfPrefixIsWindow<T>(xs: seq<T>, p: seq<T>, start: int, limit: int)
    requires |p| <= |xs| && xs[..|p|] == p
    requires limit > 0 && start < |p| && |p| - Skipped(|p|, start) == limit
    ensures Window(xs, start, limit) == p[Skipped(|p|, start)..]
  {
  }

  /** When fewer than `limit` entries follow `start`, or there is no
      limit, the window is everything from `start` on. */
  lemma ShortTailIsWindow<T>(xs: seq<T>, start: int, limit: int)
    requires limit > 0 ==> |xs| - Skipped(|xs|, start) < limit
    ensures Window(xs, start, limit) == xs[Skipped(|xs|, start)..]
  {
  }

  /** A window that starts at 0 with no limit is the whole list. */
  lemma WindowAll<T>(xs: seq<T>, limit: int)
    requires limit <= 0
    ensures Window(xs, 0, limit) == xs
  {
    var w := Window(xs, 0, limit);
    assert |w| == |xs| by {
      if |xs| > 0 { assert InWindow(|xs| - 1, 0, limit); }
    }
  }

  /** A window fits inside the list: the entries before it, the window,
      and the entries after it make up the list again. */
  lemma WindowSplit<T>(xs: seq<T>, start: int, limit: int)
    ensures var k := Skipped(|xs|, start);
      xs == xs[..k] + Window(xs, start, limit) + xs[k + |Window(xs, start, limit)|..]
  {
    var k, w := Skipped(|xs|, start), Window(xs, start, limit);
    assert xs[k..k + |w|] == w;
  }

  /** Skipping two of five entries and taking two returns the third and
      the fourth. */
  lemma WindowTwoOfFive<T>(xs: seq<T>)
    requires |xs| == 5
    ensures Window(xs, 2, 2) == [xs[2], xs[3]]
  {
    var w := Window(xs, 2, 2);
    assert InWindow(3, 2, 2) && !InWindow(4, 2, 2);
  }
}
