/**
 * The greedy max-min ("farthest point") loop of `select_dispersed_cities`.
 *
 * It works on positions into the coordinate sequence of the valid rows, in the
 * order those rows had before the population sort: the list of picks is seeded
 * with position 0 and grows by the unpicked position whose minimum distance to
 * the picks so far is largest, ties going to the lowest position.
 */
module Greedy {
  import opened Cities

  /** `np.argmax`: the first position holding the largest value. */
  function FirstArgMax(s: seq<int>): (k: nat)
    requires |s| > 0
    ensures k < |s|
    ensures forall j :: 0 <= j < |s| ==> s[j] <= s[k]
    ensures forall j :: 0 <= j < k ==> s[j] < s[k]
  {
    if |s| == 1 then 0
    else
      var k := FirstArgMax(s[..|s| - 1]);
      if s[|s| - 1] > s[k] then |s| - 1 else k
  }

  /** The points at the given positions (`coords_rad[selected_indices]`). */
  function Pick(points: seq<Point>, chosen: seq<nat>): (ps: seq<Point>)
    requires forall k :: 0 <= k < |chosen| ==> chosen[k] < |points|
    ensures |ps| == |chosen|
    ensures forall k :: 0 <= k < |chosen| ==> ps[k] == points[chosen[k]]
  {
    seq(|chosen|, k requires 0 <= k < |chosen| => points[chosen[k]])
  }

  /**
   * The entry the greedy loop writes for position `j`: -1 when `j` is already
   * picked, otherwise the isolation score of `points[j]`, its minimum distance
   * to the picked points.
   */
  function Score(points: seq<Point>, chosen: seq<nat>, j: nat, dist: Distance): int
    requires j < |points| && |chosen| > 0
    requires forall k :: 0 <= k < |chosen| ==> chosen[k] < |points|
  {
    if j in chosen then -1 else MinDistTo(points[j], Pick(points, chosen), dist)
  }

  /**
   * `k` is the pick the greedy makes after `chosen`: an unpicked position whose
   * isolation score is at least that of every unpicked position and strictly
   * above that of every unpicked position before it.
   */
  ghost predicate IsFarthestPick(points: seq<Point>, chosen: seq<nat>, k: nat, dist: Distance)
    requires |chosen| > 0
    requires forall c :: 0 <= c < |chosen| ==> chosen[c] < |points|
  {
    && k < |points|
    && k !in chosen
    && (forall j :: 0 <= j < |points| && j !in chosen ==> Score(points, chosen, j, dist) <= Score(points, chosen, k, dist))
    && (forall j :: 0 <= j < k && j !in chosen ==> Score(points, chosen, j, dist) < Score(points, chosen, k, dist))
  }

  /** The tie-break leaves no choice: at most one position is the greedy's pick. */
  lemma FarthestPickIsUnique(points: seq<Point>, chosen: seq<nat>, k: nat, k': nat, dist: Distance)
    requires |chosen| > 0
    requires forall c :: 0 <= c < |chosen| ==> chosen[c] < |points|
    requires IsFarthestPick(points, chosen, k, dist) && IsFarthestPick(points, chosen, k', dist)
    ensures k == k'
  {
  }

  /** The elements of `s` other than `v`, in order. */
  function Remove(s: seq<nat>, v: nat): (r: seq<nat>)
    ensures forall x :: x in r <==> x in s && x != v
    ensures v in s ==> |r| < |s|
    ensures |r| <= |s|
  {
    if s == [] then []
    else if s[0] == v then Remove(s[1..], v)
    else [s[0]] + Remove(s[1..], v)
  }

  /** Fewer than `n` positions below `n` leave some position below `n` out. */
  lemma {:induction false} SomePositionUnpicked(chosen: seq<nat>, n: nat)
    requires |chosen| < n
    requires forall k :: 0 <= k < |chosen| ==> chosen[k] < n
    ensures exists j :: 0 <= j < n && j !in chosen
    decreases n
  {
    if n - 1 !in chosen {
      assert 0 <= n - 1 < n;
    } else {
      var rest := Remove(chosen, n - 1);
      forall k | 0 <= k < |rest| ensures rest[k] < n - 1 {
        assert rest[k] in rest;
      }
      SomePositionUnpicked(rest, n - 1);
      var j :| 0 <= j < n - 1 && j !in rest;
      assert j !in chosen;
    }
  }

  /**
   * One round of the loop (lines 195-215): score every position, -1 for those
   * already picked, and take the first position of the largest score. Some
   * position is still unpicked, so the -1 sentinel never wins.
   */
  method NextPick(points: seq<Point>, sel: seq<nat>, dist: Distance) returns (next: nat)
    requires 0 < |sel| < |points|
    requires forall k :: 0 <= k < |sel| ==> sel[k] < |points|
    ensures IsFarthestPick(points, sel, next, dist)
  {
    var scores: seq<int> := [];
    var j := 0;
    while j < |points|
      invariant 0 <= j <= |points| && |scores| == j
      invariant forall t :: 0 <= t < j ==> scores[t] == Score(points, sel, t, dist)
    {
      if j in sel {
        scores := scores + [-1];
      } else {
        scores := scores + [MinDistTo(points[j], Pick(points, sel), dist)];
      }
      j := j + 1;
    }
    SomePositionUnpicked(sel, |points|);
    var u :| 0 <= u < |points| && u !in sel;
    assert scores[u] >= 0;
    next := FirstArgMax(scores);
  }

  /**
   * The loop at lines 191-216: `n` is the target after the caller has lowered it
   * to the number of valid rows. The list is seeded with position 0 before the
   * loop, so it holds one position even when `n <= 1` (and even when there are no
   * points at all, in which case the caller's row lookup fails).
   */
  method SelectPositions(points: seq<Point>, n: int, dist: Distance) returns (sel: seq<nat>)
    requires n <= |points|
    ensures |sel| == if n <= 1 then 1 else n
    ensures sel[0] == 0
    ensures |points| > 0 ==> forall k :: 0 <= k < |sel| ==> sel[k] < |points|
    ensures forall a, b :: 0 <= a < b < |sel| ==> sel[a] != sel[b]
    ensures forall r :: 1 <= r < |sel| ==> IsFarthestPick(points, sel[..r], sel[r], dist)
  {
    sel := [0];
    var i := 1;
    while i < n
      invariant 1 <= i && |sel| == i
      invariant n >= 1 ==> i <= n
      invariant n <= 1 ==> i == 1
      invariant i > 1 ==> |points| > 1
      invariant sel[0] == 0
      invariant |points| > 0 ==> forall k :: 0 <= k < |sel| ==> sel[k] < |points|
      invariant forall a, b :: 0 <= a < b < |sel| ==> sel[a] != sel[b]
      invariant forall r :: 1 <= r < |sel| ==> IsFarthestPick(points, sel[..r], sel[r], dist)
      decreases n - i
    {
      var next := NextPick(points, sel, dist);
      var sel' := sel + [next];
      assert forall r :: 1 <= r < |sel| ==> sel'[..r] == sel[..r];
      assert sel'[..|sel|] == sel;
      sel := sel';
      i := i + 1;
    }
  }
}
