/**
 * The local-repair loop of `post_process_city_selection`.
 *
 * The selection is a table whose index labels are its slot numbers 0..k-1 (the
 * greedy stage resets them before calling the repair). Each round finds the
 * first closest pair, and while that pair is closer than the floor it tries to
 * swap the less populous member for the candidate that lies farthest from the
 * remaining members. Candidates are skipped when their label is in an exclusion
 * set that starts as the selection's labels {0..k-1}, a different label space
 * from the candidate table's labels; the set changes only when a swap removes
 * the replaced slot's label and adds the newcomer's label.
 */
module Repair {
  import opened Wrappers
  import opened Cities

  /** A pair of slots i < j and the distance between them. */
  datatype Pair = Pair(i: nat, j: nat, d: nat)

  /** The distance between the members in slots a and b. */
  function PairDist(s: seq<City>, a: nat, b: nat, dist: Distance): nat
    requires a < |s| && b < |s|
  {
    dist(s[a].point, s[b].point)
  }

  /** The minimum distance from the first member to the later ones (row 0 of the scan). */
  function FirstRowMin(s: seq<City>, dist: Distance): (m: nat)
    requires |s| >= 2
    ensures forall j :: 1 <= j < |s| ==> m <= PairDist(s, 0, j, dist)
    ensures exists j :: 1 <= j < |s| && m == PairDist(s, 0, j, dist)
  {
    var tail := Points(s[1..]);
    var m := MinDistTo(s[0].point, tail, dist);
    assert forall j :: 1 <= j < |s| ==> s[j].point == tail[j - 1] && tail[j - 1] in tail;
    var k :| 0 <= k < |tail| && m == dist(s[0].point, tail[k]);
    assert m == PairDist(s, 0, k + 1, dist);
    m
  }

  /**
   * The smaller of the first row's minimum and the tail's minimum pairwise distance
   * is the minimum pairwise distance of the whole selection.
   */
  lemma CombineRows(s: seq<City>, head: nat, rest: nat, d: nat, dist: Distance)
    requires |s| >= 3 && d == (if head <= rest then head else rest)
    requires forall j :: 1 <= j < |s| ==> head <= PairDist(s, 0, j, dist)
    requires exists j :: 1 <= j < |s| && head == PairDist(s, 0, j, dist)
    requires forall i, j :: 0 <= i < j < |s| - 1 ==> rest <= PairDist(s[1..], i, j, dist)
    requires exists i, j :: 0 <= i < j < |s| - 1 && rest == PairDist(s[1..], i, j, dist)
    ensures forall i, j :: 0 <= i < j < |s| ==> d <= PairDist(s, i, j, dist)
    ensures exists i, j :: 0 <= i < j < |s| && d == PairDist(s, i, j, dist)
  {
    forall i, j | 0 <= i < j < |s| ensures d <= PairDist(s, i, j, dist) {
      if i > 0 {
        assert PairDist(s, i, j, dist) == PairDist(s[1..], i - 1, j - 1, dist);
      }
    }
    if head <= rest {
      var j :| 1 <= j < |s| && head == PairDist(s, 0, j, dist);
      assert d == PairDist(s, 0, j, dist);
    } else {
      var a, b :| 0 <= a < b < |s| - 1 && rest == PairDist(s[1..], a, b, dist);
      assert d == PairDist(s, a + 1, b + 1, dist);
    }
  }

  /** The minimum distance over all pairs i < j of the selection. */
  function MinPairDist(s: seq<City>, dist: Distance): (d: nat)
    requires |s| >= 2
    ensures forall i, j :: 0 <= i < j < |s| ==> d <= PairDist(s, i, j, dist)
    ensures exists i, j :: 0 <= i < j < |s| && d == PairDist(s, i, j, dist)
  {
    var head := FirstRowMin(s, dist);
    if |s| == 2 then head
    else
      var rest := MinPairDist(s[1..], dist);
      var d := if head <= rest then head else rest;
      CombineRows(s, head, rest, d, dist);
      d
  }

  /** A pair no farther apart than any other pair sits at the minimum distance. */
  lemma MinIsPair(s: seq<City>, i: nat, j: nat, dist: Distance)
    requires i < j < |s|
    requires forall a, b :: 0 <= a < b < |s| ==> PairDist(s, i, j, dist) <= PairDist(s, a, b, dist)
    ensures MinPairDist(s, dist) == PairDist(s, i, j, dist)
  {
    var a, b :| 0 <= a < b < |s| && MinPairDist(s, dist) == PairDist(s, a, b, dist);
  }

  /** A lower bound on every pair's distance is a lower bound on the minimum. */
  lemma MinAtLeast(s: seq<City>, m: nat, dist: Distance)
    requires |s| >= 2
    requires forall a, b :: 0 <= a < b < |s| ==> m <= PairDist(s, a, b, dist)
    ensures m <= MinPairDist(s, dist)
  {
    var a, b :| 0 <= a < b < |s| && MinPairDist(s, dist) == PairDist(s, a, b, dist);
  }

  /**
   * (i, j) is the pair the scan settles on: no pair is closer, and, because only a
   * strictly smaller distance replaces the running minimum, every pair scanned
   * before it is strictly farther apart.
   */
  ghost predicate IsFirstClosestPair(s: seq<City>, i: nat, j: nat, dist: Distance)
  {
    && i < j < |s|
    && (forall a, b :: 0 <= a < b < |s| ==> PairDist(s, i, j, dist) <= PairDist(s, a, b, dist))
    && (forall a, b :: 0 <= a < b < |s| && (a < i || (a == i && b < j)) ==>
          PairDist(s, i, j, dist) < PairDist(s, a, b, dist))
  }

  /** The strict comparison leaves no choice: at most one pair is the scan's pair. */
  lemma FirstClosestPairIsUnique(s: seq<City>, i: nat, j: nat, i': nat, j': nat, dist: Distance)
    requires IsFirstClosestPair(s, i, j, dist) && IsFirstClosestPair(s, i', j', dist)
    ensures i == i' && j == j'
  {
    // Both are minimal, so they are equally far apart, and neither can come first.
    assert PairDist(s, i, j, dist) == PairDist(s, i', j', dist);
  }

  /** The scan at lines 84-102; `None` stands for the `closest_pair is None` / infinite-minimum state. */
  method ClosestPair(s: seq<City>, dist: Distance) returns (found: Option<Pair>)
    ensures found.None? <==> |s| < 2
    ensures found.Some? ==> IsFirstClosestPair(s, found.value.i, found.value.j, dist)
    ensures found.Some? ==> found.value.d == PairDist(s, found.value.i, found.value.j, dist)
  {
    found := None;
    var i := 0;
    while i < |s|
      invariant 0 <= i <= |s|
      invariant found.None? ==> |s| < 2 || i == 0
      invariant found.Some? ==> found.value.i < found.value.j < |s| && found.value.i < i
      invariant found.Some? ==> found.value.d == PairDist(s, found.value.i, found.value.j, dist)
      invariant found.Some? ==> forall a, b :: 0 <= a < b < |s| && a < i ==>
                  found.value.d <= PairDist(s, a, b, dist)
      invariant found.Some? ==> forall a, b :: 0 <= a < b < |s| && (a < found.value.i || (a == found.value.i && b < found.value.j)) ==>
                  found.value.d < PairDist(s, a, b, dist)
    {
      var j := 0;
      while j < |s|
        invariant 0 <= j <= |s|
        invariant found.None? ==> |s| < 2 || (i == 0 && j <= 1)
        invariant found.Some? ==> found.value.i < found.value.j < |s|
        invariant found.Some? ==> found.value.i < i || (found.value.i == i && found.value.j < j)
        invariant found.Some? ==> found.value.d == PairDist(s, found.value.i, found.value.j, dist)
        invariant found.Some? ==> forall a, b :: 0 <= a < b < |s| && (a < i || (a == i && b < j)) ==>
                    found.value.d <= PairDist(s, a, b, dist)
        invariant found.Some? ==> forall a, b :: 0 <= a < b < |s| && (a < found.value.i || (a == found.value.i && b < found.value.j)) ==>
                    found.value.d < PairDist(s, a, b, dist)
      {
        if i < j {
          var d := PairDist(s, i, j, dist);
          if found.None? || d < found.value.d {
            found := Some(Pair(i, j, d));
          }
        }
        j := j + 1;
      }
      i := i + 1;
    }
  }

  /** The points of the members other than slot t, in slot order. */
  function Others(s: seq<City>, t: nat): (ps: seq<Point>)
    requires t < |s|
    ensures |ps| == |s| - 1
    ensures forall o {:trigger s[o]} :: 0 <= o < |s| && o != t ==> ps[if o < t then o else o - 1] == s[o].point
  {
    var ps := s[..t] + s[t + 1..];
    var qs := Points(ps);
    assert forall o :: 0 <= o < t ==> qs[o] == s[o].point;
    assert forall o :: t < o < |s| ==> qs[o - 1] == s[o].point;
    qs
  }

  /**
   * A candidate's isolation score while slot t is up for replacement: its minimum
   * distance to every other member.
   */
  function CandidateScore(p: Point, s: seq<City>, t: nat, dist: Distance): nat
    requires |s| >= 2 && t < |s|
  {
    MinDistTo(p, Others(s, t), dist)
  }

  /** The score is a lower bound on the candidate's distance to every other member. */
  lemma CandidateScoreBelowDistances(p: Point, s: seq<City>, t: nat, dist: Distance)
    requires |s| >= 2 && t < |s|
    ensures forall o :: 0 <= o < |s| && o != t ==> CandidateScore(p, s, t, dist) <= dist(p, s[o].point)
  {
    var ps := Others(s, t);
    forall o | 0 <= o < |s| && o != t
      ensures CandidateScore(p, s, t, dist) <= dist(p, s[o].point)
    {
      assert ps[if o < t then o else o - 1] == s[o].point;
    }
  }

  /** A value that is a distance to some other member and at most every such distance is the score. */
  lemma CandidateScoreIsMinimum(p: Point, s: seq<City>, t: nat, m: nat, dist: Distance)
    requires |s| >= 2 && t < |s|
    requires forall o :: 0 <= o < |s| && o != t ==> m <= dist(p, s[o].point)
    requires exists o :: 0 <= o < |s| && o != t && m == dist(p, s[o].point)
    ensures m == CandidateScore(p, s, t, dist)
  {
    var ps := Others(s, t);
    var k :| 0 <= k < |ps| && CandidateScore(p, s, t, dist) == dist(p, ps[k]);
    var o :| 0 <= o < |s| && o != t && m == dist(p, s[o].point);
    assert m <= CandidateScore(p, s, t, dist) by {
      var u := if k < t then k else k + 1;
      assert ps[k] == s[u].point;
    }
  }

  /**
   * The inner scan at lines 126-136: the running minimum (initially infinite) of the
   * candidate's distances to the members, skipping slot t.
   */
  method ScoreCandidate(p: Point, s: seq<City>, t: nat, dist: Distance) returns (score: nat)
    requires |s| >= 2 && t < |s|
    ensures score == CandidateScore(p, s, t, dist)
  {
    var running: Option<nat> := None;
    var o := 0;
    while o < |s|
      invariant 0 <= o <= |s|
      invariant running.None? <==> o == 0 || (o == 1 && t == 0)
      invariant running.Some? ==> forall u :: 0 <= u < o && u != t ==> running.value <= dist(p, s[u].point)
      invariant running.Some? ==> exists u :: 0 <= u < o && u != t && running.value == dist(p, s[u].point)
    {
      if o != t {
        var d := dist(p, s[o].point);
        if running.None? || d < running.value {
          running := Some(d);
        }
      }
      o := o + 1;
    }
    score := running.value;
    CandidateScoreIsMinimum(p, s, t, score, dist);
  }

  /**
   * Candidate k of the table is the one the replacement search settles on: its
   * label is not excluded, no eligible candidate scores higher, and every eligible
   * candidate before it scores strictly lower (only a strictly higher score
   * replaces the running best).
   */
  ghost predicate IsBestCandidate(pool: seq<Entry>, excluded: set<Key>, s: seq<City>, t: nat, k: nat, dist: Distance)
    requires |s| >= 2 && t < |s|
  {
    && k < |pool|
    && pool[k].key !in excluded
    && (forall c :: 0 <= c < |pool| && pool[c].key !in excluded ==>
          CandidateScore(pool[c].city.point, s, t, dist) <= CandidateScore(pool[k].city.point, s, t, dist))
    && (forall c :: 0 <= c < k && pool[c].key !in excluded ==>
          CandidateScore(pool[c].city.point, s, t, dist) < CandidateScore(pool[k].city.point, s, t, dist))
  }

  /** At most one candidate is the search's pick. */
  lemma BestCandidateIsUnique(pool: seq<Entry>, excluded: set<Key>, s: seq<City>, t: nat, k: nat, k': nat, dist: Distance)
    requires |s| >= 2 && t < |s|
    requires IsBestCandidate(pool, excluded, s, t, k, dist) && IsBestCandidate(pool, excluded, s, t, k', dist)
    ensures k == k'
  {
  }

  /**
   * The replacement search at lines 118-142. The running best starts at 0 and only
   * a strictly larger score is taken, so no candidate is found when every eligible
   * candidate scores 0.
   */
  method BestReplacement(pool: seq<Entry>, excluded: set<Key>, s: seq<City>, t: nat, dist: Distance)
    returns (best: Option<nat>, bestScore: nat)
    requires |s| >= 2 && t < |s|
    ensures best.None? ==> bestScore == 0
    ensures best.None? ==> forall c :: 0 <= c < |pool| && pool[c].key !in excluded ==>
              CandidateScore(pool[c].city.point, s, t, dist) == 0
    ensures best.Some? ==> IsBestCandidate(pool, excluded, s, t, best.value, dist)
    ensures best.Some? ==> bestScore == CandidateScore(pool[best.value].city.point, s, t, dist) > 0
  {
    best, bestScore := None, 0;
    var k := 0;
    while k < |pool|
      invariant 0 <= k <= |pool|
      invariant best.None? ==> bestScore == 0
      invariant forall c :: 0 <= c < k && pool[c].key !in excluded ==>
                  CandidateScore(pool[c].city.point, s, t, dist) <= bestScore
      invariant best.Some? ==> best.value < k && pool[best.value].key !in excluded
      invariant best.Some? ==> bestScore == CandidateScore(pool[best.value].city.point, s, t, dist) > 0
      invariant best.Some? ==> forall c :: 0 <= c < best.value && pool[c].key !in excluded ==>
                  CandidateScore(pool[c].city.point, s, t, dist) < bestScore
    {
      ghost var before := bestScore;
      if pool[k].key !in excluded {
        var score := ScoreCandidate(pool[k].city.point, s, t, dist);
        if score > bestScore {
          best, bestScore := Some(k), score;
        }
        assert CandidateScore(pool[k].city.point, s, t, dist) <= bestScore;
      }
      assert before <= bestScore;
      forall c | 0 <= c < k + 1 && pool[c].key !in excluded
        ensures CandidateScore(pool[c].city.point, s, t, dist) <= bestScore
      {
        if c < k {
          assert CandidateScore(pool[c].city.point, s, t, dist) <= before;
        }
      }
      k := k + 1;
    }
  }

  /** The outcome of one round of the repair loop. */
  datatype Decision =
    | Converged
    | Stalled(pair: Pair, target: nat)
    | Swap(pair: Pair, target: nat, candidate: nat, score: nat)

  /** Fewer than two members, or no pair closer than the floor: the loop stops at once. */
  ghost predicate IsConverged(s: seq<City>, minDistanceKm: int, dist: Distance)
  {
    |s| < 2 || MinPairDist(s, dist) >= minDistanceKm
  }

  /**
   * `pair` is the first closest pair, it violates the floor, and `target` is its
   * first member when that one is strictly less populous, its second otherwise.
   */
  ghost predicate IsViolation(s: seq<City>, pair: Pair, target: nat, minDistanceKm: int, dist: Distance)
  {
    && IsFirstClosestPair(s, pair.i, pair.j, dist)
    && pair.d == PairDist(s, pair.i, pair.j, dist)
    && pair.d < minDistanceKm
    && target == (if s[pair.i].population < s[pair.j].population then pair.i else pair.j)
  }

  /** No eligible candidate scores above d while slot t is up for replacement. */
  ghost predicate NoImprovingCandidate(pool: seq<Entry>, excluded: set<Key>, s: seq<City>, t: nat, d: nat, dist: Distance)
    requires |s| >= 2 && t < |s|
  {
    forall c :: 0 <= c < |pool| && pool[c].key !in excluded ==> CandidateScore(pool[c].city.point, s, t, dist) <= d
  }

  /**
   * One round of the loop up to the swap (lines 84-145): scan for the closest pair,
   * stop if it respects the floor, pick the removal target by population, search
   * for the best replacement and keep it only if it beats the violating distance.
   */
  method Decide(s: seq<City>, pool: seq<Entry>, excluded: set<Key>, minDistanceKm: int, dist: Distance)
    returns (dec: Decision)
    ensures dec.Converged? <==> IsConverged(s, minDistanceKm, dist)
    ensures !dec.Converged? ==> IsViolation(s, dec.pair, dec.target, minDistanceKm, dist)
    ensures !dec.Converged? ==> dec.pair.d == MinPairDist(s, dist)
    ensures dec.Stalled? ==> NoImprovingCandidate(pool, excluded, s, dec.target, dec.pair.d, dist)
    ensures dec.Swap? ==> IsBestCandidate(pool, excluded, s, dec.target, dec.candidate, dist)
    ensures dec.Swap? ==> dec.score == CandidateScore(pool[dec.candidate].city.point, s, dec.target, dist)
    ensures dec.Swap? ==> dec.pair.d < dec.score
    ensures dec.Swap? ==> forall o :: 0 <= o < |s| && o != dec.target ==>
              dec.pair.d < dist(pool[dec.candidate].city.point, s[o].point)
  {
    var found := ClosestPair(s, dist);
    if found.None? {
      return Converged;
    }
    var pair := found.value;
    var a, b :| 0 <= a < b < |s| && MinPairDist(s, dist) == PairDist(s, a, b, dist);
    assert pair.d == MinPairDist(s, dist);
    if !(pair.d < minDistanceKm) {
      return Converged;
    }
    var target := if s[pair.i].population < s[pair.j].population then pair.i else pair.j;
    var best, bestScore := BestReplacement(pool, excluded, s, target, dist);
    if best.Some? && bestScore > pair.d {
      CandidateScoreBelowDistances(pool[best.value].city.point, s, target, dist);
      dec := Swap(pair, target, best.value, bestScore);
    } else {
      dec := Stalled(pair, target);
    }
  }

  /** The slot pairs i < j whose members lie at most m apart. */
  ghost function ClosePairs(s: seq<City>, m: nat, dist: Distance): set<(nat, nat)>
  {
    set a: nat, b: nat | a < b < |s| && PairDist(s, a, b, dist) <= m :: (a, b)
  }

  /** How far the closest pair falls short of the floor (0 once it does not). */
  ghost function Shortfall(s: seq<City>, minDistanceKm: int, dist: Distance): nat
  {
    if IsConverged(s, minDistanceKm, dist) then 0 else minDistanceKm - MinPairDist(s, dist)
  }

  /** How many pairs sit at the minimum pairwise distance. */
  ghost function Crowding(s: seq<City>, dist: Distance): nat
  {
    if |s| < 2 then 0 else |ClosePairs(s, MinPairDist(s, dist), dist)|
  }

  /**
   * With c in slot t, farther than m from every other member, every pair is at
   * least m apart, and a pair at most m apart avoids slot t and was already one.
   */
  lemma SwapKeepsPairsApart(s: seq<City>, s': seq<City>, t: nat, c: City, m: nat, dist: Distance)
    requires Symmetric(dist) && t < |s|
    requires s' == s[t := c]
    requires forall a, b :: 0 <= a < b < |s| ==> m <= PairDist(s, a, b, dist)
    requires forall o :: 0 <= o < |s| && o != t ==> m < dist(c.point, s[o].point)
    ensures forall a, b :: 0 <= a < b < |s| ==> m <= PairDist(s', a, b, dist)
    ensures forall a, b :: 0 <= a < b < |s| && PairDist(s', a, b, dist) <= m ==>
              a != t && b != t && PairDist(s, a, b, dist) <= m
  {
    forall a, b | 0 <= a < b < |s|
      ensures m <= PairDist(s', a, b, dist)
      ensures PairDist(s', a, b, dist) <= m ==> a != t && b != t && PairDist(s, a, b, dist) <= m
    {
      if a == t {
        assert PairDist(s', a, b, dist) == dist(c.point, s[b].point);
      } else if b == t {
        assert PairDist(s', a, b, dist) == dist(s[a].point, c.point) == dist(c.point, s[a].point);
      } else {
        assert PairDist(s', a, b, dist) == PairDist(s, a, b, dist);
      }
    }
  }

  /** Losing a close pair through slot t, and gaining none, leaves strictly fewer close pairs. */
  lemma FewerClosePairs(s: seq<City>, s': seq<City>, m: nat, i: nat, j: nat, t: nat, dist: Distance)
    requires |s'| == |s| && i < j < |s| && (t == i || t == j) && PairDist(s, i, j, dist) <= m
    requires forall a, b :: 0 <= a < b < |s| && PairDist(s', a, b, dist) <= m ==>
               a != t && b != t && PairDist(s, a, b, dist) <= m
    ensures |ClosePairs(s', m, dist)| < |ClosePairs(s, m, dist)|
  {
    var after, before := ClosePairs(s', m, dist), ClosePairs(s, m, dist);
    assert after <= before;
    assert (i, j) in before - after;
    assert before == after + (before - after);
  }

  /**
   * Putting c in slot t of a closest pair, when c is farther than the minimum from
   * every other member, keeps every pair at least that far apart and leaves fewer
   * pairs at the minimum: the pairs through slot t all move away, the others stay.
   */
  lemma SwapSpreadsPairs(s: seq<City>, i: nat, j: nat, t: nat, c: City, dist: Distance)
    requires Symmetric(dist)
    requires i < j < |s| && (t == i || t == j)
    requires forall a, b :: 0 <= a < b < |s| ==> PairDist(s, i, j, dist) <= PairDist(s, a, b, dist)
    requires forall o :: 0 <= o < |s| && o != t ==> PairDist(s, i, j, dist) < dist(c.point, s[o].point)
    ensures MinPairDist(s[t := c], dist) >= MinPairDist(s, dist)
    ensures |ClosePairs(s[t := c], MinPairDist(s, dist), dist)| < |ClosePairs(s, MinPairDist(s, dist), dist)|
  {
    MinIsPair(s, i, j, dist);
    var m := MinPairDist(s, dist);
    var s' := s[t := c];
    SwapKeepsPairsApart(s, s', t, c, m, dist);
    MinAtLeast(s', m, dist);
    FewerClosePairs(s, s', m, i, j, t, dist);
  }

  /**
   * A swap made by the loop lowers the termination measure: either the shortfall of
   * the closest pair drops, or it stays and fewer pairs sit at the minimum.
   */
  lemma SwapMakesProgress(s: seq<City>, i: nat, j: nat, t: nat, c: City, minDistanceKm: int, dist: Distance)
    requires Symmetric(dist)
    requires i < j < |s| && (t == i || t == j)
    requires forall a, b :: 0 <= a < b < |s| ==> PairDist(s, i, j, dist) <= PairDist(s, a, b, dist)
    requires PairDist(s, i, j, dist) < minDistanceKm
    requires forall o :: 0 <= o < |s| && o != t ==> PairDist(s, i, j, dist) < dist(c.point, s[o].point)
    ensures MinPairDist(s[t := c], dist) >= MinPairDist(s, dist)
    ensures Shortfall(s[t := c], minDistanceKm, dist) < Shortfall(s, minDistanceKm, dist)
         || (Shortfall(s[t := c], minDistanceKm, dist) == Shortfall(s, minDistanceKm, dist)
             && Crowding(s[t := c], dist) < Crowding(s, dist))
  {
    MinIsPair(s, i, j, dist);
    var m := MinPairDist(s, dist);
    SwapSpreadsPairs(s, i, j, t, c, dist);
    var s' := s[t := c];
    var m' := MinPairDist(s', dist);
    assert !IsConverged(s, minDistanceKm, dist);
    assert Shortfall(s, minDistanceKm, dist) == minDistanceKm - m;
    if m' == m {
      assert Shortfall(s', minDistanceKm, dist) == minDistanceKm - m;
      assert Crowding(s', dist) == |ClosePairs(s', m, dist)|;
      assert Crowding(s, dist) == |ClosePairs(s, m, dist)|;
    } else if m' < minDistanceKm {
      assert Shortfall(s', minDistanceKm, dist) == minDistanceKm - m';
    } else {
      assert Shortfall(s', minDistanceKm, dist) == 0;
    }
  }

  /** Every pair of members sits at a different point. */
  ghost predicate DistinctPoints(s: seq<City>)
  {
    forall a, b :: 0 <= a < b < |s| ==> s[a].point != s[b].point
  }

  /**
   * A newcomer farther than some d >= 0 from every other member cannot share a
   * point with one of them when the distance is zero between equal points.
   */
  lemma SwapKeepsPointsDistinct(s: seq<City>, t: nat, c: City, d: nat, dist: Distance)
    requires ZeroOnSelf(dist) && DistinctPoints(s) && t < |s|
    requires forall o :: 0 <= o < |s| && o != t ==> d < dist(c.point, s[o].point)
    ensures DistinctPoints(s[t := c])
  {
    var s' := s[t := c];
    forall a, b | 0 <= a < b < |s'| ensures s'[a].point != s'[b].point {
      if a == t {
        assert d < dist(c.point, s[b].point);
      } else if b == t {
        assert d < dist(c.point, s[a].point);
      }
    }
  }

  /**
   * s' is what a swap of the loop leaves: the same length, no smaller minimum pairwise
   * distance, a lower termination measure, and distinct points kept distinct when the
   * distance is zero between equal points.
   */
  ghost predicate Improves(s: seq<City>, s': seq<City>, minDistanceKm: int, dist: Distance)
  {
    && |s| >= 2 && |s'| == |s|
    && MinPairDist(s', dist) >= MinPairDist(s, dist)
    && (Shortfall(s', minDistanceKm, dist) < Shortfall(s, minDistanceKm, dist)
        || (Shortfall(s', minDistanceKm, dist) == Shortfall(s, minDistanceKm, dist)
            && Crowding(s', dist) < Crowding(s, dist)))
    && (ZeroOnSelf(dist) && DistinctPoints(s) ==> DistinctPoints(s'))
  }

  /**
   * Replacing the target of a violation by a city farther than the violating distance
   * from every other member improves the selection.
   */
  lemma ViolationSwapImproves(s: seq<City>, pair: Pair, t: nat, c: City, minDistanceKm: int, dist: Distance)
    requires Symmetric(dist) && IsViolation(s, pair, t, minDistanceKm, dist)
    requires forall o :: 0 <= o < |s| && o != t ==> pair.d < dist(c.point, s[o].point)
    ensures t < |s| && Improves(s, s[t := c], minDistanceKm, dist)
  {
    SwapMakesProgress(s, pair.i, pair.j, t, c, minDistanceKm, dist);
    if ZeroOnSelf(dist) && DistinctPoints(s) {
      SwapKeepsPointsDistinct(s, t, c, pair.d, dist);
    }
  }

  /** The round ended stalled: a violation whose target no eligible candidate beats. */
  ghost predicate IsStalled(s: seq<City>, pool: seq<Entry>, excluded: set<Key>, minDistanceKm: int, dist: Distance)
  {
    exists pair: Pair, t: nat ::
      && IsViolation(s, pair, t, minDistanceKm, dist)
      && |s| >= 2 && t < |s|
      && NoImprovingCandidate(pool, excluded, s, t, pair.d, dist)
  }

  /** The labels 0..n-1 of a table whose index was reset. */
  function SlotLabels(n: nat): (r: set<Key>)
    ensures forall k :: k in r <==> 0 <= k < n
  {
    if n == 0 then {} else SlotLabels(n - 1) + {n - 1}
  }

  /** City x is the record of some row of the candidate table. */
  ghost predicate InPool(x: City, pool: seq<Entry>)
  {
    exists e :: e in pool && e.city == x
  }

  /** Every slot holds its original member or the record of some candidate row. */
  ghost predicate DrawnFrom(s: seq<City>, selected: seq<City>, pool: seq<Entry>)
  {
    |s| == |selected| && forall k :: 0 <= k < |s| ==> s[k] == selected[k] || InPool(s[k], pool)
  }

  /** Putting a candidate row's record in a slot keeps every slot drawn from the two sources. */
  lemma SwapKeepsDrawn(s: seq<City>, selected: seq<City>, pool: seq<Entry>, t: nat, e: Entry)
    requires DrawnFrom(s, selected, pool) && t < |s| && e in pool
    ensures DrawnFrom(s[t := e.city], selected, pool)
  {
    assert InPool(e.city, pool);
  }

  /** What a round that goes on to swap settled on: the violating pair, the target slot, the candidate row. */
  datatype Step = Step(pair: Pair, target: nat, candidate: nat)

  /** The selection and the exclusion set between two rounds. */
  datatype Snapshot = Snapshot(cities: seq<City>, labels: set<Key>)

  /**
   * In state `snap` a round reaches the swap at lines 147-149: `step.pair` is the first
   * closest pair and violates the floor, `step.target` is its member chosen by
   * population, and `step.candidate` is the best non-excluded candidate, whose score
   * beats the violating distance.
   */
  ghost predicate IsSwapDecision(snap: Snapshot, step: Step, pool: seq<Entry>, minDistanceKm: int, dist: Distance)
  {
    && IsViolation(snap.cities, step.pair, step.target, minDistanceKm, dist)
    && |snap.cities| >= 2 && step.target < |snap.cities|
    && step.candidate < |pool|
    && IsBestCandidate(pool, snap.labels, snap.cities, step.target, step.candidate, dist)
    && step.pair.d < CandidateScore(pool[step.candidate].city.point, snap.cities, step.target, dist)
  }

  /**
   * A completed round: the swap decided in `before` overwrites the target's slot with
   * the candidate's record and moves the exclusion set from the target's label to
   * the candidate's label; the removal succeeds because the target's label is there.
   */
  ghost predicate IsSwapRound(before: Snapshot, step: Step, after: Snapshot, pool: seq<Entry>, minDistanceKm: int,
                              dist: Distance)
  {
    && IsSwapDecision(before, step, pool, minDistanceKm, dist)
    && step.target in before.labels
    && after == Snapshot(before.cities[step.target := pool[step.candidate].city],
                         before.labels - {step.target} + {pool[step.candidate].key})
  }

  /**
   * A round that fails: the swap decided in `before` has already overwritten the
   * target's slot when removing the target's label raises KeyError, because the
   * exclusion set no longer holds that label; the set is left as it was.
   */
  ghost predicate IsFailedRound(before: Snapshot, step: Step, after: Snapshot, pool: seq<Entry>, minDistanceKm: int,
                                dist: Distance)
  {
    && IsSwapDecision(before, step, pool, minDistanceKm, dist)
    && step.target !in before.labels
    && after == Snapshot(before.cities[step.target := pool[step.candidate].city], before.labels)
  }

  /** `trace` lists the states of the loop, each reached from the one before by the matching round of `steps`. */
  ghost predicate IsRun(trace: seq<Snapshot>, steps: seq<Step>, pool: seq<Entry>, minDistanceKm: int, dist: Distance)
  {
    && |trace| == |steps| + 1
    && forall r {:trigger steps[r]} :: 0 <= r < |steps| ==>
         IsSwapRound(trace[r], steps[r], trace[r + 1], pool, minDistanceKm, dist)
  }

  /** Round r of a run. */
  lemma RunRound(trace: seq<Snapshot>, steps: seq<Step>, pool: seq<Entry>, minDistanceKm: int, dist: Distance, r: nat)
    requires IsRun(trace, steps, pool, minDistanceKm, dist) && r < |steps|
    ensures IsSwapRound(trace[r], steps[r], trace[r + 1], pool, minDistanceKm, dist)
  {
  }

  /**
   * A state in which a swap is due is neither converged nor stalled, so the loop
   * cannot stop there: together with the uniqueness of the closest pair and of the
   * best candidate, a state fixes what the round does.
   */
  lemma SwapDecisionRulesOutStop(snap: Snapshot, step: Step, pool: seq<Entry>, minDistanceKm: int, dist: Distance)
    requires IsSwapDecision(snap, step, pool, minDistanceKm, dist)
    ensures !IsConverged(snap.cities, minDistanceKm, dist)
    ensures !IsStalled(snap.cities, pool, snap.labels, minDistanceKm, dist)
  {
    var s := snap.cities;
    MinIsPair(s, step.pair.i, step.pair.j, dist);
  }

  /** Appending a completed round to a run gives a run. */
  lemma RunExtends(trace: seq<Snapshot>, steps: seq<Step>, step: Step, after: Snapshot, pool: seq<Entry>,
                   minDistanceKm: int, dist: Distance)
    requires IsRun(trace, steps, pool, minDistanceKm, dist)
    requires IsSwapRound(trace[|trace| - 1], step, after, pool, minDistanceKm, dist)
    ensures IsRun(trace + [after], steps + [step], pool, minDistanceKm, dist)
  {
    var trace', steps' := trace + [after], steps + [step];
    forall r | 0 <= r < |steps'|
      ensures IsSwapRound(trace'[r], steps'[r], trace'[r + 1], pool, minDistanceKm, dist)
    {
      if r < |steps| {
        assert trace'[r] == trace[r] && trace'[r + 1] == trace[r + 1] && steps'[r] == steps[r];
      } else {
        assert trace'[r] == trace[|trace| - 1] && trace'[r + 1] == after && steps'[r] == step;
      }
    }
  }

  /** A completed round improves the selection and draws the newcomer from the candidate table. */
  lemma SwapRoundImproves(before: Snapshot, step: Step, after: Snapshot, pool: seq<Entry>, minDistanceKm: int,
                          dist: Distance)
    requires Symmetric(dist) && IsSwapRound(before, step, after, pool, minDistanceKm, dist)
    ensures Improves(before.cities, after.cities, minDistanceKm, dist)
    ensures after.cities == before.cities[step.target := pool[step.candidate].city]
  {
    var c := pool[step.candidate].city;
    CandidateScoreBelowDistances(c.point, before.cities, step.target, dist);
    ViolationSwapImproves(before.cities, step.pair, step.target, c, minDistanceKm, dist);
  }

  /** Every state of a run has as many slots as the first. */
  lemma {:induction false} RunKeepsLength(trace: seq<Snapshot>, steps: seq<Step>, pool: seq<Entry>, minDistanceKm: int,
                                          dist: Distance, r: nat)
    requires IsRun(trace, steps, pool, minDistanceKm, dist) && r < |trace|
    ensures |trace[r].cities| == |trace[0].cities|
  {
    if r > 0 {
      RunKeepsLength(trace, steps, pool, minDistanceKm, dist, r - 1);
      RunRound(trace, steps, pool, minDistanceKm, dist, r - 1);
    }
  }

  /** Every slot of every state of a run holds its first record or a record of the candidate table. */
  lemma {:induction false} RunStaysDrawn(trace: seq<Snapshot>, steps: seq<Step>, pool: seq<Entry>, minDistanceKm: int,
                                         dist: Distance, r: nat)
    requires IsRun(trace, steps, pool, minDistanceKm, dist) && r < |trace|
    ensures DrawnFrom(trace[r].cities, trace[0].cities, pool)
  {
    if r == 0 {
      assert DrawnFrom(trace[0].cities, trace[0].cities, pool);
    } else {
      RunStaysDrawn(trace, steps, pool, minDistanceKm, dist, r - 1);
      var step := steps[r - 1];
      assert IsSwapRound(trace[r - 1], step, trace[r], pool, minDistanceKm, dist);
      SwapKeepsDrawn(trace[r - 1].cities, trace[0].cities, pool, step.target, pool[step.candidate]);
    }
  }

  /** One round of a run keeps the length and does not lower the minimum pairwise distance. */
  lemma RunStepNeverCloser(trace: seq<Snapshot>, steps: seq<Step>, pool: seq<Entry>, minDistanceKm: int,
                           dist: Distance, r: nat)
    requires Symmetric(dist) && IsRun(trace, steps, pool, minDistanceKm, dist) && r < |steps|
    requires |trace[r].cities| >= 2
    ensures |trace[r + 1].cities| == |trace[r].cities|
    ensures MinPairDist(trace[r + 1].cities, dist) >= MinPairDist(trace[r].cities, dist)
  {
    RunRound(trace, steps, pool, minDistanceKm, dist, r);
    SwapRoundImproves(trace[r], steps[r], trace[r + 1], pool, minDistanceKm, dist);
  }

  /** No state of a run has a smaller minimum pairwise distance than the first. */
  lemma {:induction false} RunNeverCloser(trace: seq<Snapshot>, steps: seq<Step>, pool: seq<Entry>, minDistanceKm: int,
                                          dist: Distance, r: nat)
    requires Symmetric(dist) && IsRun(trace, steps, pool, minDistanceKm, dist) && r < |trace|
    requires |trace[0].cities| >= 2
    ensures |trace[r].cities| >= 2
    ensures MinPairDist(trace[r].cities, dist) >= MinPairDist(trace[0].cities, dist)
  {
    if r > 0 {
      var q := r - 1;
      RunNeverCloser(trace, steps, pool, minDistanceKm, dist, q);
      assert q < |steps| == |trace| - 1;
      RunStepNeverCloser(trace, steps, pool, minDistanceKm, dist, q);
      assert q + 1 == r;
    }
  }

  /** When equal points are at distance zero, one round of a run keeps the points distinct. */
  lemma RunStepKeepsDistinct(trace: seq<Snapshot>, steps: seq<Step>, pool: seq<Entry>, minDistanceKm: int,
                             dist: Distance, r: nat)
    requires Symmetric(dist) && ZeroOnSelf(dist) && IsRun(trace, steps, pool, minDistanceKm, dist) && r < |steps|
    requires DistinctPoints(trace[r].cities)
    ensures DistinctPoints(trace[r + 1].cities)
  {
    RunRound(trace, steps, pool, minDistanceKm, dist, r);
    SwapRoundImproves(trace[r], steps[r], trace[r + 1], pool, minDistanceKm, dist);
  }

  /** When equal points are at distance zero, a run that starts with distinct points keeps them distinct. */
  lemma {:induction false} RunKeepsDistinct(trace: seq<Snapshot>, steps: seq<Step>, pool: seq<Entry>,
                                            minDistanceKm: int, dist: Distance, r: nat)
    requires Symmetric(dist) && ZeroOnSelf(dist) && IsRun(trace, steps, pool, minDistanceKm, dist) && r < |trace|
    requires DistinctPoints(trace[0].cities)
    ensures DistinctPoints(trace[r].cities)
  {
    if r > 0 {
      var q := r - 1;
      RunKeepsDistinct(trace, steps, pool, minDistanceKm, dist, q);
      assert q < |steps| == |trace| - 1;
      RunStepKeepsDistinct(trace, steps, pool, minDistanceKm, dist, q);
      assert q + 1 == r;
    }
  }

  /** What holds of the last state of a run compared with its first. */
  lemma RunEnd(trace: seq<Snapshot>, steps: seq<Step>, pool: seq<Entry>, minDistanceKm: int, dist: Distance)
    requires Symmetric(dist) && IsRun(trace, steps, pool, minDistanceKm, dist)
    ensures |trace[|trace| - 1].cities| == |trace[0].cities|
    ensures DrawnFrom(trace[|trace| - 1].cities, trace[0].cities, pool)
    ensures |trace[0].cities| >= 2 ==>
              MinPairDist(trace[|trace| - 1].cities, dist) >= MinPairDist(trace[0].cities, dist)
    ensures ZeroOnSelf(dist) && DistinctPoints(trace[0].cities) ==> DistinctPoints(trace[|trace| - 1].cities)
  {
    var last := |trace| - 1;
    RunKeepsLength(trace, steps, pool, minDistanceKm, dist, last);
    RunStaysDrawn(trace, steps, pool, minDistanceKm, dist, last);
    if |trace[0].cities| >= 2 {
      RunNeverCloser(trace, steps, pool, minDistanceKm, dist, last);
    }
    if ZeroOnSelf(dist) && DistinctPoints(trace[0].cities) {
      RunKeepsDistinct(trace, steps, pool, minDistanceKm, dist, last);
    }
  }

  /** What one pass of the loop body did. */
  datatype RoundOutcome =
    | Done                              // no pair closer than the floor: `break`
    | Kept                              // no improving replacement: the loop flag stays false
    | Swapped(step: Step)
    | Failed(step: Step)                // the swap's `remove` raised KeyError

  /**
   * What a pass that ends with `outcome` did to the state: stop on a converged
   * selection or keep a stalled one, both unchanged; complete the decided swap; or
   * fail on it after the slot was overwritten.
   */
  ghost predicate RoundDid(outcome: RoundOutcome, before: Snapshot, after: Snapshot, pool: seq<Entry>,
                           minDistanceKm: int, dist: Distance)
  {
    match outcome
    case Done => after == before && IsConverged(before.cities, minDistanceKm, dist)
    case Kept => after == before && IsStalled(before.cities, pool, before.labels, minDistanceKm, dist)
    case Swapped(step) => IsSwapRound(before, step, after, pool, minDistanceKm, dist)
    case Failed(step) => IsFailedRound(before, step, after, pool, minDistanceKm, dist)
  }

  /**
   * One pass of the loop body (lines 81-155) on the selection array: decide, and on
   * a swap overwrite the target's slot and move the exclusion set from the target's
   * label to the newcomer's.
   */
  method RepairRound(improved: array<City>, ghost current: seq<City>, pool: seq<Entry>, selectedIndices: set<Key>,
                     minDistanceKm: int, dist: Distance)
    returns (outcome: RoundOutcome, newIndices: set<Key>)
    requires Symmetric(dist) && improved[..] == current
    modifies improved
    ensures RoundDid(outcome, Snapshot(current, selectedIndices), Snapshot(improved[..], newIndices),
                     pool, minDistanceKm, dist)
    ensures outcome.Swapped? ==> Improves(current, improved[..], minDistanceKm, dist)
  {
    newIndices := selectedIndices;
    var dec := Decide(improved[..], pool, selectedIndices, minDistanceKm, dist);
    if dec.Converged? {
      return Done, newIndices;
    }
    if dec.Stalled? {
      return Kept, newIndices;
    }
    var step := Step(dec.pair, dec.target, dec.candidate);
    assert IsSwapDecision(Snapshot(current, selectedIndices), step, pool, minDistanceKm, dist);
    var newcomer := pool[dec.candidate];
    ViolationSwapImproves(current, dec.pair, dec.target, newcomer.city, minDistanceKm, dist);
    improved[dec.target] := newcomer.city;
    assert improved[..] == current[dec.target := newcomer.city];
    if dec.target !in selectedIndices {
      return Failed(step), newIndices;
    }
    newIndices := selectedIndices - {dec.target} + {newcomer.key};
    outcome := Swapped(step);
  }

  /**
   * The `while improvements_made` loop (lines 80-155) on the selection array, which
   * starts out holding `selected`. `trace` is the run of the loop from the selection
   * with the exclusion set {0..k-1}. `failure` is the decided swap whose removal of
   * the target's label raised KeyError, if one did; otherwise the array holds the
   * last state of the run, which respects the floor or is stalled.
   */
  method RunRounds(improved: array<City>, selected: seq<City>, pool: seq<Entry>, minDistanceKm: int, dist: Distance)
    returns (failure: Option<Step>, ghost trace: seq<Snapshot>, ghost steps: seq<Step>)
    requires Symmetric(dist) && improved[..] == selected
    modifies improved
    ensures IsRun(trace, steps, pool, minDistanceKm, dist) && trace[0] == Snapshot(selected, SlotLabels(|selected|))
    ensures failure.None? ==> improved[..] == trace[|trace| - 1].cities
    ensures failure.None? ==> IsConverged(improved[..], minDistanceKm, dist)
                              || IsStalled(improved[..], pool, trace[|trace| - 1].labels, minDistanceKm, dist)
    ensures failure.Some? ==> IsSwapDecision(trace[|trace| - 1], failure.value, pool, minDistanceKm, dist)
                              && failure.value.target !in trace[|trace| - 1].labels
    ensures IsConverged(selected, minDistanceKm, dist) ==> failure.None? && improved[..] == selected && steps == []
  {
    ghost var current := selected;
    var selectedIndices := SlotLabels(|selected|);
    trace, steps := [Snapshot(selected, selectedIndices)], [];
    failure := None;
    var improvementsMade := true;
    while improvementsMade
      invariant improved[..] == current
      invariant IsRun(trace, steps, pool, minDistanceKm, dist)
      invariant trace[0] == Snapshot(selected, SlotLabels(|selected|))
      invariant trace[|trace| - 1] == Snapshot(current, selectedIndices)
      invariant IsConverged(selected, minDistanceKm, dist) ==> current == selected && improvementsMade && steps == []
      invariant !improvementsMade ==> IsStalled(current, pool, selectedIndices, minDistanceKm, dist)
      decreases if improvementsMade then 1 else 0, Shortfall(current, minDistanceKm, dist), Crowding(current, dist)
    {
      improvementsMade := false;
      var outcome, newIndices := RepairRound(improved, current, pool, selectedIndices, minDistanceKm, dist);
      match outcome
      case Done =>
        break;
      case Kept =>
      case Failed(step) =>
        SwapDecisionRulesOutStop(Snapshot(current, selectedIndices), step, pool, minDistanceKm, dist);
        return Some(step), trace, steps;
      case Swapped(step) =>
        SwapDecisionRulesOutStop(Snapshot(current, selectedIndices), step, pool, minDistanceKm, dist);
        RunExtends(trace, steps, step, Snapshot(improved[..], newIndices), pool, minDistanceKm, dist);
        trace, steps := trace + [Snapshot(improved[..], newIndices)], steps + [step];
        current := improved[..];
        selectedIndices := newIndices;
        improvementsMade := true;
    }
  }

  /**
   * `post_process_city_selection` (lines 68-158) on a selection whose index labels
   * are its slot numbers. `trace` is the run of the loop: it starts from the
   * selection with the exclusion set {0..k-1}, and each later state comes from the
   * one before by the swap that round decides. The run ends in a state that
   * respects the floor or is stalled, and the result is that state's selection; or
   * it ends in a state whose decided swap targets a label the exclusion set no
   * longer holds, and `set.remove` raises KeyError. Along the way the selection
   * keeps its length, holds only its own or the table's records and never moves
   * closer together.
   */
  method Repair(selected: seq<City>, pool: seq<Entry>, minDistanceKm: int, dist: Distance)
    returns (result: Result<seq<City>, SelectError>, ghost trace: seq<Snapshot>, ghost steps: seq<Step>)
    requires Symmetric(dist)
    ensures IsRun(trace, steps, pool, minDistanceKm, dist)
    ensures trace[0] == Snapshot(selected, SlotLabels(|selected|))
    ensures result.Ok? ==> result.value == trace[|trace| - 1].cities
    ensures result.Ok? ==> IsConverged(result.value, minDistanceKm, dist)
                           || IsStalled(result.value, pool, trace[|trace| - 1].labels, minDistanceKm, dist)
    ensures result.Err? ==> result.error.LabelNotInSet? && 0 <= result.error.key < |selected|
    ensures result.Err? ==> exists step :: && IsSwapDecision(trace[|trace| - 1], step, pool, minDistanceKm, dist)
                                           && step.target !in trace[|trace| - 1].labels
                                           && result.error == LabelNotInSet(step.target)
    ensures IsConverged(selected, minDistanceKm, dist) ==> result == Ok(selected) && steps == []
    ensures result.Ok? ==> |result.value| == |selected| && DrawnFrom(result.value, selected, pool)
    ensures result.Ok? && |selected| >= 2 ==> MinPairDist(result.value, dist) >= MinPairDist(selected, dist)
    ensures result.Ok? && ZeroOnSelf(dist) && DistinctPoints(selected) ==> DistinctPoints(result.value)
  {
    var improved := new City[|selected|](k requires 0 <= k < |selected| => selected[k]);
    assert improved[..] == selected;
    var failure;
    failure, trace, steps := RunRounds(improved, selected, pool, minDistanceKm, dist);
    RunEnd(trace, steps, pool, minDistanceKm, dist);
    if failure.Some? {
      result := Err(LabelNotInSet(failure.value.target));
    } else {
      result := Ok(improved[..]);
    }
  }
}
