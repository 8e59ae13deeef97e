/** The recommendation helpers: which miner suits a user's trajectories, and
    how similar two users' hotspot point sets are in time and space. */
module Recommendations {
  import opened Sorting

  datatype Algorithm = NDTTJ | NDTTT | TTHS

  /** The total of a list of point counts. */
  function Sum(counts: seq<nat>): nat {
    if counts == [] then 0 else counts[0] + Sum(counts[1..])
  }

  /** Lines 17-30, `determine_algorithm`, on the number of points of each
      trajectory: the average is compared with 5 and 20; no trajectories
      means an average of 0. In whole numbers: sparse when the total is
      below five per trajectory, dense when it is above twenty. */
  function DetermineAlgorithm(counts: seq<nat>): (r: Algorithm)
    ensures r == NDTTJ <==> Sum(counts) < 5 * |counts| || counts == []
    ensures r == NDTTT <==> counts != [] && 5 * |counts| <= Sum(counts) <= 20 * |counts|
    ensures r == TTHS <==> counts != [] && Sum(counts) > 20 * |counts|
  {
    var totalPoints := Sum(counts);
    var average: real := if counts != [] then totalPoints as real / |counts| as real else 0.0;
    AverageBands(totalPoints, |counts|);
    if average < 5.0 then NDTTJ
    else if average <= 20.0 then NDTTT
    else TTHS
  }

  /** Comparing an average with a bound is comparing the total with the bound
      times the count. */
  lemma AverageBands(total: nat, n: nat)
    ensures n > 0 ==> (total as real / n as real < 5.0 <==> total < 5 * n)
    ensures n > 0 ==> (total as real / n as real <= 20.0 <==> total <= 20 * n)
  {
    if n > 0 {
      AverageBelow(total, n, 5);
      AverageBelow(total, n, 20);
    }
  }

  /** The average is below `c` exactly when the total is below `c` times the
      count, and likewise for "at most". */
  lemma AverageBelow(total: nat, n: nat, c: nat)
    requires n > 0
    ensures total as real / n as real < c as real <==> total < c * n
    ensures total as real / n as real <= c as real <==> total <= c * n
  {
    var avg := total as real / n as real;
    var m := n as real;
    assert avg * m == total as real;
    assert (c * n) as real == c as real * m;
    if avg < c as real {
      assert avg * m < c as real * m;
    } else {
      assert avg * m >= c as real * m;
    }
    if avg <= c as real {
      assert avg * m <= c as real * m;
    } else {
      assert avg * m > c as real * m;
    }
  }

  // ---------------------------------------------------------------------
  // compute_similarity

  /** A hotspot point as the similarity reads it: `lat`, `lon` and a
      timestamp in whole seconds. */
  datatype TimedPoint = TimedPoint(lat: real, lon: real, timestamp: int)

  /** All points of all paths, path by path. */
  function Flatten(hotspots: seq<seq<TimedPoint>>): seq<TimedPoint> {
    if hotspots == [] then [] else hotspots[0] + Flatten(hotspots[1..])
  }

  /** Lines 49-59 and 62-72: collect the points of every path, in order. */
  method CollectPoints(hotspots: seq<seq<TimedPoint>>) returns (points: seq<TimedPoint>)
    ensures points == Flatten(hotspots)
  {
    points := [];
    var k := 0;
    while k < |hotspots|
      invariant 0 <= k <= |hotspots|
      invariant points + Flatten(hotspots[k..]) == Flatten(hotspots)
    {
      var path := hotspots[k];
      assert Flatten(hotspots[k..]) == path + Flatten(hotspots[k + 1..]) by {
        assert hotspots[k..][1..] == hotspots[k + 1..];
      }
      ghost var start := points;
      var m := 0;
      while m < |path|
        invariant 0 <= m <= |path|
        invariant points == start + path[..m]
      {
        points := points + [path[m]];
        m := m + 1;
      }
      assert path[..m] == path;
      k := k + 1;
    }
    assert hotspots[k..] == [];
  }

  /** A point is collected exactly when it lies on one of the paths. */
  lemma {:induction false} FlattenMembers(hotspots: seq<seq<TimedPoint>>, x: TimedPoint)
    ensures x in Flatten(hotspots) <==> exists k :: 0 <= k < |hotspots| && x in hotspots[k]
  {
    if hotspots != [] {
      var rest := hotspots[1..];
      FlattenMembers(rest, x);
      assert Flatten(hotspots) == hotspots[0] + Flatten(rest);
      if x in Flatten(hotspots) && x !in hotspots[0] {
        var k :| 0 <= k < |rest| && x in rest[k];
        assert rest[k] == hotspots[k + 1];
      }
      if exists k :: 0 <= k < |hotspots| && x in hotspots[k] {
        var k :| 0 <= k < |hotspots| && x in hotspots[k];
        if k > 0 {
          assert rest[k - 1] == hotspots[k];
        }
      }
    }
  }

  function TimeOf(p: TimedPoint): int {
    p.timestamp
  }

  /** `abs(t1 - t2) <= time_threshold`. */
  predicate InWindow(a: TimedPoint, b: TimedPoint, timeThreshold: int) {
    (if a.timestamp >= b.timestamp then a.timestamp - b.timestamp else b.timestamp - a.timestamp) <= timeThreshold
  }

  /** How many of the matched index pairs are also close in space. */
  function NearCount(p1: seq<TimedPoint>, p2: seq<TimedPoint>, pairs: seq<(int, int)>,
                     near: (TimedPoint, TimedPoint) -> bool): nat
    requires forall k :: 0 <= k < |pairs| ==> 0 <= pairs[k].0 < |p1| && 0 <= pairs[k].1 < |p2|
  {
    if pairs == [] then 0
    else
      var last := pairs[|pairs| - 1];
      NearCount(p1, p2, pairs[..|pairs| - 1], near) + (if near(p1[last.0], p2[last.1]) then 1 else 0)
  }

  /** Each point is matched at most once: the pairs increase in both lists. */
  ghost predicate Increasing(pairs: seq<(int, int)>) {
    forall k, l :: 0 <= k < l < |pairs| ==> pairs[k].0 < pairs[l].0 && pairs[k].1 < pairs[l].1
  }

  /** Lines 81-96 as a function of the cursors: the index pairs the scan
      matches from `(i, j)` on. A pair within the time window is matched and
      both cursors advance; otherwise the cursor at the earlier timestamp
      does. */
  function ScanPairs(p1: seq<TimedPoint>, p2: seq<TimedPoint>, timeThreshold: int, i: nat, j: nat): (r: seq<(int, int)>)
    requires i <= |p1| && j <= |p2|
    ensures forall k :: 0 <= k < |r| ==>
      i <= r[k].0 < |p1| && j <= r[k].1 < |p2| && InWindow(p1[r[k].0], p2[r[k].1], timeThreshold)
    ensures Increasing(r)
    ensures |r| <= |p1| - i && |r| <= |p2| - j
    decreases |p1| - i + |p2| - j
  {
    if i == |p1| || j == |p2| then []
    else if InWindow(p1[i], p2[j], timeThreshold) then [(i, j)] + ScanPairs(p1, p2, timeThreshold, i + 1, j + 1)
    else if p1[i].timestamp < p2[j].timestamp then ScanPairs(p1, p2, timeThreshold, i + 1, j)
    else ScanPairs(p1, p2, timeThreshold, i, j + 1)
  }

  /** What `compute_similarity` returns: over the time-sorted points of both
      users, the share of the scan's matches that are also near, or 0 when
      either user has no hotspots or the scan matches nothing. */
  ghost function Similarity(hotspots1: seq<seq<TimedPoint>>, hotspots2: seq<seq<TimedPoint>>, timeThreshold: int,
                            near: (TimedPoint, TimedPoint) -> bool): real
  {
    if hotspots1 == [] || hotspots2 == [] then 0.0
    else
      var p1, p2 := SortBy(Flatten(hotspots1), TimeOf), SortBy(Flatten(hotspots2), TimeOf);
      var pairs := ScanPairs(p1, p2, timeThreshold, 0, 0);
      if pairs == [] then 0.0 else NearCount(p1, p2, pairs, near) as real / |pairs| as real
  }

  /** The scan's loop invariant: the pairs matched so far lie below the
      cursors and, followed by what the scan matches from the cursors on,
      make up the whole scan; the counts agree with them; and, on sorted
      lists, while nothing has matched, no window pair lies behind the
      cursors. */
  ghost predicate ScanInv(p1: seq<TimedPoint>, p2: seq<TimedPoint>, timeThreshold: int, near: (TimedPoint, TimedPoint) -> bool,
                          index1: int, index2: int, pairs: seq<(int, int)>, matchedCount: nat, totalMatched: nat)
  {
    && 0 <= index1 <= |p1| && 0 <= index2 <= |p2|
    && (forall k :: 0 <= k < |pairs| ==> 0 <= pairs[k].0 < index1 && 0 <= pairs[k].1 < index2)
    && pairs + ScanPairs(p1, p2, timeThreshold, index1, index2) == ScanPairs(p1, p2, timeThreshold, 0, 0)
    && totalMatched == |pairs| && matchedCount == NearCount(p1, p2, pairs, near) && matchedCount <= totalMatched
    && (SortedBy(p1, TimeOf) && SortedBy(p2, TimeOf) && totalMatched == 0 ==>
         forall a, b :: 0 <= a < |p1| && 0 <= b < |p2| && InWindow(p1[a], p2[b], timeThreshold) ==> index1 <= a && index2 <= b)
  }

  /** Lines 76-79: the scan starts with both cursors at 0 and nothing
      matched. */
  lemma ScanStart(p1: seq<TimedPoint>, p2: seq<TimedPoint>, timeThreshold: int, near: (TimedPoint, TimedPoint) -> bool)
    ensures ScanInv(p1, p2, timeThreshold, near, 0, 0, [], 0, 0)
  {
    assert [] + ScanPairs(p1, p2, timeThreshold, 0, 0) == ScanPairs(p1, p2, timeThreshold, 0, 0);
  }

  /** Lines 83-92: a time match advances both cursors and is counted. */
  lemma ScanMatch(p1: seq<TimedPoint>, p2: seq<TimedPoint>, timeThreshold: int, near: (TimedPoint, TimedPoint) -> bool,
                  index1: int, index2: int, pairs: seq<(int, int)>, matchedCount: nat, totalMatched: nat)
    requires ScanInv(p1, p2, timeThreshold, near, index1, index2, pairs, matchedCount, totalMatched)
    requires index1 < |p1| && index2 < |p2| && InWindow(p1[index1], p2[index2], timeThreshold)
    ensures ScanInv(p1, p2, timeThreshold, near, index1 + 1, index2 + 1, pairs + [(index1, index2)],
                    matchedCount + (if near(p1[index1], p2[index2]) then 1 else 0), totalMatched + 1)
  {
    var pairs' := pairs + [(index1, index2)];
    assert pairs + ScanPairs(p1, p2, timeThreshold, index1, index2)
        == pairs' + ScanPairs(p1, p2, timeThreshold, index1 + 1, index2 + 1);
    assert pairs'[..|pairs|] == pairs;
    assert NearCount(p1, p2, pairs', near) ==
      NearCount(p1, p2, pairs, near) + (if near(p1[index1], p2[index2]) then 1 else 0);
  }

  /** Lines 93-94: outside the window, the earlier point of the first list
      is passed over; no window partner of it can lie ahead in the second. */
  lemma ScanSkipFirst(p1: seq<TimedPoint>, p2: seq<TimedPoint>, timeThreshold: int, near: (TimedPoint, TimedPoint) -> bool,
                      index1: int, index2: int, pairs: seq<(int, int)>, matchedCount: nat, totalMatched: nat)
    requires ScanInv(p1, p2, timeThreshold, near, index1, index2, pairs, matchedCount, totalMatched)
    requires index1 < |p1| && index2 < |p2| && !InWindow(p1[index1], p2[index2], timeThreshold)
    requires p1[index1].timestamp < p2[index2].timestamp
    ensures ScanInv(p1, p2, timeThreshold, near, index1 + 1, index2, pairs, matchedCount, totalMatched)
  {
    if SortedBy(p1, TimeOf) && SortedBy(p2, TimeOf) && totalMatched == 0 {
      forall a, b | 0 <= a < |p1| && 0 <= b < |p2| && InWindow(p1[a], p2[b], timeThreshold)
        ensures index1 + 1 <= a
      {
      }
    }
  }

  /** Lines 95-96: the symmetric case for the second list. */
  lemma ScanSkipSecond(p1: seq<TimedPoint>, p2: seq<TimedPoint>, timeThreshold: int, near: (TimedPoint, TimedPoint) -> bool,
                       index1: int, index2: int, pairs: seq<(int, int)>, matchedCount: nat, totalMatched: nat)
    requires ScanInv(p1, p2, timeThreshold, near, index1, index2, pairs, matchedCount, totalMatched)
    requires index1 < |p1| && index2 < |p2| && !InWindow(p1[index1], p2[index2], timeThreshold)
    requires p1[index1].timestamp >= p2[index2].timestamp
    ensures ScanInv(p1, p2, timeThreshold, near, index1, index2 + 1, pairs, matchedCount, totalMatched)
  {
    if SortedBy(p1, TimeOf) && SortedBy(p2, TimeOf) && totalMatched == 0 {
      forall a, b | 0 <= a < |p1| && 0 <= b < |p2| && InWindow(p1[a], p2[b], timeThreshold)
        ensures index2 + 1 <= b
      {
      }
    }
  }

  /** Lines 82-96: one round of the scan, from cursors that both point at
      a point; it keeps the invariant and moves at least one cursor. */
  method ScanStep(p1: seq<TimedPoint>, p2: seq<TimedPoint>, timeThreshold: int, near: (TimedPoint, TimedPoint) -> bool,
                  index1: int, index2: int, ghost pairs: seq<(int, int)>, matchedCount: nat, totalMatched: nat)
    returns (index1': int, index2': int, ghost pairs': seq<(int, int)>, matchedCount': nat, totalMatched': nat)
    requires ScanInv(p1, p2, timeThreshold, near, index1, index2, pairs, matchedCount, totalMatched)
    requires index1 < |p1| && index2 < |p2|
    ensures ScanInv(p1, p2, timeThreshold, near, index1', index2', pairs', matchedCount', totalMatched')
    ensures index1 <= index1' && index2 <= index2' && index1 + index2 < index1' + index2'
  {
    index1', index2', pairs', matchedCount', totalMatched' := index1, index2, pairs, matchedCount, totalMatched;
    if InWindow(p1[index1], p2[index2], timeThreshold) {
      ScanMatch(p1, p2, timeThreshold, near, index1, index2, pairs, matchedCount, totalMatched);
      pairs' := pairs + [(index1, index2)];
      if near(p1[index1], p2[index2]) {
        matchedCount' := matchedCount + 1;
      }
      totalMatched' := totalMatched + 1;
      index1', index2' := index1 + 1, index2 + 1;
    } else if p1[index1].timestamp < p2[index2].timestamp {
      ScanSkipFirst(p1, p2, timeThreshold, near, index1, index2, pairs, matchedCount, totalMatched);
      index1' := index1 + 1;
    } else {
      ScanSkipSecond(p1, p2, timeThreshold, near, index1, index2, pairs, matchedCount, totalMatched);
      index2' := index2 + 1;
    }
  }

  /** Line 81: once either cursor is exhausted the scan has matched
      exactly `pairs`, and, on sorted lists, nothing matched means no window
      pair exists at all. */
  lemma ScanDone(p1: seq<TimedPoint>, p2: seq<TimedPoint>, timeThreshold: int, near: (TimedPoint, TimedPoint) -> bool,
                 index1: int, index2: int, pairs: seq<(int, int)>, matchedCount: nat, totalMatched: nat)
    requires ScanInv(p1, p2, timeThreshold, near, index1, index2, pairs, matchedCount, totalMatched)
    requires index1 == |p1| || index2 == |p2|
    ensures pairs == ScanPairs(p1, p2, timeThreshold, 0, 0)
    ensures totalMatched == |pairs| && Increasing(pairs)
    ensures forall k :: 0 <= k < |pairs| ==>
      0 <= pairs[k].0 < |p1| && 0 <= pairs[k].1 < |p2| && InWindow(p1[pairs[k].0], p2[pairs[k].1], timeThreshold)
    ensures matchedCount == NearCount(p1, p2, pairs, near)
    ensures matchedCount <= totalMatched <= |p1| && totalMatched <= |p2|
    ensures SortedBy(p1, TimeOf) && SortedBy(p2, TimeOf) ==>
      (totalMatched == 0 <==> forall a, b :: 0 <= a < |p1| && 0 <= b < |p2| ==> !InWindow(p1[a], p2[b], timeThreshold))
  {
    assert pairs + [] == pairs;
    if totalMatched > 0 {
      assert InWindow(p1[pairs[0].0], p2[pairs[0].1], timeThreshold);
    }
  }

  /** Lines 76-96: the loop itself, run until either cursor is exhausted. */
  method Scan(p1: seq<TimedPoint>, p2: seq<TimedPoint>, timeThreshold: int, near: (TimedPoint, TimedPoint) -> bool)
    returns (index1: int, index2: int, ghost pairs: seq<(int, int)>, matchedCount: nat, totalMatched: nat)
    ensures ScanInv(p1, p2, timeThreshold, near, index1, index2, pairs, matchedCount, totalMatched)
    ensures index1 == |p1| || index2 == |p2|
  {
    index1, index2 := 0, 0;
    matchedCount, totalMatched := 0, 0;
    pairs := [];
    ScanStart(p1, p2, timeThreshold, near);
    while index1 < |p1| && index2 < |p2|
      invariant ScanInv(p1, p2, timeThreshold, near, index1, index2, pairs, matchedCount, totalMatched)
      decreases |p1| - index1 + |p2| - index2
    {
      index1, index2, pairs, matchedCount, totalMatched :=
        ScanStep(p1, p2, timeThreshold, near, index1, index2, pairs, matchedCount, totalMatched);
    }
  }

  /** Lines 76-96: the two-cursor scan. `near` stands for the geodesic
      distance being at most `distance_threshold`. The matches form `pairs`,
      an increasing matching of points within the time window; `matched`
      counts those also near. On time-sorted lists the scan misses nothing:
      it matches nothing only when no two points are within the window. */
  method MatchPoints(p1: seq<TimedPoint>, p2: seq<TimedPoint>, timeThreshold: int,
                     near: (TimedPoint, TimedPoint) -> bool)
    returns (matchedCount: nat, totalMatched: nat, ghost pairs: seq<(int, int)>)
    ensures pairs == ScanPairs(p1, p2, timeThreshold, 0, 0)
    ensures totalMatched == |pairs| && Increasing(pairs)
    ensures forall k :: 0 <= k < |pairs| ==>
      0 <= pairs[k].0 < |p1| && 0 <= pairs[k].1 < |p2| && InWindow(p1[pairs[k].0], p2[pairs[k].1], timeThreshold)
    ensures matchedCount == NearCount(p1, p2, pairs, near)
    ensures matchedCount <= totalMatched <= |p1| && totalMatched <= |p2|
    ensures SortedBy(p1, TimeOf) && SortedBy(p2, TimeOf) ==>
      (totalMatched == 0 <==> forall a, b :: 0 <= a < |p1| && 0 <= b < |p2| ==> !InWindow(p1[a], p2[b], timeThreshold))
  {
    var index1, index2;
    index1, index2, pairs, matchedCount, totalMatched := Scan(p1, p2, timeThreshold, near);
    ScanDone(p1, p2, timeThreshold, near, index1, index2, pairs, matchedCount, totalMatched);
  }

  /** Lines 33-103, `compute_similarity`: the share of time-matched point
      pairs that are also near, or 0 when either user has no hotspots or
      nothing matches in time. */
  method ComputeSimilarity(hotspots1: seq<seq<TimedPoint>>, hotspots2: seq<seq<TimedPoint>>, timeThreshold: int,
                           near: (TimedPoint, TimedPoint) -> bool)
    returns (similarity: real)
    ensures similarity == Similarity(hotspots1, hotspots2, timeThreshold, near)
    ensures 0.0 <= similarity <= 1.0
    ensures hotspots1 == [] || hotspots2 == [] ==> similarity == 0.0
    ensures (forall a, b :: a in Flatten(hotspots1) && b in Flatten(hotspots2) ==> !InWindow(a, b, timeThreshold))
      ==> similarity == 0.0
    ensures similarity > 0.0 ==>
      exists a, b :: a in Flatten(hotspots1) && b in Flatten(hotspots2) && InWindow(a, b, timeThreshold) && near(a, b)
  {
    if hotspots1 == [] || hotspots2 == [] {
      return 0.0;
    }
    var points1 := CollectPoints(hotspots1);
    points1 := SortBy(points1, TimeOf);
    var points2 := CollectPoints(hotspots2);
    points2 := SortBy(points2, TimeOf);
    SortByFacts(Flatten(hotspots1), TimeOf);
    SortByFacts(Flatten(hotspots2), TimeOf);
    var matchedCount, totalMatched, pairs := MatchPoints(points1, points2, timeThreshold, near);
    if totalMatched == 0 {
      return 0.0;
    }
    similarity := matchedCount as real / totalMatched as real;
    RatioBounds(matchedCount, totalMatched);
    SameMembers(points1, Flatten(hotspots1));
    SameMembers(points2, Flatten(hotspots2));
    ghost var a0, b0 := points1[pairs[0].0], points2[pairs[0].1];
    assert a0 in points1 && b0 in points2;
    assert a0 in Flatten(hotspots1) && b0 in Flatten(hotspots2);
    if matchedCount > 0 {
      NearWitness(points1, points2, pairs, near);
      ghost var k :| 0 <= k < |pairs| && near(points1[pairs[k].0], points2[pairs[k].1]);
      ghost var a, b := points1[pairs[k].0], points2[pairs[k].1];
      assert a in points1 && b in points2;
      assert a in Flatten(hotspots1) && b in Flatten(hotspots2);
    }
  }

  /** The matched share is a ratio in [0, 1], positive when something is near. */
  lemma RatioBounds(matched: nat, total: nat)
    requires 0 < total && matched <= total
    ensures 0.0 <= matched as real / total as real <= 1.0
    ensures matched as real / total as real > 0.0 <==> matched > 0
  {
    var r := matched as real / total as real;
    assert r * total as real == matched as real;
  }

  /** A positive near-count has a near pair behind it. */
  lemma {:induction false} NearWitness(p1: seq<TimedPoint>, p2: seq<TimedPoint>, pairs: seq<(int, int)>,
                                       near: (TimedPoint, TimedPoint) -> bool)
    requires forall k :: 0 <= k < |pairs| ==> 0 <= pairs[k].0 < |p1| && 0 <= pairs[k].1 < |p2|
    requires NearCount(p1, p2, pairs, near) > 0
    ensures exists k :: 0 <= k < |pairs| && near(p1[pairs[k].0], p2[pairs[k].1])
  {
    var last := pairs[|pairs| - 1];
    if !near(p1[last.0], p2[last.1]) {
      NearWitness(p1, p2, pairs[..|pairs| - 1], near);
      var k :| 0 <= k < |pairs| - 1 && near(p1[pairs[..|pairs| - 1][k].0], p2[pairs[..|pairs| - 1][k].1]);
      assert pairs[..|pairs| - 1][k] == pairs[k];
    }
  }
}
