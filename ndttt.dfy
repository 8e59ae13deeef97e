/** NDTTT, the traversal miner: grows paths one node at a time along the
    windows that actually occur in the trajectories, so that every id set it
    records is the exact distinct-trajectory support of its path. */
module Ndttt {
  import opened Wrappers
  import opened Points
  import opened PathTable

  /** A path the traversal miner keeps: it occurs in some trajectory, in at
      least `mmin` distinct trajectory ids. */
  ghost predicate Frequent(ts: seq<Trajectory>, mmin: int, p: Path) {
    |p| >= 1 && Support(ts, p) != {} && |Support(ts, p)| >= mmin
  }

  /** Table `t` holds exactly the frequent paths of length `m`, each with its
      support. */
  ghost predicate HoldsFrequent(ts: seq<Trajectory>, mmin: int, t: Table, m: nat) {
    && (forall p :: p in t <==> |p| == m && Frequent(ts, mmin, p))
    && (forall p :: p in t ==> t[p] == Support(ts, p))
  }

  /** Table `t` holds exactly the frequent paths of one to `m` nodes, each
      with its support. */
  ghost predicate HoldsFrequentUpTo(ts: seq<Trajectory>, mmin: int, t: Table, m: nat) {
    && (forall p :: p in t <==> |p| <= m && Frequent(ts, mmin, p))
    && (forall p :: p in t ==> t[p] == Support(ts, p))
  }

  /** The length of the longest trajectory. */
  ghost function MaxLen(ts: seq<Trajectory>): (r: nat)
    ensures forall j :: 0 <= j < |ts| ==> |ts[j].nodes| <= r
  {
    if ts == [] then 0
    else
      var rest := MaxLen(ts[1..]);
      assert forall j :: 1 <= j < |ts| ==> ts[j] == ts[1..][j - 1];
      if |ts[0].nodes| > rest then |ts[0].nodes| else rest
  }

  /** Lines 21-28: the table from each single `(latitude, longitude)` key to
      the ids of the trajectories containing it. */
  method PointTable(ts: seq<Trajectory>) returns (table: Table)
    ensures forall p :: p in table <==> |p| == 1 && Support(ts, p) != {}
    ensures forall p :: p in table ==> table[p] == Support(ts, p)
  {
    table := map[];
    RecordsStart(ts, 1, None);
    var j := 0;
    while j < |ts|
      invariant 0 <= j <= |ts|
      invariant Records(table, ts, 1, None, j, 0)
    {
      var id := ts[j].trajectoryId;
      var nodes := ts[j].nodes;
      for i := 0 to WindowCount(|ts[j].nodes|, 1)
        invariant Records(table, ts, 1, None, j, i)
      {
        var path := [KeyOf(nodes[i])];
        assert path == Locs(ts[j])[i..i + 1];
        RecordsAdd(table, ts, 1, None, j, i, path, id);
        table := table[path := (if path in table then table[path] else {}) + {id}];
      }
      RecordsNext(table, ts, 1, None, j);
      j := j + 1;
    }
    RecordsDone(table, ts, 1, None);
  }

  /** Lines 42-52: one traversal pass. Every window of `k + 1` points whose
      first `k` points are a kept path is recorded with the id of the
      trajectory it occurs in. */
  method ExtendPass(ts: seq<Trajectory>, pruned: Table, k: nat) returns (next: Table)
    requires forall p :: p in pruned ==> pruned[p] == Support(ts, p)
    ensures forall q :: q in next <==> |q| == k + 1 && Init(q) in pruned && Support(ts, q) != {}
    ensures forall q :: q in next ==> next[q] == Support(ts, q)
  {
    next := map[];
    RecordsStart(ts, k + 1, Some(pruned));
    var j := 0;
    while j < |ts|
      invariant 0 <= j <= |ts|
      invariant Records(next, ts, k + 1, Some(pruned), j, 0)
    {
      next := ExtendTrajectory(ts, pruned, k, j, next);
      j := j + 1;
    }
    RecordsDone(next, ts, k + 1, Some(pruned));
  }

  /** Lines 45-52 for trajectory `ts[j]`: each window whose first `k` points
      are a kept path that lists `ts[j]`'s id is recorded, extended by the
      next point. */
  method ExtendTrajectory(ts: seq<Trajectory>, pruned: Table, k: nat, j: nat, next0: Table) returns (next: Table)
    requires j < |ts|
    requires forall p :: p in pruned ==> pruned[p] == Support(ts, p)
    requires Records(next0, ts, k + 1, Some(pruned), j, 0)
    ensures Records(next, ts, k + 1, Some(pruned), j + 1, 0)
  {
    next := next0;
    for i := 0 to WindowCount(|ts[j].nodes|, k + 1)
      invariant Records(next, ts, k + 1, Some(pruned), j, i)
    {
      next := VisitWindow(ts, pruned, k, j, i, next);
    }
    RecordsNext(next, ts, k + 1, Some(pruned), j);
  }

  /** Lines 47-52 for the window of `ts[j]` at position `i`: the window
      extended by the next point is recorded exactly when its first `k`
      points are a kept path that lists `ts[j]`'s id. */
  method VisitWindow(ts: seq<Trajectory>, pruned: Table, k: nat, j: nat, i: nat, next0: Table) returns (next: Table)
    requires j < |ts| && i < WindowCount(|ts[j].nodes|, k + 1)
    requires forall p :: p in pruned ==> pruned[p] == Support(ts, p)
    requires Records(next0, ts, k + 1, Some(pruned), j, i)
    ensures Records(next, ts, k + 1, Some(pruned), j, i + 1)
  {
    next := next0;
    var points := Locs(ts[j]);
    var id := ts[j].trajectoryId;
    var currentPath := points[i..i + k];
    var extendedPath := currentPath + [points[i + k]];
    ExtensionWindow(points, i, k);
    assert extendedPath == Locs(ts[j])[i..i + (k + 1)];
    if currentPath in pruned {
      InSupport(ts, j, currentPath, i);
      assert id in pruned[currentPath];
    }
    assert Admits(Some(pruned), extendedPath) <==> currentPath in pruned;
    if currentPath in pruned && id in pruned[currentPath] {
      RecordsAdd(next, ts, k + 1, Some(pruned), j, i, extendedPath, id);
      next := next[extendedPath := (if extendedPath in next then next[extendedPath] else {}) + {id}];
    } else {
      RecordsSkip(next, ts, k + 1, Some(pruned), j, i);
    }
  }

  /** Lines 17-81. Unlike the join miner, the loop needs no bound: it ends
      once the kept paths are longer than every trajectory. */
  method Ndttt(ts: seq<Trajectory>, kmin: int, mmin: int) returns (r: Result<set<Path>>)
    ensures r.Err? <==> ts == []
    ensures r.Err? ==> r.error == ValueError
    ensures r.Ok? ==> forall p :: p in r.value <==> |p| >= kmin && Frequent(ts, mmin, p)
  {
    if ts == [] {
      return Err(ValueError);
    }
    var pathTable := PointTable(ts);
    var prunedTable := Prune(pathTable, mmin);
    var k := 1;
    var resultPaths := prunedTable;
    assert HoldsFrequent(ts, mmin, prunedTable, 1);
    while prunedTable != map[]
      invariant k >= 1
      invariant HoldsFrequent(ts, mmin, prunedTable, k)
      invariant HoldsFrequentUpTo(ts, mmin, resultPaths, k)
      decreases MaxLen(ts) + 1 - k
    {
      var p :| p in prunedTable;
      FrequentWithinMaxLen(ts, mmin, p);
      var nextPathTable := ExtendPass(ts, prunedTable, k);
      ExtendedIsNextLevel(ts, mmin, prunedTable, nextPathTable, k);
      prunedTable := Prune(nextPathTable, mmin);
      AccumulateNext(ts, mmin, resultPaths, prunedTable, k);
      resultPaths := resultPaths + prunedTable;
      k := k + 1;
    }
    NoneLonger(ts, mmin, k);
    r := Ok(set p | p in resultPaths && |p| >= kmin);
  }

  // ---------------------------------------------------------------------
  // Properties of support and of the passes.

  /** The window `points[i:i + k]` extended by the next point is the window
      of `k + 1` points at `i`, and the window occurs at `i`. */
  lemma ExtensionWindow(points: seq<Loc>, i: nat, k: nat)
    requires i + k < |points|
    ensures points[i..i + k] + [points[i + k]] == points[i..i + (k + 1)]
    ensures Init(points[i..i + (k + 1)]) == points[i..i + k]
    ensures OccursAt(points, points[i..i + k], i)
  {
  }

  /** Whatever contains a path contains its prefixes: a prefix's support
      includes the path's, so an extension is never more frequent than the
      path it extends. */
  lemma SupportPrefix(ts: seq<Trajectory>, p: Path, m: nat)
    requires m <= |p|
    ensures Support(ts, p) <= Support(ts, p[..m])
    ensures |Support(ts, p)| <= |Support(ts, p[..m])|
  {
    forall x | x in Support(ts, p)
      ensures x in Support(ts, p[..m])
    {
      var j :| 0 <= j < |ts| && Occurs(Locs(ts[j]), p) && ts[j].trajectoryId == x;
      var i :| OccursAt(Locs(ts[j]), p, i);
      assert Locs(ts[j])[i..i + m] == p[..m];
      InSupport(ts, j, p[..m], i);
    }
    SubsetCard(Support(ts, p), Support(ts, p[..m]));
  }

  /** A frequent path's non-empty prefixes are frequent. */
  lemma FrequentPrefix(ts: seq<Trajectory>, mmin: int, p: Path, m: nat)
    requires Frequent(ts, mmin, p) && 1 <= m <= |p|
    ensures Frequent(ts, mmin, p[..m])
  {
    SupportPrefix(ts, p, m);
  }

  /** A path that occurs somewhere is no longer than the longest trajectory. */
  lemma FrequentWithinMaxLen(ts: seq<Trajectory>, mmin: int, p: Path)
    requires Frequent(ts, mmin, p)
    ensures |p| <= MaxLen(ts)
  {
    var x :| x in Support(ts, p);
    var j :| 0 <= j < |ts| && Occurs(Locs(ts[j]), p) && ts[j].trajectoryId == x;
    var i :| OccursAt(Locs(ts[j]), p, i);
  }

  /** Pruning the extension table of pass `k` gives exactly the frequent paths
      of length `k + 1`: a frequent path's prefix is frequent, so it was in
      the table the pass extended. */
  lemma ExtendedIsNextLevel(ts: seq<Trajectory>, mmin: int, pruned: Table, next: Table, k: nat)
    requires k >= 1 && HoldsFrequent(ts, mmin, pruned, k)
    requires forall q :: q in next <==> |q| == k + 1 && Init(q) in pruned && Support(ts, q) != {}
    requires forall q :: q in next ==> next[q] == Support(ts, q)
    ensures HoldsFrequent(ts, mmin, Prune(next, mmin), k + 1)
  {
    forall q | |q| == k + 1 && Frequent(ts, mmin, q)
      ensures q in next
    {
      FrequentPrefix(ts, mmin, q, k);
      assert Init(q) == q[..k];
    }
  }

  /** Adding the frequent paths of length `k + 1` to those of one to `k`
      nodes. */
  lemma AccumulateNext(ts: seq<Trajectory>, mmin: int, result: Table, level: Table, k: nat)
    requires HoldsFrequentUpTo(ts, mmin, result, k) && HoldsFrequent(ts, mmin, level, k + 1)
    ensures HoldsFrequentUpTo(ts, mmin, result + level, k + 1)
  {
  }

  /** When pass `k` keeps nothing, no path of `k` or more nodes is frequent. */
  lemma NoneLonger(ts: seq<Trajectory>, mmin: int, k: nat)
    requires k >= 1 && HoldsFrequent(ts, mmin, map[], k)
    ensures forall p :: Frequent(ts, mmin, p) ==> |p| < k
  {
    forall p | Frequent(ts, mmin, p)
      ensures |p| < k
    {
      if |p| >= k {
        FrequentPrefix(ts, mmin, p, k);
        assert false;
      }
    }
  }
}
