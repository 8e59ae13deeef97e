/** NDTTJ, the join miner: an Apriori-style self-join over a table of
    frequent paths, starting from adjacent point pairs. */
module Ndttj {
  import opened Wrappers
  import opened Points
  import opened PathTable

  /** The adjacent pair of `p` that starts at position `j`. */
  ghost function PairOf(p: Path, j: int): Path
    requires 0 <= j < |p| - 1
  {
    p[j..j + 2]
  }

  /** The ids that the join keeps for `p`: those that, for every adjacent pair
      of `p`, label some trajectory containing that pair. It is not required
      that one trajectory contain the whole of `p`. */
  ghost function PairIds(ts: seq<Trajectory>, p: Path): set<int> {
    set x | x in AllIds(ts) && forall j :: 0 <= j < |p| - 1 ==> x in Support(ts, PairOf(p, j))
  }

  /** Every adjacent pair of `p` occurs in some trajectory. */
  ghost predicate PairsOccur(ts: seq<Trajectory>, p: Path) {
    forall j :: 0 <= j < |p| - 1 ==> Support(ts, PairOf(p, j)) != {}
  }

  /** A path of two or more nodes that the join miner finds frequent. */
  ghost predicate Frequent(ts: seq<Trajectory>, mmin: int, p: Path) {
    |p| >= 2 && PairsOccur(ts, p) && |PairIds(ts, p)| >= mmin
  }

  /** `t` maps each adjacent pair of `ts` to exactly the ids of the
      trajectories in which it occurs adjacently. */
  ghost predicate IsPairTable(t: Table, ts: seq<Trajectory>) {
    && (forall p :: p in t <==> |p| == 2 && Support(ts, p) != {})
    && (forall p :: p in t ==> t[p] == Support(ts, p))
  }

  /** The paths the join builds: `path1 + (path2[-1],)` whenever
      `path1[1:] == path2[:-1]`. */
  ghost function JoinKeys(t: Table): set<Path> {
    set p1, p2 | p1 in t.Keys && p2 in t.Keys && |p1| >= 1 && |p2| >= 1 && Tail(p1) == Init(p2)
      :: Joined(p1, p2)
  }

  /** `path1 + (path2[-1],)`. */
  ghost function Joined(p1: Path, p2: Path): Path
    requires |p2| >= 1
  {
    p1 + [p2[|p2| - 1]]
  }

  /** The id set the join gives `q`: the intersection of its two parents'. */
  ghost function JoinIds(t: Table, q: Path): set<int> {
    if |q| >= 1 && Init(q) in t && Tail(q) in t then t[Init(q)] * t[Tail(q)] else {}
  }

  /** One pass of the join loop: every joined path whose intersection keeps
      at least `mmin` ids. */
  ghost function Join(t: Table, mmin: int): Table {
    map q | q in JoinKeys(t) && |JoinIds(t, q)| >= mmin :: JoinIds(t, q)
  }

  /** The table the loop holds after `n` passes, starting from pair table `t0`. */
  ghost function Level(t0: Table, mmin: int, n: nat): Table {
    if n == 0 then Prune(t0, mmin) else Join(Level(t0, mmin, n - 1), mmin)
  }

  /** `result_paths` after `n` passes: the union of every pass's table. */
  ghost function Accumulated(t0: Table, mmin: int, n: nat): Table {
    if n == 0 then Level(t0, mmin, 0) else Accumulated(t0, mmin, n - 1) + Level(t0, mmin, n)
  }

  /** Lines 21-30: the table from each adjacent `(latitude, longitude)` pair
      to the set of ids of the trajectories containing it; timestamps play no
      part. */
  method PairTable(ts: seq<Trajectory>) returns (table: Table)
    ensures IsPairTable(table, ts)
  {
    table := map[];
    RecordsStart(ts, 2, None);
    var j := 0;
    while j < |ts|
      invariant 0 <= j <= |ts|
      invariant Records(table, ts, 2, None, j, 0)
    {
      table := PairTableAdd(ts, j, table);
      j := j + 1;
    }
    RecordsDone(table, ts, 2, None);
  }

  /** Lines 24-30 for trajectory `ts[j]`: each adjacent pair of its keys gets
      its id. */
  method PairTableAdd(ts: seq<Trajectory>, j: nat, table0: Table) returns (table: Table)
    requires j < |ts|
    requires Records(table0, ts, 2, None, j, 0)
    ensures Records(table, ts, 2, None, j + 1, 0)
  {
    table := table0;
    var id := ts[j].trajectoryId;
    var nodes := ts[j].nodes;
    for i := 0 to WindowCount(|ts[j].nodes|, 2)
      invariant Records(table, ts, 2, None, j, i)
    {
      var path := [KeyOf(nodes[i]), KeyOf(nodes[i + 1])];
      assert path == Locs(ts[j])[i..i + 2];
      RecordsAdd(table, ts, 2, None, j, i, path, id);
      table := table[path := (if path in table then table[path] else {}) + {id}];
    }
    RecordsNext(table, ts, 2, None, j);
  }

  /** `q`'s parents have been visited as the pair `(Init(q), Tail(q))`: either
      its first parent is finished, or it is the current one and its second
      parent has been visited. */
  ghost predicate Visited(q: Path, done1: set<Path>, cur: Path, done2: set<Path>)
    requires |q| >= 1
  {
    Init(q) in done1 || (Init(q) == cur && Tail(q) in done2)
  }

  /** What the join loop over table `t` (paths of length `k`) has produced once
      it has visited the pairs recorded by `Visited`. */
  ghost predicate JoinedSoFar(next: Table, t: Table, k: nat, mmin: int, done1: set<Path>, cur: Path, done2: set<Path>)
  {
    && (forall q :: q in next ==>
          |q| == k + 1 && Init(q) in t && Tail(q) in t && Visited(q, done1, cur, done2)
          && next[q] == t[Init(q)] * t[Tail(q)] && |next[q]| >= mmin)
    && (forall q ::
          (|q| == k + 1 && Init(q) in t && Tail(q) in t && Visited(q, done1, cur, done2)
           && |t[Init(q)] * t[Tail(q)]| >= mmin) ==> q in next)
  }

  /** Lines 44-55: one pass of the self-join over a table whose paths all
      have length `k`. */
  method JoinPass(t: Table, k: nat, mmin: int) returns (next: Table)
    requires k >= 1 && forall p :: p in t ==> |p| == k
    ensures next == Join(t, mmin)
  {
    next := map[];
    var paths1 := t.Keys;
    ghost var done1: set<Path> := {};
    while paths1 != {}
      invariant paths1 + done1 == t.Keys && paths1 !! done1
      invariant JoinedSoFar(next, t, k, mmin, done1, [], {})
    {
      var path1 :| path1 in paths1;
      next := JoinFirst(t, k, mmin, done1, path1, next);
      paths1 := paths1 - {path1};
      done1 := done1 + {path1};
    }
    JoinedAll(next, t, k, mmin);
  }

  /** Lines 47-53 for one first parent `path1`: it is joined with every path
      of the table in turn. */
  method JoinFirst(t: Table, k: nat, mmin: int, ghost done1: set<Path>, path1: Path, next0: Table) returns (next: Table)
    requires k >= 1 && forall p :: p in t ==> |p| == k
    requires path1 in t
    requires JoinedSoFar(next0, t, k, mmin, done1, [], {})
    ensures JoinedSoFar(next, t, k, mmin, done1 + {path1}, [], {})
  {
    next := next0;
    var paths2 := t.Keys;
    ghost var done2: set<Path> := {};
    JoinStart(next, t, k, mmin, done1, path1);
    while paths2 != {}
      invariant paths2 + done2 == t.Keys && paths2 !! done2
      invariant JoinedSoFar(next, t, k, mmin, done1, path1, done2)
    {
      var path2 :| path2 in paths2;
      if path1[1..] == path2[..|path2| - 1] {
        var newPath := path1 + [path2[|path2| - 1]];
        var combinedIds := t[path1] * t[path2];
        if |combinedIds| >= mmin {
          JoinStepAdd(next, t, k, mmin, done1, path1, done2, path2);
          next := next[newPath := combinedIds];
        } else {
          JoinStepSkip(next, t, k, mmin, done1, path1, done2, path2);
        }
      } else {
        JoinStepSkip(next, t, k, mmin, done1, path1, done2, path2);
      }
      paths2 := paths2 - {path2};
      done2 := done2 + {path2};
    }
    JoinFinishFirst(next, t, k, mmin, done1, path1);
  }

  /** Lines 17-77 with a bound on the number of join passes. The source runs
      `while pruned_table` without one; `exhausted` reports that the table ran
      empty within the bound, so that the result is the unbounded one. */
  method Ndttj(ts: seq<Trajectory>, kmin: int, mmin: int, maxPasses: nat)
    returns (r: Result<set<Path>>, exhausted: bool)
    ensures r.Err? <==> ts == []
    ensures r.Err? ==> r.error == ValueError
    ensures r.Ok? ==> forall p :: p in r.value <==>
      |p| >= kmin && |p| <= maxPasses + 2 && Frequent(ts, mmin, p)
    ensures r.Ok? ==> (exhausted <==> forall p :: |p| == maxPasses + 2 ==> !Frequent(ts, mmin, p))
    ensures r.Ok? && exhausted ==> forall p :: Frequent(ts, mmin, p) ==> |p| <= maxPasses + 1
  {
    if ts == [] {
      return Err(ValueError), false;
    }
    var pathTable := PairTable(ts);
    var prunedTable := Prune(pathTable, mmin);
    var k := 2;
    var passes := 0;
    var resultPaths := prunedTable;
    while prunedTable != map[] && passes < maxPasses
      invariant passes <= maxPasses && k == passes + 2
      invariant prunedTable == Level(pathTable, mmin, passes)
      invariant resultPaths == Accumulated(pathTable, mmin, passes)
    {
      LevelLength(ts, pathTable, mmin, passes);
      prunedTable := JoinPass(prunedTable, k, mmin);
      assert prunedTable == Level(pathTable, mmin, passes + 1);
      assert Accumulated(pathTable, mmin, passes + 1) == resultPaths + prunedTable;
      resultPaths := resultPaths + prunedTable;
      k := k + 1;
      passes := passes + 1;
    }
    exhausted := prunedTable == map[];
    r := Ok(set p | p in resultPaths && |p| >= kmin);
    NdttjOutcome(ts, pathTable, mmin, passes, maxPasses);
  }

  // ---------------------------------------------------------------------
  // The join loop, step by step.

  /** A path of length `k + 1` is the join of `p1` and `p2` exactly when they
      are its two overlapping parents. */
  lemma JoinShape(p1: Path, p2: Path, q: Path, k: nat)
    requires k >= 1 && |p1| == k && |p2| == k && |q| == k + 1
    ensures Init(q) == p1 && Tail(q) == p2 <==> Tail(p1) == Init(p2) && q == Joined(p1, p2)
  {
    if Init(q) == p1 && Tail(q) == p2 {
      assert Tail(p1) == q[1..k] == Init(p2);
      assert q == q[..k] + [q[k]];
    }
    if Tail(p1) == Init(p2) && q == Joined(p1, p2) {
      assert Init(q) == p1;
      assert Tail(q) == p1[1..] + [p2[k - 1]] == p2[..k - 1] + [p2[k - 1]] == p2;
    }
  }

  lemma JoinStart(next: Table, t: Table, k: nat, mmin: int, done1: set<Path>, path1: Path)
    requires JoinedSoFar(next, t, k, mmin, done1, [], {})
    ensures JoinedSoFar(next, t, k, mmin, done1, path1, {})
  {
  }

  /** The inner loop visits a joinable pair whose intersection is large enough. */
  lemma JoinStepAdd(next: Table, t: Table, k: nat, mmin: int, done1: set<Path>, path1: Path, done2: set<Path>, path2: Path)
    requires k >= 1 && forall p :: p in t ==> |p| == k
    requires path1 in t && path2 in t
    requires path1[1..] == path2[..|path2| - 1] && |t[path1] * t[path2]| >= mmin
    requires JoinedSoFar(next, t, k, mmin, done1, path1, done2)
    ensures JoinedSoFar(next[path1 + [path2[|path2| - 1]] := t[path1] * t[path2]], t, k, mmin, done1, path1, done2 + {path2})
  {
    var nq := path1 + [path2[k - 1]];
    var next' := next[nq := t[path1] * t[path2]];
    JoinShape(path1, path2, nq, k);
    forall q | |q| == k + 1 && Init(q) in t && Tail(q) in t && Visited(q, done1, path1, done2 + {path2})
        && |t[Init(q)] * t[Tail(q)]| >= mmin
      ensures q in next'
    {
      JoinShape(path1, path2, q, k);
    }
  }

  /** The inner loop visits a pair that does not join, or whose intersection
      is too small: nothing is added. */
  lemma JoinStepSkip(next: Table, t: Table, k: nat, mmin: int, done1: set<Path>, path1: Path, done2: set<Path>, path2: Path)
    requires k >= 1 && forall p :: p in t ==> |p| == k
    requires path1 in t && path2 in t
    requires !(path1[1..] == path2[..|path2| - 1] && |t[path1] * t[path2]| >= mmin)
    requires JoinedSoFar(next, t, k, mmin, done1, path1, done2)
    ensures JoinedSoFar(next, t, k, mmin, done1, path1, done2 + {path2})
  {
    forall q | |q| == k + 1 && Init(q) in t && Tail(q) in t && Visited(q, done1, path1, done2 + {path2})
        && |t[Init(q)] * t[Tail(q)]| >= mmin
      ensures q in next
    {
      JoinShape(path1, path2, q, k);
    }
  }

  /** The outer loop finishes `path1`. */
  lemma JoinFinishFirst(next: Table, t: Table, k: nat, mmin: int, done1: set<Path>, path1: Path)
    requires JoinedSoFar(next, t, k, mmin, done1, path1, t.Keys)
    ensures JoinedSoFar(next, t, k, mmin, done1 + {path1}, [], {})
  {
  }

  /** Once every first parent is finished, the loop has built `Join(t, mmin)`. */
  lemma JoinedAll(next: Table, t: Table, k: nat, mmin: int)
    requires k >= 1 && forall p :: p in t ==> |p| == k
    requires JoinedSoFar(next, t, k, mmin, t.Keys, [], {})
    ensures next == Join(t, mmin)
  {
    var j := Join(t, mmin);
    JoinIff(t, k, mmin);
    forall q
      ensures q in next <==> q in j
    {
      if |q| == k + 1 && Init(q) in t && Tail(q) in t {
        assert Visited(q, t.Keys, [], {});
      }
    }
    forall q | q in next
      ensures next[q] == j[q]
    {
    }
  }

  // ---------------------------------------------------------------------
  // The join, the pass tables and what they contain.

  lemma JoinKeysIff(t: Table, k: nat)
    requires k >= 1 && forall p :: p in t ==> |p| == k
    ensures forall q :: q in JoinKeys(t) <==> |q| == k + 1 && Init(q) in t && Tail(q) in t
  {
    forall q | q in JoinKeys(t)
      ensures |q| == k + 1 && Init(q) in t && Tail(q) in t
    {
      var p1, p2 :| p1 in t.Keys && p2 in t.Keys && |p1| >= 1 && |p2| >= 1
        && Tail(p1) == Init(p2) && q == Joined(p1, p2);
      JoinShape(p1, p2, q, k);
    }
    forall q | |q| == k + 1 && Init(q) in t && Tail(q) in t
      ensures q in JoinKeys(t)
    {
      var p1, p2 := Init(q), Tail(q);
      JoinShape(p1, p2, q, k);
      assert p1 in t.Keys && p2 in t.Keys && q == Joined(p1, p2);
    }
  }

  /** One pass keeps exactly the paths of length `k + 1` whose two parents are
      in the table and whose parents' id sets meet in at least `mmin` ids. */
  lemma JoinIff(t: Table, k: nat, mmin: int)
    requires k >= 1 && forall p :: p in t ==> |p| == k
    ensures forall q :: q in Join(t, mmin) <==>
      |q| == k + 1 && Init(q) in t && Tail(q) in t && |t[Init(q)] * t[Tail(q)]| >= mmin
    ensures forall q :: q in Join(t, mmin) ==> Join(t, mmin)[q] == t[Init(q)] * t[Tail(q)]
  {
    JoinKeysIff(t, k);
  }

  lemma PairOfInitTail(q: Path)
    requires |q| >= 2
    ensures forall j :: 0 <= j < |q| - 2 ==> PairOf(Init(q), j) == PairOf(q, j)
    ensures forall j :: 0 <= j < |q| - 2 ==> PairOf(Tail(q), j) == PairOf(q, j + 1)
  {
  }

  /** The pairs of a path are the pairs of its two overlapping parents, so
      the ids the join keeps are the intersection of theirs. */
  lemma PairIdsJoin(ts: seq<Trajectory>, q: Path)
    requires |q| >= 3
    ensures PairIds(ts, q) == PairIds(ts, Init(q)) * PairIds(ts, Tail(q))
    ensures PairsOccur(ts, q) <==> PairsOccur(ts, Init(q)) && PairsOccur(ts, Tail(q))
  {
    var a, b := Init(q), Tail(q);
    PairOfInitTail(q);
    forall x | x in PairIds(ts, a) * PairIds(ts, b)
      ensures x in PairIds(ts, q)
    {
      forall j | 0 <= j < |q| - 1
        ensures x in Support(ts, PairOf(q, j))
      {
        if j < |q| - 2 {
          assert x in Support(ts, PairOf(a, j));
        } else {
          assert x in Support(ts, PairOf(b, j - 1));
        }
      }
    }
    if PairsOccur(ts, a) && PairsOccur(ts, b) {
      forall j | 0 <= j < |q| - 1
        ensures Support(ts, PairOf(q, j)) != {}
      {
        if j < |q| - 2 {
          assert Support(ts, PairOf(a, j)) != {};
        } else {
          assert Support(ts, PairOf(b, j - 1)) != {};
        }
      }
    }
  }

  /** Both parents of a frequent path of three or more nodes are frequent. */
  lemma FrequentInitTail(ts: seq<Trajectory>, mmin: int, q: Path)
    requires Frequent(ts, mmin, q) && |q| >= 3
    ensures Frequent(ts, mmin, Init(q)) && Frequent(ts, mmin, Tail(q))
  {
    PairIdsJoin(ts, q);
    SubsetCard(PairIds(ts, q), PairIds(ts, Init(q)));
    SubsetCard(PairIds(ts, q), PairIds(ts, Tail(q)));
  }

  /** A frequent path's prefixes of two or more nodes are frequent. */
  lemma {:induction false} FrequentPrefix(ts: seq<Trajectory>, mmin: int, p: Path, m: nat)
    requires Frequent(ts, mmin, p) && 2 <= m <= |p|
    ensures Frequent(ts, mmin, p[..m])
    decreases |p|
  {
    if m < |p| {
      FrequentInitTail(ts, mmin, p);
      FrequentPrefix(ts, mmin, Init(p), m);
      assert Init(p)[..m] == p[..m];
    } else {
      assert p[..m] == p;
    }
  }

  /** Table `t` holds exactly the frequent paths of length `m`, each with the
      ids of `PairIds`. */
  ghost predicate HoldsFrequent(ts: seq<Trajectory>, mmin: int, t: Table, m: nat) {
    && (forall p :: p in t <==> |p| == m && Frequent(ts, mmin, p))
    && (forall p :: p in t ==> t[p] == PairIds(ts, p))
  }

  /** The first pass: the pruned pair table holds the frequent pairs, and for
      a pair the join's ids are its support. */
  lemma LevelZeroIff(ts: seq<Trajectory>, t0: Table, mmin: int)
    requires IsPairTable(t0, ts)
    ensures HoldsFrequent(ts, mmin, Prune(t0, mmin), 2)
  {
    forall p | |p| == 2
      ensures PairIds(ts, p) == Support(ts, p)
      ensures PairsOccur(ts, p) <==> Support(ts, p) != {}
    {
      assert PairOf(p, 0) == p;
      SupportInAllIds(ts, p);
    }
  }

  /** One join pass turns the frequent paths of length `m` into those of
      length `m + 1`. */
  lemma JoinHoldsFrequent(ts: seq<Trajectory>, mmin: int, t: Table, m: nat)
    requires m >= 2 && HoldsFrequent(ts, mmin, t, m)
    ensures HoldsFrequent(ts, mmin, Join(t, mmin), m + 1)
  {
    JoinIff(t, m, mmin);
    forall q | |q| == m + 1
      ensures q in Join(t, mmin) <==> Frequent(ts, mmin, q)
    {
      PairIdsJoin(ts, q);
      if Frequent(ts, mmin, q) {
        FrequentInitTail(ts, mmin, q);
      }
    }
    forall q | q in Join(t, mmin)
      ensures Join(t, mmin)[q] == PairIds(ts, q)
    {
      PairIdsJoin(ts, q);
    }
  }

  /** By induction on the number of passes. */
  lemma {:induction false} LevelInduction(ts: seq<Trajectory>, t0: Table, mmin: int, n: nat)
    requires IsPairTable(t0, ts)
    ensures HoldsFrequent(ts, mmin, Level(t0, mmin, n), n + 2)
  {
    if n == 0 {
      LevelZeroIff(ts, t0, mmin);
    } else {
      LevelInduction(ts, t0, mmin, n - 1);
      JoinHoldsFrequent(ts, mmin, Level(t0, mmin, n - 1), n + 1);
    }
  }

  /** The join miner's characterisation, spelled out: the Apriori pruning
      loses no frequent path and keeps no other, and the id sets are those of
      `PairIds`. */
  lemma LevelIff(ts: seq<Trajectory>, t0: Table, mmin: int, n: nat)
    requires IsPairTable(t0, ts)
    ensures forall p :: p in Level(t0, mmin, n) <==> |p| == n + 2 && Frequent(ts, mmin, p)
    ensures forall p :: p in Level(t0, mmin, n) ==> Level(t0, mmin, n)[p] == PairIds(ts, p)
  {
    LevelInduction(ts, t0, mmin, n);
  }

  /** All paths of one pass have the same length: two at first, one more per pass. */
  lemma LevelLength(ts: seq<Trajectory>, t0: Table, mmin: int, n: nat)
    requires IsPairTable(t0, ts)
    ensures forall p :: p in Level(t0, mmin, n) ==> |p| == n + 2
  {
    LevelIff(ts, t0, mmin, n);
  }

  /** Every entry the miner keeps has at least `mmin` ids. */
  lemma LevelSupport(ts: seq<Trajectory>, t0: Table, mmin: int, n: nat)
    requires IsPairTable(t0, ts)
    ensures forall p :: p in Level(t0, mmin, n) ==> |Level(t0, mmin, n)[p]| >= mmin
  {
    LevelIff(ts, t0, mmin, n);
  }

  /** Anti-monotonicity: a joined path's parents are in the previous pass and
      its id set lies in each of theirs, so its support is at most the
      smaller of their supports. */
  lemma LevelAntiMonotone(ts: seq<Trajectory>, t0: Table, mmin: int, n: nat, q: Path)
    requires IsPairTable(t0, ts) && q in Level(t0, mmin, n + 1)
    ensures var t := Level(t0, mmin, n);
      |q| == n + 3 && Init(q) in t && Tail(q) in t
      && Level(t0, mmin, n + 1)[q] <= t[Init(q)] && Level(t0, mmin, n + 1)[q] <= t[Tail(q)]
      && |Level(t0, mmin, n + 1)[q]| <= |t[Init(q)]| && |Level(t0, mmin, n + 1)[q]| <= |t[Tail(q)]|
  {
    var t := Level(t0, mmin, n);
    LevelLength(ts, t0, mmin, n);
    JoinIff(t, n + 2, mmin);
    SubsetCard(t[Init(q)] * t[Tail(q)], t[Init(q)]);
    SubsetCard(t[Init(q)] * t[Tail(q)], t[Tail(q)]);
  }

  /** Table `t` holds exactly the frequent paths of at most `m` nodes. */
  ghost predicate HoldsUpTo(ts: seq<Trajectory>, mmin: int, t: Table, m: nat) {
    forall p :: p in t <==> |p| <= m && Frequent(ts, mmin, p)
  }

  /** `result_paths` after `n` passes holds every frequent path of two to
      `n + 2` nodes. */
  lemma AccumulatedIff(ts: seq<Trajectory>, t0: Table, mmin: int, n: nat)
    requires IsPairTable(t0, ts)
    ensures forall p :: p in Accumulated(t0, mmin, n) <==> |p| <= n + 2 && Frequent(ts, mmin, p)
  {
    AccumulatedHolds(ts, t0, mmin, n);
  }

  /** By induction on the number of passes, one pass's table at a time. */
  lemma {:induction false} AccumulatedHolds(ts: seq<Trajectory>, t0: Table, mmin: int, n: nat)
    requires IsPairTable(t0, ts)
    ensures HoldsUpTo(ts, mmin, Accumulated(t0, mmin, n), n + 2)
  {
    if n == 0 {
      AccumulatedBase(ts, t0, mmin);
    } else {
      AccumulatedHolds(ts, t0, mmin, n - 1);
      AccumulatedStep(ts, t0, mmin, n);
    }
  }

  /** One more pass adds exactly the frequent paths of `n + 2` nodes. */
  lemma AccumulatedStep(ts: seq<Trajectory>, t0: Table, mmin: int, n: nat)
    requires IsPairTable(t0, ts) && n >= 1
    requires HoldsUpTo(ts, mmin, Accumulated(t0, mmin, n - 1), n - 1 + 2)
    ensures HoldsUpTo(ts, mmin, Accumulated(t0, mmin, n), n + 2)
  {
    LevelInduction(ts, t0, mmin, n);
    UnionUpTo(ts, mmin, Accumulated(t0, mmin, n - 1), Level(t0, mmin, n), n - 1 + 2);
  }

  /** Before any join pass the result is the first pass's table, which holds
      the frequent pairs: a frequent path has at least two nodes. */
  lemma AccumulatedBase(ts: seq<Trajectory>, t0: Table, mmin: int)
    requires IsPairTable(t0, ts)
    ensures HoldsUpTo(ts, mmin, Accumulated(t0, mmin, 0), 2)
  {
    LevelInduction(ts, t0, mmin, 0);
    assert Accumulated(t0, mmin, 0) == Level(t0, mmin, 0);
  }

  /** The frequent paths of at most `m` nodes together with those of exactly
      `m + 1` nodes are those of at most `m + 1` nodes. */
  lemma UnionUpTo(ts: seq<Trajectory>, mmin: int, before: Table, level: Table, m: nat)
    requires HoldsUpTo(ts, mmin, before, m) && HoldsFrequent(ts, mmin, level, m + 1)
    ensures HoldsUpTo(ts, mmin, before + level, m + 1)
  {
  }

  /** Once a pass comes out empty, no longer path is frequent, so every later
      pass is empty too. */
  lemma EmptyLevelBoundsFrequent(ts: seq<Trajectory>, t0: Table, mmin: int, n: nat)
    requires IsPairTable(t0, ts) && Level(t0, mmin, n) == map[]
    ensures forall p :: Frequent(ts, mmin, p) ==> |p| <= n + 1
  {
    LevelIff(ts, t0, mmin, n);
    forall p | Frequent(ts, mmin, p)
      ensures |p| <= n + 1
    {
      if |p| > n + 1 {
        FrequentPrefix(ts, mmin, p, n + 2);
        assert false;
      }
    }
  }

  /** What the bounded loop has when it stops: the result holds the frequent
      paths up to the bound, and the table is empty exactly when no path of
      the next length is frequent. */
  lemma NdttjOutcome(ts: seq<Trajectory>, t0: Table, mmin: int, passes: nat, maxPasses: nat)
    requires IsPairTable(t0, ts) && passes <= maxPasses
    requires Level(t0, mmin, passes) == map[] || passes == maxPasses
    ensures forall p :: p in Accumulated(t0, mmin, passes) <==> |p| <= maxPasses + 2 && Frequent(ts, mmin, p)
    ensures Level(t0, mmin, passes) == map[] <==> forall p :: |p| == maxPasses + 2 ==> !Frequent(ts, mmin, p)
    ensures Level(t0, mmin, passes) == map[] ==> forall p :: Frequent(ts, mmin, p) ==> |p| <= maxPasses + 1
  {
    AccumulatedIff(ts, t0, mmin, passes);
    LevelIff(ts, t0, mmin, passes);
    if Level(t0, mmin, passes) == map[] {
      EmptyLevelBoundsFrequent(ts, t0, mmin, passes);
    } else {
      var p :| p in Level(t0, mmin, passes);
      assert |p| == maxPasses + 2 && Frequent(ts, mmin, p);
    }
  }

  /** The join over-approximates support: every trajectory that contains `p`
      is among the ids the join keeps for it. */
  lemma SupportWithinPairIds(ts: seq<Trajectory>, p: Path)
    ensures Support(ts, p) <= PairIds(ts, p)
  {
    forall x | x in Support(ts, p)
      ensures x in PairIds(ts, p)
    {
      var k :| 0 <= k < |ts| && Occurs(Locs(ts[k]), p) && ts[k].trajectoryId == x;
      var s := Locs(ts[k]);
      var i :| OccursAt(s, p, i);
      forall j | 0 <= j < |p| - 1
        ensures x in Support(ts, PairOf(p, j))
      {
        assert s[i + j..i + j + 2] == s[i..i + |p|][j..j + 2] == PairOf(p, j);
        InSupport(ts, k, PairOf(p, j), i + j);
      }
    }
  }

  // ---------------------------------------------------------------------
  // Two concrete inputs.

  function A(): Point { Point(0.0, 0.0, 0) }
  function B(): Point { Point(1.0, 0.0, 1) }
  function C(): Point { Point(2.0, 0.0, 2) }
  function Z(): Point { Point(3.0, 0.0, 3) }

  /** The single trajectory `1` supports exactly the pairs it contains. */
  lemma SingleSupport(ts: seq<Trajectory>, q: Path, i: nat)
    requires |ts| == 1 && ts[0].trajectoryId == 1 && OccursAt(Locs(ts[0]), q, i)
    ensures Support(ts, q) == {1}
  {
    InSupport(ts, 0, q, i);
    SupportInAllIds(ts, q);
    assert AllIds(ts) == {1};
  }

  /** The join reports a path that no trajectory contains: in the single
      trajectory A, B, Z, B, C both pairs of A, B, C occur, so A, B, C gets id
      1 and is returned with `mmin = 1`, yet its true support is empty. */
  lemma JoinReportsUnseenPath()
    ensures var ts := [Trajectory(1, [A(), B(), Z(), B(), C()])];
      var p := [KeyOf(A()), KeyOf(B()), KeyOf(C())];
      Frequent(ts, 1, p) && PairIds(ts, p) == {1} && Support(ts, p) == {}
  {
    var ts := [Trajectory(1, [A(), B(), Z(), B(), C()])];
    var s := Locs(ts[0]);
    var a, b, c, z := KeyOf(A()), KeyOf(B()), KeyOf(C()), KeyOf(Z());
    var p := [a, b, c];
    assert s == [a, b, z, b, c];
    assert PairOf(p, 0) == [a, b] == s[0..2];
    assert PairOf(p, 1) == [b, c] == s[3..5];
    SingleSupport(ts, PairOf(p, 0), 0);
    SingleSupport(ts, PairOf(p, 1), 3);
    forall i
      ensures !OccursAt(s, p, i)
    {
      if 0 <= i && i + 3 <= 5 {
        if i == 0 {
          assert s[i..i + 3][2] != p[2];
        } else {
          assert s[i..i + 3][0] != p[0];
        }
      }
    }
    assert AllIds(ts) == {1};
    assert PairIds(ts, p) == {1};
  }

  /** The input on which the source's `while pruned_table` never ends: one
      trajectory A, B, A with `mmin = 1` makes every pass non-empty, because
      the alternating path A, B, A, B, ... of any length is frequent. */
  lemma JoinLoopNeverEnds(t0: Table, n: nat)
    requires IsPairTable(t0, [Trajectory(1, [A(), B(), A()])])
    ensures Level(t0, 1, n) != map[]
  {
    var ts := [Trajectory(1, [A(), B(), A()])];
    var p := Alternating(n + 2);
    AlternatingFrequent(n + 2);
    LevelIff(ts, t0, 1, n);
    assert p in Level(t0, 1, n);
  }

  /** A, B, A, B, ... with `m` nodes. */
  ghost function Alternating(m: nat): (p: Path)
    ensures |p| == m
  {
    seq(m, i => if i % 2 == 0 then KeyOf(A()) else KeyOf(B()))
  }

  lemma AlternatingFrequent(m: nat)
    requires m >= 2
    ensures Frequent([Trajectory(1, [A(), B(), A()])], 1, Alternating(m))
  {
    var ts := [Trajectory(1, [A(), B(), A()])];
    var a, b := KeyOf(A()), KeyOf(B());
    var s := Locs(ts[0]);
    assert s == [a, b, a];
    assert s[0..2] == [a, b] && s[1..3] == [b, a];
    SingleSupport(ts, [a, b], 0);
    SingleSupport(ts, [b, a], 1);
    var p := Alternating(m);
    forall j | 0 <= j < |p| - 1
      ensures Support(ts, PairOf(p, j)) == {1}
    {
      if j % 2 == 0 {
        assert p[j] == a && p[j + 1] == b;
        assert PairOf(p, j) == [a, b];
      } else {
        assert p[j] == b && p[j + 1] == a;
        assert PairOf(p, j) == [b, a];
      }
    }
    assert AllIds(ts) == {1};
    assert 1 in PairIds(ts, p);
    SubsetCard({1}, PairIds(ts, p));
  }
}
