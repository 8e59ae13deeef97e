/** TTHS, the graph miner: a transition-count graph over whole trajectory
    points and a depth-first search that keeps the walks whose edges all
    carry at least `mmin` transitions. */
module Tths {
  import opened Wrappers
  import opened Points

  /** One element of the miner's input: a list of point dictionaries, or
      anything else (which `build_graph` rejects). */
  datatype RawTrajectory = PointList(points: seq<Point>) | NotAPointList

  /** `graph[u][v]`: the number of adjacent `(u, v)` occurrences. A node is
      the whole point, timestamp included. */
  type Graph = map<Point, map<Point, int>>

  /** The nested `defaultdict(int)` lookup: 0 for an absent edge. */
  function Weight(g: Graph, u: Point, v: Point): int {
    if u in g && v in g[u] then g[u][v] else 0
  }

  /** The edges the search follows from `u`: present, with at least `mmin`
      transitions. */
  predicate EdgeIn(g: Graph, mmin: int, u: Point, v: Point) {
    u in g && v in g[u] && g[u][v] >= mmin
  }

  /** Adjacent `(u, v)` occurrences in `s` at positions below `n`. */
  ghost function Occurrences(s: seq<Point>, u: Point, v: Point, n: nat): nat
    decreases n
  {
    if n == 0 then 0
    else Occurrences(s, u, v, n - 1) + (if n < |s| && s[n - 1] == u && s[n] == v then 1 else 0)
  }

  /** Adjacent `(u, v)` occurrences over all trajectories, counted with
      repetition: occurrences, not distinct trajectories. */
  ghost function PairCount(trajs: seq<RawTrajectory>, u: Point, v: Point): nat
    decreases |trajs|
  {
    if trajs == [] then 0
    else
      var last := trajs[|trajs| - 1];
      PairCount(trajs[..|trajs| - 1], u, v)
      + (if last.PointList? then Occurrences(last.points, u, v, |last.points|) else 0)
  }

  /** Every stored node has a successor and every stored count is positive,
      as happens when entries are only created by `+= 1`. */
  ghost predicate Shape(g: Graph) {
    && (forall u :: u in g ==> g[u] != map[])
    && (forall u, v :: u in g && v in g[u] ==> g[u][v] >= 1)
  }

  /** `g` is the transition-count graph of `trajs`. */
  ghost predicate IsTransitionGraph(g: Graph, trajs: seq<RawTrajectory>) {
    Shape(g) && forall u, v :: Weight(g, u, v) == PairCount(trajs, u, v)
  }

  /** `graph[u][v] += 1` on the nested default dictionaries. */
  function AddTransition(g: Graph, u: Point, v: Point): (r: Graph)
    requires Shape(g)
    ensures Shape(r)
    ensures forall a, b :: Weight(r, a, b) == Weight(g, a, b) + (if a == u && b == v then 1 else 0)
  {
    var row := if u in g then g[u] else map[];
    var r := g[u := row[v := Weight(g, u, v) + 1]];
    assert forall a, b :: Weight(r, a, b) == Weight(g, a, b) + (if a == u && b == v then 1 else 0) by {
      forall a, b
        ensures Weight(r, a, b) == Weight(g, a, b) + (if a == u && b == v then 1 else 0)
      {
        if a == u && b != v {
          assert (b in r[a]) == (b in row);
        }
      }
    }
    r
  }

  /** Lines 5-19: the graph of adjacent-point transition counts, or
      ValueError when some element is not a list of point dictionaries. */
  method BuildGraph(trajs: seq<RawTrajectory>) returns (r: Result<Graph>)
    ensures r.Err? <==> exists j :: 0 <= j < |trajs| && trajs[j].NotAPointList?
    ensures r.Err? ==> r.error == ValueError
    ensures r.Ok? ==> IsTransitionGraph(r.value, trajs)
  {
    var graph: Graph := map[];
    var j := 0;
    while j < |trajs|
      invariant 0 <= j <= |trajs|
      invariant forall j' :: 0 <= j' < j ==> trajs[j'].PointList?
      invariant Shape(graph)
      invariant forall u, v :: Weight(graph, u, v) == PairCount(trajs[..j], u, v)
    {
      if trajs[j].NotAPointList? {
        return Err(ValueError);
      }
      var trajectory := trajs[j].points;
      var i := 0;
      while i < |trajectory| - 1
        invariant 0 <= i <= if |trajectory| == 0 then 0 else |trajectory| - 1
        invariant Shape(graph)
        invariant forall u, v :: Weight(graph, u, v) == PairCount(trajs[..j], u, v) + Occurrences(trajectory, u, v, i)
      {
        graph := AddTransition(graph, trajectory[i], trajectory[i + 1]);
        i := i + 1;
      }
      OccurrencesEnd(trajectory, i);
      PairCountSnoc(trajs, j);
      j := j + 1;
    }
    assert trajs[..j] == trajs;
    return Ok(graph);
  }

  /** The corrected frequency of a path: the minimum edge weight along it, as
      the comment at line 50 describes. */
  function MinWeight(g: Graph, path: seq<Point>): int
    requires |path| >= 2
    decreases |path|
  {
    if |path| == 2 then Weight(g, path[0], path[1])
    else
      var rest := MinWeight(g, path[1..]);
      if Weight(g, path[0], path[1]) <= rest then Weight(g, path[0], path[1]) else rest
  }

  /** The successors `graph[current_node]` iterates over. */
  function Successors(g: Graph, u: Point): set<Point> {
    if u in g then g[u].Keys else {}
  }

  /** The paths the search records from `path`, with at most `fuel` further
      levels of recursion. */
  ghost function Explore(g: Graph, kmin: int, mmin: int, path: seq<Point>, fuel: nat): set<seq<Point>>
    requires |path| >= 1
    decreases fuel, 0
  {
    if |path| >= 2 && MinWeight(g, path) < mmin then {}
    else
      (if |path| >= 2 && |path| >= kmin then {path} else {})
      + (if fuel == 0 then {} else Children(g, kmin, mmin, path, fuel - 1, Successors(g, path[|path| - 1])))
  }

  /** What the searches from `path + [s]`, for the successors `s` in `S`
      reached over an edge of at least `mmin` transitions, record. */
  ghost function Children(g: Graph, kmin: int, mmin: int, path: seq<Point>, fuel: nat, S: set<Point>): set<seq<Point>>
    requires |path| >= 1
    decreases fuel, 1
  {
    set q, s | s in S && EdgeIn(g, mmin, path[|path| - 1], s) && q in Explore(g, kmin, mmin, path + [s], fuel) :: q
  }

  /** Lines 48-60, the recursive `dfs`, with a recursion budget: `fuel` more
      levels. It adds to `found` what the search from `path` records. */
  method Dfs(g: Graph, kmin: int, mmin: int, path: seq<Point>, node: Point, fuel: nat, found: set<seq<Point>>)
    returns (found': set<seq<Point>>)
    requires |path| >= 1 && node == path[|path| - 1]
    ensures found' == found + Explore(g, kmin, mmin, path, fuel)
    decreases fuel, 1
  {
    found' := found;
    if |path| >= 2 {
      var freq := MinWeight(g, path);
      if freq >= mmin {
        if |path| >= kmin {
          found' := found' + {path};
        }
      } else {
        return;
      }
    }
    if fuel == 0 {
      return;
    }
    found' := DfsNeighbors(g, kmin, mmin, path, node, fuel - 1, found');
    ExploreSplit(g, kmin, mmin, path, fuel);
  }

  /** Lines 58-60: the loop of `dfs` over `graph[current_node]`, recursing
      along every edge of at least `mmin` transitions. */
  method DfsNeighbors(g: Graph, kmin: int, mmin: int, path: seq<Point>, node: Point, fuel: nat, found: set<seq<Point>>)
    returns (found': set<seq<Point>>)
    requires |path| >= 1 && node == path[|path| - 1]
    ensures found' == found + Children(g, kmin, mmin, path, fuel, Successors(g, node))
    decreases fuel, 2
  {
    found' := found;
    var row := if node in g then g[node] else map[];
    var neighbors := row.Keys;
    ghost var done: set<Point> := {};
    while neighbors != {}
      invariant neighbors + done == row.Keys && neighbors !! done
      invariant found' == found + Children(g, kmin, mmin, path, fuel, done)
    {
      var neighbor :| neighbor in neighbors;
      ChildrenAdd(g, kmin, mmin, path, fuel, done, neighbor);
      assert (row[neighbor] >= mmin) == EdgeIn(g, mmin, node, neighbor);
      if row[neighbor] >= mmin {
        found' := Dfs(g, kmin, mmin, path + [neighbor], neighbor, fuel, found');
      }
      neighbors := neighbors - {neighbor};
      done := done + {neighbor};
    }
  }

  /** What the searches started from the nodes in `S` record. */
  ghost function StartsFound(g: Graph, kmin: int, mmin: int, fuel: nat, S: set<Point>): set<seq<Point>> {
    set q, n | n in S && q in Explore(g, kmin, mmin, [n], fuel) :: q
  }

  /** A hotspot of the miner: at least two and at least `kmin` points, each
      step a transition that occurs at least once and at least `mmin` times. */
  ghost predicate Hotspot(trajs: seq<RawTrajectory>, kmin: int, mmin: int, q: seq<Point>) {
    && |q| >= 2 && |q| >= kmin
    && forall i :: 0 <= i < |q| - 1 ==> PairCount(trajs, q[i], q[i + 1]) >= 1 && PairCount(trajs, q[i], q[i + 1]) >= mmin
  }

  /** Lines 22-68 with the corrected frequency and a recursion budget of
      `fuel` levels per start node. */
  method Tths(trajs: seq<RawTrajectory>, kmin: int, mmin: int, fuel: nat) returns (r: Result<set<seq<Point>>>)
    ensures r.Err? <==> trajs == [] || exists j :: 0 <= j < |trajs| && trajs[j].NotAPointList?
    ensures r.Err? ==> r.error == ValueError
    ensures r.Ok? ==> forall q :: q in r.value <==> Hotspot(trajs, kmin, mmin, q) && |q| <= fuel + 1
  {
    if trajs == [] {
      return Err(ValueError);
    }
    var built := BuildGraph(trajs);
    if built.Err? {
      return Err(built.error);
    }
    var graph := built.value;
    var resultPaths: set<seq<Point>> := {};
    var nodes := graph.Keys;
    ghost var done: set<Point> := {};
    while nodes != {}
      invariant nodes + done == graph.Keys && nodes !! done
      invariant resultPaths == StartsFound(graph, kmin, mmin, fuel, done)
    {
      var node :| node in nodes;
      StartsFoundAdd(graph, kmin, mmin, fuel, done, node);
      resultPaths := Dfs(graph, kmin, mmin, [node], node, fuel, resultPaths);
      nodes := nodes - {node};
      done := done + {node};
    }
    r := Ok(set q | q in resultPaths && |q| >= kmin);
    TthsOutcome(trajs, graph, kmin, mmin, fuel);
  }

  // ---------------------------------------------------------------------
  // The transition counts.

  lemma OccurrencesEnd(s: seq<Point>, i: nat)
    requires i == if |s| == 0 then 0 else |s| - 1
    ensures forall u, v :: Occurrences(s, u, v, i) == Occurrences(s, u, v, |s|)
  {
  }

  lemma PairCountSnoc(trajs: seq<RawTrajectory>, j: nat)
    requires j < |trajs| && trajs[j].PointList?
    ensures forall u, v ::
      PairCount(trajs[..j + 1], u, v) == PairCount(trajs[..j], u, v) + Occurrences(trajs[j].points, u, v, |trajs[j].points|)
  {
    assert trajs[..j + 1][..j] == trajs[..j];
  }

  // ---------------------------------------------------------------------
  // What the search records.

  /** A walk of `g` along edges of at least `mmin` transitions. */
  ghost predicate Walk(g: Graph, mmin: int, q: seq<Point>) {
    forall i :: 0 <= i < |q| - 1 ==> EdgeIn(g, mmin, q[i], q[i + 1])
  }

  /** The paths the search from `path` may record with `fuel` levels left:
      walks that extend `path` by at most `fuel` points, with at least two
      and at least `kmin` points. */
  ghost predicate Extends(g: Graph, kmin: int, mmin: int, path: seq<Point>, fuel: nat, q: seq<Point>) {
    && |path| <= |q| <= |path| + fuel && q[..|path|] == path
    && Walk(g, mmin, q) && |q| >= 2 && |q| >= kmin
  }

  /** Along a walk every edge has at least `mmin` transitions, so its
      minimum does too: the corrected pruning never cuts a path the search
      reaches. */
  lemma {:induction false} WalkMinWeight(g: Graph, mmin: int, q: seq<Point>)
    requires |q| >= 2 && Walk(g, mmin, q)
    ensures MinWeight(g, q) >= mmin
    decreases |q|
  {
    assert EdgeIn(g, mmin, q[0], q[1]);
    if |q| > 2 {
      assert Walk(g, mmin, q[1..]) by {
        forall i | 0 <= i < |q[1..]| - 1
          ensures EdgeIn(g, mmin, q[1..][i], q[1..][i + 1])
        {
          assert EdgeIn(g, mmin, q[i + 1], q[i + 2]);
        }
      }
      WalkMinWeight(g, mmin, q[1..]);
    }
  }

  /** A search that is not pruned and has budget left records its own path
      (when long enough) and what its children record. */
  lemma ExploreSplit(g: Graph, kmin: int, mmin: int, path: seq<Point>, fuel: nat)
    requires |path| >= 1 && !(|path| >= 2 && MinWeight(g, path) < mmin) && fuel > 0
    ensures Explore(g, kmin, mmin, path, fuel) ==
      (if |path| >= 2 && |path| >= kmin then {path} else {})
      + Children(g, kmin, mmin, path, fuel - 1, Successors(g, path[|path| - 1]))
  {
  }

  lemma ChildrenAdd(g: Graph, kmin: int, mmin: int, path: seq<Point>, fuel: nat, S: set<Point>, s: Point)
    requires |path| >= 1
    ensures Children(g, kmin, mmin, path, fuel, S + {s}) == Children(g, kmin, mmin, path, fuel, S)
      + (if EdgeIn(g, mmin, path[|path| - 1], s) then Explore(g, kmin, mmin, path + [s], fuel) else {})
  {
  }

  lemma StartsFoundAdd(g: Graph, kmin: int, mmin: int, fuel: nat, S: set<Point>, n: Point)
    ensures StartsFound(g, kmin, mmin, fuel, S + {n}) == StartsFound(g, kmin, mmin, fuel, S) + Explore(g, kmin, mmin, [n], fuel)
  {
  }

  /** One step longer: a walk extending `path + [s]` extends `path`. */
  lemma WalkSnoc(g: Graph, mmin: int, path: seq<Point>, s: Point)
    requires |path| >= 1 && Walk(g, mmin, path) && EdgeIn(g, mmin, path[|path| - 1], s)
    ensures Walk(g, mmin, path + [s])
  {
    var p := path + [s];
    forall i | 0 <= i < |p| - 1
      ensures EdgeIn(g, mmin, p[i], p[i + 1])
    {
      if i < |path| - 1 {
        assert p[i] == path[i] && p[i + 1] == path[i + 1];
      }
    }
  }

  /** The search records exactly the walks that extend its start by at most
      its budget. */
  lemma {:induction false} ExploreIff(g: Graph, kmin: int, mmin: int, path: seq<Point>, fuel: nat)
    requires |path| >= 1 && Walk(g, mmin, path)
    ensures forall q :: q in Explore(g, kmin, mmin, path, fuel) <==> Extends(g, kmin, mmin, path, fuel, q)
    decreases fuel
  {
    if |path| >= 2 {
      WalkMinWeight(g, mmin, path);
    }
    var u := path[|path| - 1];
    forall q
      ensures q in Explore(g, kmin, mmin, path, fuel) <==> Extends(g, kmin, mmin, path, fuel, q)
    {
      var own := |path| >= 2 && |path| >= kmin && q == path;
      if own {
        assert q[..|path|] == path;
      } else if q in Explore(g, kmin, mmin, path, fuel) {
        assert fuel > 0;
        assert q in Children(g, kmin, mmin, path, fuel - 1, Successors(g, u));
        var s :| s in Successors(g, u) && EdgeIn(g, mmin, u, s) && q in Explore(g, kmin, mmin, path + [s], fuel - 1);
        WalkSnoc(g, mmin, path, s);
        ExploreIff(g, kmin, mmin, path + [s], fuel - 1);
        assert q[..|path| + 1] == path + [s];
        assert q[..|path|] == (path + [s])[..|path|] == path;
      }
      if Extends(g, kmin, mmin, path, fuel, q) && !own {
        assert q[..|path|] == path;
        var s := q[|path|];
        assert EdgeIn(g, mmin, q[|path| - 1], q[|path|]);
        assert q[|path| - 1] == u;
        WalkSnoc(g, mmin, path, s);
        ExploreIff(g, kmin, mmin, path + [s], fuel - 1);
        assert q[..|path| + 1] == path + [s];
        assert q in Explore(g, kmin, mmin, path + [s], fuel - 1);
      }
    }
  }

  /** The searches from every node with a successor record exactly the walks
      of two to `fuel + 1` points with at least `kmin` points. */
  lemma StartsFoundIff(g: Graph, kmin: int, mmin: int, fuel: nat)
    ensures forall q :: q in StartsFound(g, kmin, mmin, fuel, g.Keys) <==>
      Walk(g, mmin, q) && 2 <= |q| <= fuel + 1 && |q| >= kmin
  {
    forall q
      ensures q in StartsFound(g, kmin, mmin, fuel, g.Keys) <==> Walk(g, mmin, q) && 2 <= |q| <= fuel + 1 && |q| >= kmin
    {
      if q in StartsFound(g, kmin, mmin, fuel, g.Keys) {
        var n :| n in g.Keys && q in Explore(g, kmin, mmin, [n], fuel);
        ExploreIff(g, kmin, mmin, [n], fuel);
      }
      if Walk(g, mmin, q) && 2 <= |q| <= fuel + 1 && |q| >= kmin {
        assert EdgeIn(g, mmin, q[0], q[1]);
        ExploreIff(g, kmin, mmin, [q[0]], fuel);
        assert q[..1] == [q[0]];
        assert q in Explore(g, kmin, mmin, [q[0]], fuel);
      }
    }
  }

  /** On the transition graph of `trajs`, a walk is a path of transitions
      that occur at least once and at least `mmin` times. */
  lemma WalkIsHotspotPath(trajs: seq<RawTrajectory>, g: Graph, kmin: int, mmin: int, q: seq<Point>)
    requires IsTransitionGraph(g, trajs) && |q| >= 2 && |q| >= kmin
    ensures Walk(g, mmin, q) <==> Hotspot(trajs, kmin, mmin, q)
  {
    forall i | 0 <= i < |q| - 1
      ensures EdgeIn(g, mmin, q[i], q[i + 1]) <==>
        PairCount(trajs, q[i], q[i + 1]) >= 1 && PairCount(trajs, q[i], q[i + 1]) >= mmin
    {
      assert Weight(g, q[i], q[i + 1]) == PairCount(trajs, q[i], q[i + 1]);
    }
  }

  lemma TthsOutcome(trajs: seq<RawTrajectory>, g: Graph, kmin: int, mmin: int, fuel: nat)
    requires IsTransitionGraph(g, trajs)
    ensures forall q :: q in StartsFound(g, kmin, mmin, fuel, g.Keys) && |q| >= kmin <==>
      Hotspot(trajs, kmin, mmin, q) && |q| <= fuel + 1
  {
    StartsFoundIff(g, kmin, mmin, fuel);
    forall q | |q| >= 2 && |q| >= kmin
      ensures Walk(g, mmin, q) <==> Hotspot(trajs, kmin, mmin, q)
    {
      WalkIsHotspotPath(trajs, g, kmin, mmin, q);
    }
  }

  /** Each recorded path is a set element, so it is reported at most once;
      and no single-node path is ever recorded. */
  lemma NoSinglePoint(g: Graph, kmin: int, mmin: int, path: seq<Point>, fuel: nat, q: seq<Point>)
    requires |path| >= 1 && q in Explore(g, kmin, mmin, path, fuel)
    ensures |q| >= 2 && |q| >= kmin
    decreases fuel
  {
    if !(|path| >= 2 && |path| >= kmin && q == path) {
      var u := path[|path| - 1];
      assert fuel > 0;
      assert q in Children(g, kmin, mmin, path, fuel - 1, Successors(g, u));
      var s :| s in Successors(g, u) && EdgeIn(g, mmin, u, s) && q in Explore(g, kmin, mmin, path + [s], fuel - 1);
      NoSinglePoint(g, kmin, mmin, path + [s], fuel - 1, q);
    }
  }

  // ---------------------------------------------------------------------
  // The frequency as written.

  /** The frequency line 52 computes. `tuple(current_path[i])` is the tuple
      of a point dictionary's key names, never a node of the graph, so each
      `graph[...][...]` lookup falls through to the default 0, and so does
      their minimum. */
  function FreqAsWritten(g: Graph, path: seq<Point>): int
    requires |path| >= 2
  {
    0
  }

  /** The search of lines 48-60 with the frequency as written. */
  ghost function ExploreAsWritten(g: Graph, kmin: int, mmin: int, path: seq<Point>, fuel: nat): set<seq<Point>>
    requires |path| >= 1
    decreases fuel, 0
  {
    if |path| >= 2 && FreqAsWritten(g, path) < mmin then {}
    else
      (if |path| >= 2 && |path| >= kmin then {path} else {})
      + (if fuel == 0 then {} else ChildrenAsWritten(g, kmin, mmin, path, fuel - 1, Successors(g, path[|path| - 1])))
  }

  ghost function ChildrenAsWritten(g: Graph, kmin: int, mmin: int, path: seq<Point>, fuel: nat, S: set<Point>): set<seq<Point>>
    requires |path| >= 1
    decreases fuel, 1
  {
    set q, s | s in S && EdgeIn(g, mmin, path[|path| - 1], s) && q in ExploreAsWritten(g, kmin, mmin, path + [s], fuel) :: q
  }

  /** As written, with `mmin >= 1` the search from a single node records
      nothing at all: every path of two or more points is pruned. */
  lemma AsWrittenRecordsNothing(g: Graph, kmin: int, mmin: int, n: Point, fuel: nat)
    requires mmin >= 1
    ensures ExploreAsWritten(g, kmin, mmin, [n], fuel) == {}
  {
    forall s | s in Successors(g, n) && EdgeIn(g, mmin, n, s) && fuel > 0
      ensures ExploreAsWritten(g, kmin, mmin, [n] + [s], fuel - 1) == {}
    {
      assert |[n] + [s]| == 2;
    }
  }

  /** With the corrected frequency, an edge of `mmin` or more transitions is
      recorded as a two-point hotspot by the search from its source. */
  lemma CorrectedRecordsEdge(g: Graph, kmin: int, mmin: int, u: Point, v: Point, fuel: nat)
    requires EdgeIn(g, mmin, u, v) && kmin <= 2 && fuel >= 1
    ensures [u, v] in Explore(g, kmin, mmin, [u], fuel)
  {
    ExploreIff(g, kmin, mmin, [u], fuel);
    assert [u, v][..1] == [u];
  }

  // ---------------------------------------------------------------------
  // Recording a path, as written.

  /** What one call of `dfs` does at lines 49-57: prune, go on to the
      neighbours, or raise. */
  datatype Visit = Pruned | Descend | Raised(error: Error)

  /** Lines 49-57 as written, given the frequency line 51 computes. The path
      is a list of point dictionaries (lines 60 and 64), and line 55 adds
      `tuple(current_path)` to a set: a dictionary cannot be hashed, so a
      path that passes both checks raises `TypeError` instead of being
      recorded. */
  function VisitAsWritten(freq: int, kmin: int, mmin: int, path: seq<Point>): Visit {
    if |path| >= 2 && freq < mmin then Pruned
    else if |path| >= 2 && |path| >= kmin then Raised(TypeError)
    else Descend
  }

  /** Every path the search with the corrected frequency records is one on
      which line 55, as written, raises `TypeError`: the source never
      records anything. */
  lemma RecordedPathsRaise(g: Graph, kmin: int, mmin: int, path: seq<Point>, fuel: nat, q: seq<Point>)
    requires |path| >= 1 && Walk(g, mmin, path) && q in Explore(g, kmin, mmin, path, fuel)
    ensures |q| >= 2 && VisitAsWritten(MinWeight(g, q), kmin, mmin, q) == Raised(TypeError)
  {
    ExploreIff(g, kmin, mmin, path, fuel);
    WalkMinWeight(g, mmin, q);
  }

  /** With the frequency as written (always 0) and `mmin <= 0`, the search
      from `u` reaches `[u, v]` along any edge and raises there when
      `kmin <= 2`. */
  lemma AsWrittenLookupRaises(g: Graph, kmin: int, mmin: int, u: Point, v: Point)
    requires Shape(g) && u in g && v in g[u] && mmin <= 0 && kmin <= 2
    ensures v in Successors(g, u) && g[u][v] >= mmin
    ensures VisitAsWritten(FreqAsWritten(g, [u, v]), kmin, mmin, [u, v]) == Raised(TypeError)
  {
  }
}
