/** The `/analyze` handler: gather a user's stored trajectories, choose a
    miner by their number, run it, and store the hotspots unless the same
    hotspots are already stored for the user. */
module Track {
  import opened Wrappers
  import opened Points
  import opened PathTable
  import Ndttj
  import Ndttt
  import Tths

  /** A stored trajectory record: the `nodes` list of its JSON, if any. */
  datatype StoredTrajectory = StoredTrajectory(nodes: Option<seq<Point>>)

  /** `trajectory_data.get('nodes', [])`. */
  function NodesOf(t: StoredTrajectory): seq<Point> {
    if t.nodes.Some? then t.nodes.value else []
  }

  /** What a miner returns: the paths of the join and traversal miners, or the
      whole-point walks of the graph miner. */
  datatype Mined = Paths(paths: set<Path>) | PointPaths(pointPaths: set<seq<Point>>)

  /** A stored hotspot row. */
  datatype HotspotRow = HotspotRow(userId: int, hotspotData: Mined, hotspotHash: int)

  datatype Response = Response(status: int, message: string, hotspots: Option<Mined>)

  /** The miner input built from the records at positions `from` onward:
      one entry per record with nodes, numbered by 1-based position. */
  function ProcessedFrom(records: seq<StoredTrajectory>, from: nat): seq<Trajectory>
    requires from <= |records|
    decreases |records| - from
  {
    if from == |records| then []
    else
      (if NodesOf(records[from]) != [] then [Trajectory(from + 1, NodesOf(records[from]))] else [])
      + ProcessedFrom(records, from + 1)
  }

  function Processed(records: seq<StoredTrajectory>): seq<Trajectory> {
    ProcessedFrom(records, 0)
  }

  /** Lines 23-30: the `processed_data` loop over `enumerate(..., start=1)`. */
  method ProcessRecords(records: seq<StoredTrajectory>) returns (processedData: seq<Trajectory>)
    ensures processedData == Processed(records)
  {
    processedData := [];
    var idx := 0;
    while idx < |records|
      invariant 0 <= idx <= |records|
      invariant processedData + ProcessedFrom(records, idx) == Processed(records)
    {
      var trajectoryData := NodesOf(records[idx]);
      if trajectoryData != [] {
        processedData := processedData + [Trajectory(idx + 1, trajectoryData)];
      }
      idx := idx + 1;
    }
  }

  /** Each processed entry carries the nodes of the record at its 1-based
      position, and they are not empty. */
  lemma {:induction false} ProcessedEntries(records: seq<StoredTrajectory>, from: nat)
    requires from <= |records|
    ensures forall k :: 0 <= k < |ProcessedFrom(records, from)| ==>
      var e := ProcessedFrom(records, from)[k];
      from + 1 <= e.trajectoryId <= |records| && e.nodes != [] && e.nodes == NodesOf(records[e.trajectoryId - 1])
    decreases |records| - from
  {
    if from < |records| {
      ProcessedEntries(records, from + 1);
    }
  }

  /** The positions strictly increase. */
  lemma {:induction false} ProcessedIncreasing(records: seq<StoredTrajectory>, from: nat)
    requires from <= |records|
    ensures forall k, l :: 0 <= k < l < |ProcessedFrom(records, from)| ==>
      ProcessedFrom(records, from)[k].trajectoryId < ProcessedFrom(records, from)[l].trajectoryId
    decreases |records| - from
  {
    if from < |records| {
      ProcessedIncreasing(records, from + 1);
      ProcessedEntries(records, from + 1);
      var rest := ProcessedFrom(records, from + 1);
      var p := ProcessedFrom(records, from);
      var head := if NodesOf(records[from]) != [] then [Trajectory(from + 1, NodesOf(records[from]))] else [];
      assert p == head + rest;
      forall k, l | 0 <= k < l < |p|
        ensures p[k].trajectoryId < p[l].trajectoryId
      {
        assert p[l] == rest[l - |head|];
        assert rest[l - |head|].trajectoryId >= from + 2;
        if k >= |head| {
          assert p[k] == rest[k - |head|];
          assert rest[k - |head|].trajectoryId < rest[l - |head|].trajectoryId;
        } else {
          assert p[k] == head[0];
        }
      }
    }
  }

  /** No record with nodes is dropped. */
  lemma {:induction false} ProcessedComplete(records: seq<StoredTrajectory>, from: nat)
    requires from <= |records|
    ensures forall i :: from <= i < |records| && NodesOf(records[i]) != [] ==>
      exists k :: 0 <= k < |ProcessedFrom(records, from)| && ProcessedFrom(records, from)[k].trajectoryId == i + 1
    decreases |records| - from
  {
    if from < |records| {
      ProcessedComplete(records, from + 1);
      var rest := ProcessedFrom(records, from + 1);
      var p := ProcessedFrom(records, from);
      var head := if NodesOf(records[from]) != [] then [Trajectory(from + 1, NodesOf(records[from]))] else [];
      assert p == head + rest;
      forall i | from <= i < |records| && NodesOf(records[i]) != []
        ensures exists k :: 0 <= k < |p| && p[k].trajectoryId == i + 1
      {
        if i == from {
          assert p[0].trajectoryId == i + 1;
        } else {
          var k :| 0 <= k < |rest| && rest[k].trajectoryId == i + 1;
          assert p[k + |head|] == rest[k];
        }
      }
      assert p == ProcessedFrom(records, from);
    }
  }

  /** `data.get(key, default)` on the request body, `{}` when it is absent. */
  function Param(body: Option<map<string, int>>, key: string, default: int): int {
    if body.Some? && key in body.value then body.value[key] else default
  }

  function MinSupport(body: Option<map<string, int>>): int {
    Param(body, "min_support", 6)
  }

  function MinLength(body: Option<map<string, int>>): int {
    Param(body, "min_length", 3)
  }

  /** Lines 44-52 as written. The graph miner is handed `processed_data`
      itself, whose entries are `{trajectory_id, nodes}` dictionaries rather
      than lists of points, so it always raises. */
  method Dispatch(processedData: seq<Trajectory>, kmin: int, mmin: int, maxPasses: nat, fuel: nat)
    returns (r: Result<Mined>)
    requires processedData != []
    ensures |processedData| < 50 ==>
      r.Ok? && r.value.Paths? &&
      forall p :: p in r.value.paths <==> |p| >= kmin && |p| <= maxPasses + 2 && Ndttj.Frequent(processedData, mmin, p)
    ensures 50 <= |processedData| <= 1000 ==>
      r.Ok? && r.value.Paths? && forall p :: p in r.value.paths <==> |p| >= kmin && Ndttt.Frequent(processedData, mmin, p)
    ensures |processedData| > 1000 ==> r == Err(ValueError)
  {
    var totalTrajectories := |processedData|;
    if totalTrajectories < 50 {
      var hotspots, exhausted := Ndttj.Ndttj(processedData, kmin, mmin, maxPasses);
      r := Ok(Paths(hotspots.value));
    } else if 50 <= totalTrajectories <= 1000 {
      var hotspots := Ndttt.Ndttt(processedData, kmin, mmin);
      r := Ok(Paths(hotspots.value));
    } else {
      var asGiven := seq(totalTrajectories, i => Tths.NotAPointList);
      assert asGiven[0].NotAPointList?;
      var hotspots := Tths.Tths(asGiven, kmin, mmin, fuel);
      r := Err(hotspots.error);
    }
  }

  /** Lines 44-52 with the graph miner handed each trajectory's point list,
      which its docstring asks for: no band raises any more. */
  method DispatchCorrected(processedData: seq<Trajectory>, kmin: int, mmin: int, maxPasses: nat, fuel: nat)
    returns (r: Result<Mined>)
    requires processedData != []
    ensures r.Ok?
    ensures |processedData| < 50 ==>
      r.value.Paths? &&
      forall p :: p in r.value.paths <==> |p| >= kmin && |p| <= maxPasses + 2 && Ndttj.Frequent(processedData, mmin, p)
    ensures 50 <= |processedData| <= 1000 ==>
      r.value.Paths? && forall p :: p in r.value.paths <==> |p| >= kmin && Ndttt.Frequent(processedData, mmin, p)
    ensures |processedData| > 1000 ==>
      r.value.PointPaths? &&
      forall q :: q in r.value.pointPaths <==> Tths.Hotspot(GraphInput(processedData), kmin, mmin, q) && |q| <= fuel + 1
  {
    var totalTrajectories := |processedData|;
    if totalTrajectories < 50 {
      var hotspots, exhausted := Ndttj.Ndttj(processedData, kmin, mmin, maxPasses);
      r := Ok(Paths(hotspots.value));
    } else if 50 <= totalTrajectories <= 1000 {
      var hotspots := Ndttt.Ndttt(processedData, kmin, mmin);
      r := Ok(Paths(hotspots.value));
    } else {
      var hotspots := Tths.Tths(GraphInput(processedData), kmin, mmin, fuel);
      r := Ok(PointPaths(hotspots.value));
    }
  }

  /** Each trajectory's points, as the graph miner expects them. */
  function GraphInput(processedData: seq<Trajectory>): (r: seq<Tths.RawTrajectory>)
    ensures |r| == |processedData|
    ensures forall i :: 0 <= i < |r| ==> r[i] == Tths.PointList(processedData[i].nodes)
  {
    seq(|processedData|, i requires 0 <= i < |processedData| => Tths.PointList(processedData[i].nodes))
  }

  /** Lines 59-68: whether a row with this user and hash exists, and the
      store after inserting one when it does not. `hash` stands for
      `HotspotTrajectory.generate_hash`. */
  function SaveIfNew(store: seq<HotspotRow>, userId: int, hotspots: Mined, hash: Mined -> int)
    : (r: (seq<HotspotRow>, bool))
    ensures r.1 <==> exists row :: row in store && row.userId == userId && row.hotspotHash == hash(hotspots)
    ensures r.1 ==> r.0 == store
    ensures !r.1 ==> r.0 == store + [HotspotRow(userId, hotspots, hash(hotspots))]
  {
    var existing := exists k :: 0 <= k < |store| && store[k].userId == userId && store[k].hotspotHash == hash(hotspots);
    if existing then (store, true) else (store + [HotspotRow(userId, hotspots, hash(hotspots))], false)
  }

  /** Repeating an analysis with the same hotspots stores nothing more. */
  lemma SaveIdempotent(store: seq<HotspotRow>, userId: int, hotspots: Mined, hash: Mined -> int)
    ensures var (once, _) := SaveIfNew(store, userId, hotspots, hash);
      SaveIfNew(once, userId, hotspots, hash) == (once, true)
  {
    var (once, existed) := SaveIfNew(store, userId, hotspots, hash);
    if !existed {
      assert once[|store|] == HotspotRow(userId, hotspots, hash(hotspots));
      assert once[|store|] in once;
    }
  }

  /** Lines 14-70, `analyze_trajectory`, for user `userId` whose stored
      trajectories are `records`, with the request body `body` and the
      hotspot rows `store`. `maxPasses` and `fuel` bound the join and
      graph miners' loops. Above 1000 trajectories the graph miner rejects
      what line 52 hands it, so the route answers 500 and stores nothing. */
  method Analyze(userId: int, records: seq<StoredTrajectory>, body: Option<map<string, int>>,
                 store: seq<HotspotRow>, hash: Mined -> int, maxPasses: nat, fuel: nat)
    returns (response: Response, store': seq<HotspotRow>)
    ensures records == [] ==> response.status == 404 && store' == store
    ensures records != [] && Processed(records) == [] ==> response.status == 400 && store' == store
    ensures Processed(records) != [] && |Processed(records)| <= 1000 ==>
      response.status == 200 && response.hotspots.Some?
    ensures |Processed(records)| > 1000 ==> response.status == 500 && response.hotspots == None && store' == store
    ensures response.status == 200 ==>
      (store', false) == SaveIfNew(store, userId, response.hotspots.value, hash) ||
      (store', true) == SaveIfNew(store, userId, response.hotspots.value, hash)
    ensures response.status == 200 && |Processed(records)| < 50 ==>
      response.hotspots.value.Paths? &&
      forall p :: p in response.hotspots.value.paths <==>
        |p| >= MinLength(body) && |p| <= maxPasses + 2 && Ndttj.Frequent(Processed(records), MinSupport(body), p)
    ensures response.status == 200 && 50 <= |Processed(records)| <= 1000 ==>
      response.hotspots.value.Paths? &&
      forall p :: p in response.hotspots.value.paths <==>
        |p| >= MinLength(body) && Ndttt.Frequent(Processed(records), MinSupport(body), p)
  {
    if records == [] {
      return Response(404, "No trajectory data found for this user", None), store;
    }
    var processedData := ProcessRecords(records);
    var minSupport := MinSupport(body);
    var minLength := MinLength(body);
    if |processedData| == 0 {
      return Response(400, "No trajectory data to analyze", None), store;
    }
    var mined := Dispatch(processedData, minLength, minSupport, maxPasses, fuel);
    response, store' := Respond(userId, mined, store, hash);
  }

  /** `Analyze` with the corrected dispatch: the graph miner gets the point
      lists, so every band answers 200 with its miner's result. */
  method AnalyzeCorrected(userId: int, records: seq<StoredTrajectory>, body: Option<map<string, int>>,
                          store: seq<HotspotRow>, hash: Mined -> int, maxPasses: nat, fuel: nat)
    returns (response: Response, store': seq<HotspotRow>)
    ensures records == [] ==> response.status == 404 && store' == store
    ensures records != [] && Processed(records) == [] ==> response.status == 400 && store' == store
    ensures Processed(records) != [] ==> response.status == 200 && response.hotspots.Some?
    ensures response.status == 200 ==>
      (store', false) == SaveIfNew(store, userId, response.hotspots.value, hash) ||
      (store', true) == SaveIfNew(store, userId, response.hotspots.value, hash)
    ensures response.status == 200 && |Processed(records)| < 50 ==>
      response.hotspots.value.Paths? &&
      forall p :: p in response.hotspots.value.paths <==>
        |p| >= MinLength(body) && |p| <= maxPasses + 2 && Ndttj.Frequent(Processed(records), MinSupport(body), p)
    ensures response.status == 200 && 50 <= |Processed(records)| <= 1000 ==>
      response.hotspots.value.Paths? &&
      forall p :: p in response.hotspots.value.paths <==>
        |p| >= MinLength(body) && Ndttt.Frequent(Processed(records), MinSupport(body), p)
    ensures response.status == 200 && |Processed(records)| > 1000 ==>
      response.hotspots.value.PointPaths? &&
      forall q :: q in response.hotspots.value.pointPaths <==>
        Tths.Hotspot(GraphInput(Processed(records)), MinLength(body), MinSupport(body), q) && |q| <= fuel + 1
  {
    if records == [] {
      return Response(404, "No trajectory data found for this user", None), store;
    }
    var processedData := ProcessRecords(records);
    var minSupport := MinSupport(body);
    var minLength := MinLength(body);
    if |processedData| == 0 {
      return Response(400, "No trajectory data to analyze", None), store;
    }
    var mined := DispatchCorrected(processedData, minLength, minSupport, maxPasses, fuel);
    response, store' := Respond(userId, mined, store, hash);
  }

  /** Lines 54-70: a miner error is the 500 response and stores nothing;
      otherwise the hotspots are returned, and stored unless the user
      already has a row with their hash. */
  method Respond(userId: int, mined: Result<Mined>, store: seq<HotspotRow>, hash: Mined -> int)
    returns (response: Response, store': seq<HotspotRow>)
    ensures mined.Err? <==> response.status == 500
    ensures mined.Err? ==> store' == store && response.hotspots == None
    ensures mined.Ok? ==> response.status == 200 && response.hotspots == Some(mined.value)
    ensures mined.Ok? ==>
      (store', true) == SaveIfNew(store, userId, mined.value, hash) || (store', false) == SaveIfNew(store, userId, mined.value, hash)
  {
    if mined.Err? {
      return Response(500, "Error running the algorithm", None), store;
    }
    var hotspots := mined.value;
    var saved := SaveIfNew(store, userId, hotspots, hash);
    store' := saved.0;
    if saved.1 {
      return Response(200, "Hotspot data already exists, no new data was added", Some(hotspots)), store';
    }
    response := Response(200, "", Some(hotspots));
  }
}
