# RouteMate hotspot mining, verified model

RouteMate stores users' GPS trajectories and mines "hotspot paths" from them.
Hotspot paths are routes that many of a user's trajectories share. This
project models the core of that system in Dafny and proves what each part
computes:

- **CSV import** (`csv_import.dfy`): the offline importer reads one CSV file
  per user. It parses the user id out of the file name, drops fixes with a
  non-numeric timestamp, sorts by time and cuts the log into trajectories at
  every gap of more than 300 seconds. It stores one row per trajectory and
  records each imported file name so that a later run skips it.
- **The three miners** (`path_table.dfy`, `ndttj.dfy`, `ndttt.dfy`,
  `tths.dfy`):
  - NDTTJ joins tables of frequent paths of k nodes into tables of k+1 nodes.
  - NDTTT extends frequent paths along the windows that actually occur in
    the trajectories.
  - TTHS builds a transition-count graph over whole points and searches it
    depth first.
- **The stack-based miner** (`tspmg_b.dfy`): it enumerates the walks from a
  start node up to a length threshold.
- **The analysis route** (`track.dfy`): it numbers a user's stored
  trajectories, picks a miner by the number of trajectories, and stores the
  result unless an identical one (same hash) is already stored.
- **Recommendation helpers** (`recommendations.dfy`, with the shared stable
  sort in `sorting.dfy`):
  - choosing a miner by the average number of points per trajectory;
  - the time-window similarity of two users' hotspot points.
- **Registration and login** (`auth.dfy`):
  - field checks and whitespace stripping;
  - the email pattern (matched at the start only) and the password pattern
    (whole text);
  - the order in which the checks answer.

Shared types live in `common.dfy`:

- `Option` and `Result`, with the Python exception class as the error;
- points, node keys and trajectories.

Each imperative source function is a method whose loop invariants tie it to
a specification function. The properties of those functions are proved as
lemmas.

## Model

| member | source | states |
|---|---|---|
| Points.Locs | backend/scripts/NDTTT.py:46 | A trajectory's node keys are its points' `(latitude, longitude)` pairs, one per point, in order |
| PathTable.Prune | backend/scripts/NDTTT.py:55-59 | The pruned table keeps exactly the entries with at least `mmin` ids, with their id sets unchanged |
| PathTable.RecordsAdd | backend/scripts/NDTTT.py:48-52 | Visiting a window adds the trajectory's id to that window's entry and to no other path |
| PathTable.RecordsNext | backend/scripts/NDTTT.py:43-52 | After a trajectory's last window, its id is recorded for a path exactly when the path occurs in it |
| PathTable.RecordsDone | backend/scripts/NDTTJ.py:21-30 | After all trajectories, the table holds exactly the admitted paths that occur somewhere, each with its distinct-trajectory support |
| PathTable.SupportInAllIds | backend/scripts/NDTTT.py:52 | Support only ever names ids of the input trajectories |
| Ndttj.PairTable | backend/scripts/NDTTJ.py:21-30 | The table maps exactly the adjacent key pairs that occur in some trajectory, each to the ids of the trajectories containing it; timestamps play no part |
| Ndttj.PairTableAdd | backend/scripts/NDTTJ.py:22-30 | Visiting one trajectory's adjacent pairs records its id for exactly the pairs it contains, extending the table of the trajectories before it by one |
| Ndttj.JoinPass | backend/scripts/NDTTJ.py:44-53 | One pass yields exactly the join: `path1 + (path2[-1],)` for overlapping paths, with the intersection of their ids, kept when it has at least `mmin` ids |
| Ndttj.JoinFirst | backend/scripts/NDTTJ.py:47-53 | The inner loop for `path1` adds exactly the joins whose first parent is `path1`, each with the parents' id intersection, when it has at least `mmin` ids |
| Ndttj.JoinIff | backend/scripts/NDTTJ.py:46-53 | A path is in the joined table iff it has k+1 nodes, its prefix and suffix are in the table, and their id intersection has at least `mmin` ids; that intersection is its value |
| Ndttj.PairIdsJoin | backend/scripts/NDTTJ.py:51 | A joined path's ids are the intersection of its prefix's and suffix's ids, i.e. the trajectories containing every adjacent pair of the path |
| Ndttj.FrequentPrefix | backend/scripts/NDTTJ.py:43-57 | Every prefix of at least two nodes of a frequent path is frequent |
| Ndttj.LevelIff | backend/scripts/NDTTJ.py:33-57 | After n passes the table holds exactly the frequent paths of n+2 nodes, each with the ids containing all its pairs |
| Ndttj.LevelAntiMonotone | backend/scripts/NDTTJ.py:49-53 | A path's ids after a pass are a subset of both parents' ids, so never more numerous |
| Ndttj.AccumulatedIff | backend/scripts/NDTTJ.py:40-56 | `result_paths` after n passes holds exactly the frequent paths of up to n+2 nodes |
| Ndttj.AccumulatedHolds | backend/scripts/NDTTJ.py:40-56 | By induction on the passes: `result_paths` holds exactly the frequent paths of at most n+2 nodes |
| Ndttj.EmptyLevelBoundsFrequent | backend/scripts/NDTTJ.py:43 | When the loop's table becomes empty after n passes, no frequent path has more than n+1 nodes |
| Ndttj.Ndttj | backend/scripts/NDTTJ.py:17-64 | `ValueError` iff there are no trajectories. Otherwise the result is exactly the frequent paths of at least `kmin` and at most `maxPasses + 2` nodes. `exhausted` holds iff no frequent path has `maxPasses + 2` nodes, and then the result is complete |
| Ndttj.SupportWithinPairIds | backend/scripts/NDTTJ.py:51 | The ids of the trajectories that contain a path are among the ids the join computes for it |
| Ndttj.JoinReportsUnseenPath | backend/scripts/NDTTJ.py:49-53 | For the trajectory A,B,Z,B,C the join reports A,B,C with id 1, although no trajectory contains A,B,C |
| Ndttj.JoinLoopNeverEnds | backend/scripts/NDTTJ.py:43-57 | For the single trajectory A,B,A with `mmin` 1, the table after every pass is non-empty |
| Ndttj.AlternatingFrequent | backend/scripts/NDTTJ.py:43-57 | For that trajectory, every alternating path A,B,A,B,... of two or more nodes is frequent |
| Ndttt.PointTable | backend/scripts/NDTTT.py:21-28 | The table maps exactly the single-node paths that occur, each to the ids of the trajectories containing it |
| Ndttt.ExtendPass | backend/scripts/NDTTT.py:42-52 | The next table holds exactly the occurring paths of k+1 nodes whose first k nodes are a kept path, each with its exact support |
| Ndttt.ExtendTrajectory | backend/scripts/NDTTT.py:43-52 | One trajectory's windows are recorded, extending the table of the trajectories before it by that trajectory's id wherever it applies |
| Ndttt.VisitWindow | backend/scripts/NDTTT.py:48-52 | The window at `i` is recorded with the trajectory's id exactly when its first k points are a kept path; nothing else changes |
| Ndttt.SupportPrefix | backend/scripts/NDTTT.py:50 | A path's support is contained in each of its prefixes' supports |
| Ndttt.FrequentPrefix | backend/scripts/NDTTT.py:41-61 | Every non-empty prefix of a frequent path is frequent |
| Ndttt.FrequentWithinMaxLen | backend/scripts/NDTTT.py:41 | A frequent path is no longer than the longest trajectory, which bounds the loop |
| Ndttt.ExtendedIsNextLevel | backend/scripts/NDTTT.py:42-59 | Pruning a pass's table gives exactly the frequent paths of k+1 nodes, each with its support |
| Ndttt.AccumulateNext | backend/scripts/NDTTT.py:60 | Adding a pass's table to `result_paths` gives exactly the frequent paths of up to k+1 nodes |
| Ndttt.NoneLonger | backend/scripts/NDTTT.py:41 | When a pass keeps nothing, no frequent path has k or more nodes |
| Ndttt.Ndttt | backend/scripts/NDTTT.py:17-68 | `ValueError` iff there are no trajectories; otherwise the result is exactly the frequent paths of at least `kmin` nodes, and the loop terminates |
| Tths.AddTransition | backend/scripts/TTHS.py:18 | Incrementing `graph[u][v]` adds one to that edge's count and changes no other count |
| Tths.BuildGraph | backend/scripts/TTHS.py:5-19 | `ValueError` iff some trajectory is not a list of points; otherwise each edge count is the number of adjacent occurrences of that pair of points over all trajectories |
| Tths.Dfs | backend/scripts/TTHS.py:48-60 | The search from a path adds exactly the paths of its specification `Explore` to the result set |
| Tths.DfsNeighbors | backend/scripts/TTHS.py:58-60 | The loop over a node's neighbours adds exactly the searches along edges with at least `mmin` transitions |
| Tths.WalkMinWeight | backend/scripts/TTHS.py:51-53 | Along a walk whose every edge has at least `mmin` transitions, the minimum edge weight is at least `mmin`, so the pruning never cuts it |
| Tths.ExploreIff | backend/scripts/TTHS.py:48-60 | From a walk, the search records exactly the walks extending it by at most `fuel` points that have at least two and at least `kmin` points |
| Tths.StartsFoundIff | backend/scripts/TTHS.py:63-64 | Starting from every graph node, the search records exactly the walks of 2 to `fuel + 1` points and at least `kmin` points |
| Tths.WalkIsHotspotPath | backend/scripts/TTHS.py:9-18 | In the transition graph, a path is a walk iff each of its steps occurs at least once and at least `mmin` times in the trajectories |
| Tths.TthsOutcome | backend/scripts/TTHS.py:63-67 | The search's results of at least `kmin` points are exactly the hotspot paths of at most `fuel + 1` points |
| Tths.NoSinglePoint | backend/scripts/TTHS.py:49-55 | Every recorded path has at least two and at least `kmin` points |
| Tths.Tths | backend/scripts/TTHS.py:22-68 | `ValueError` iff there are no trajectories or one is malformed; otherwise exactly the hotspot paths of at most `fuel + 1` points |
| Tths.AsWrittenRecordsNothing | backend/scripts/TTHS.py:51-53 | With the frequency as written and `mmin >= 1`, the search from any node records nothing |
| Tths.CorrectedRecordsEdge | backend/scripts/TTHS.py:51-55 | With the corrected frequency, an edge of at least `mmin` transitions is recorded as a two-point hotspot when `kmin <= 2` |
| Tths.RecordedPathsRaise | backend/scripts/TTHS.py:49-55 | Every path the corrected search records has at least two points and is not pruned. As written, line 55 raises `TypeError` on it |
| Tths.AsWrittenLookupRaises | backend/scripts/TTHS.py:51-60 | With the frequency as written, `mmin <= 0` and `kmin <= 2`, the search follows any edge, and on its two-point path line 55 raises `TypeError` |
| TspmgB.DfsExpandPath | backend/scripts/TSPMG_B.py:39-45 | `TypeError` iff the node's adjacency is not iterable. Otherwise one extended path per neighbour, in neighbour order, when the extension is shorter than the threshold, and none otherwise |
| TspmgB.ExpansionsShape | backend/scripts/TSPMG_B.py:39-45 | Each expansion is the path plus one neighbour and is shorter than the threshold |
| TspmgB.WaysPrefix | backend/scripts/TSPMG_B.py:20-31 | A path is reached from a stacked path only if it extends that path |
| TspmgB.WaysIff | backend/scripts/TSPMG_B.py:20-31 | The number of ways the search reaches a path is positive iff the path extends the stacked path along edges |
| TspmgB.PopExpand | backend/scripts/TSPMG_B.py:21-25 | Popping and expanding the top entry keeps the count of future reports per path, and shrinks the remaining work by one |
| TspmgB.HandleNext | backend/scripts/TSPMG_B.py:27-31 | Reporting (when long enough) and pushing an expanded path keeps the count of reports per path and the remaining work |
| TspmgB.HandleOne | backend/scripts/TSPMG_B.py:28-31 | Handling one expanded path keeps the stack well formed, the count of reports per path and the remaining work |
| TspmgB.SearchDone | backend/scripts/TSPMG_B.py:20-36 | With the stack empty, each walk from the start of at least two and `kmin` nodes and below the threshold is reported once per way of reaching it, and nothing else is reported |
| TspmgB.TspmgB | backend/scripts/TSPMG_B.py:8-36 | `ValueError` iff the graph is empty. Otherwise the result holds exactly the walks from the start node with at least two and `kmin` nodes and fewer than `freq_threshold`, each as often as the neighbour lists reach it; the loop terminates |
| Recommendations.DetermineAlgorithm | backend/app/recommendations/recommendations_routes.py:17-30 | NDTTJ iff the average is below 5 points per trajectory or there are no trajectories; NDTTT iff it lies in [5, 20]; TTHS iff it is above 20 |
| Recommendations.AverageBands | backend/app/recommendations/recommendations_routes.py:22-28 | Comparing the real average with 5 and 20 is comparing the total with 5 and 20 times the count |
| Recommendations.CollectPoints | backend/app/recommendations/recommendations_routes.py:49-59 | The collected points are the points of every path, path by path, in order |
| Recommendations.FlattenMembers | backend/app/recommendations/recommendations_routes.py:49-59 | A point is collected iff it lies on one of the paths |
| Sorting.SortByFacts | backend/app/recommendations/recommendations_routes.py:60 | Sorting by timestamp gives an ascending list with the same elements (a permutation), and keeps points with equal timestamps in their original order |
| Recommendations.ScanPairs | backend/app/recommendations/recommendations_routes.py:81-96 | The pairs the two-cursor scan matches from given cursors on are increasing and lie beyond the cursors. Each is within the time window, and there are no more of them than points left in either list |
| Recommendations.ScanDone | backend/app/recommendations/recommendations_routes.py:81 | When a cursor is exhausted the pairs matched so far are the whole scan. On sorted lists, none matched means no two points are within the window |
| Recommendations.MatchPoints | backend/app/recommendations/recommendations_routes.py:76-96 | The matched pairs are exactly those of the scan `ScanPairs` from cursors 0 and 0. They are increasing index pairs, each within the time window, and the count says how many are near. `matched <= total <= len(points1), len(points2)`. On sorted lists, `total` is 0 iff no pair of points is within the window |
| Recommendations.RatioBounds | backend/app/recommendations/recommendations_routes.py:98-103 | The ratio of near matches to matches lies in [0, 1] and is positive iff some match is near |
| Recommendations.NearWitness | backend/app/recommendations/recommendations_routes.py:86-89 | A positive near count has a matched pair that is near |
| Recommendations.ComputeSimilarity | backend/app/recommendations/recommendations_routes.py:33-103 | The similarity is `Similarity`: over both users' points sorted by time, the number of scan matches that are near divided by the number of scan matches, or 0 when either user has no hotspots or nothing matches. It lies in [0, 1]. It is 0 when either user has no hotspots or when no two points are within the time window. A positive similarity has a pair of points that is both within the window and near |
| Track.ProcessRecords | backend/app/track/track_routes.py:23-30 | The miner input is one entry per stored trajectory with nodes, numbered by 1-based position |
| Track.ProcessedEntries | backend/app/track/track_routes.py:24-30 | Every entry's id is a record position, and its nodes are that record's non-empty nodes |
| Track.ProcessedIncreasing | backend/app/track/track_routes.py:24-30 | The entries' ids are strictly increasing |
| Track.ProcessedComplete | backend/app/track/track_routes.py:24-30 | Every record with nodes has an entry |
| Track.Dispatch | backend/app/track/track_routes.py:44-52 | As written: below 50 trajectories the NDTTJ result, from 50 to 1000 the NDTTT result, above 1000 always `ValueError` |
| Track.DispatchCorrected | backend/app/track/track_routes.py:44-52 | Corrected: the same bands, with the graph miner given the point lists and returning exactly its hotspot paths above 1000 |
| Track.GraphInput | backend/app/track/track_routes.py:52 | The graph miner gets one list of points per processed entry |
| Track.SaveIfNew | backend/app/track/track_routes.py:58-68 | A row is added iff no row of this user has the same hash, and then exactly one row |
| Track.SaveIdempotent | backend/app/track/track_routes.py:58-68 | Saving the same hotspots twice adds nothing the second time |
| Track.Respond | backend/app/track/track_routes.py:54-70 | 500 iff the miner failed, and then nothing is stored; otherwise 200 with the hotspots, stored once per distinct hash |
| Track.Analyze | backend/app/track/track_routes.py:14-70 | 404 without records. 400 when no record has nodes. Up to 1000 trajectories with nodes: 200, with the band's miner result and the store updated as by `SaveIfNew`. Above 1000: 500, and nothing is stored |
| Track.AnalyzeCorrected | backend/app/track/track_routes.py:14-70 | With the graph miner given the point lists: 200 whenever some record has nodes. Above 1000 trajectories the hotspots are exactly the graph miner's hotspot paths of at most `fuel + 1` points |
| CsvImport.SplitPieces | DataPreprocessing/csv_to_mysql.py:38 | `split('_')` yields a second piece iff the name contains `_` |
| CsvImport.UserIdOf | DataPreprocessing/csv_to_mysql.py:38 | Parsing the user id fails only with `IndexError` or `ValueError` |
| CsvImport.UserIdOfName | DataPreprocessing/csv_to_mysql.py:38 | A name `<prefix>_<digits>` followed by nothing or by `_...` yields the value of the digits |
| CsvImport.UserIdNoSeparator | DataPreprocessing/csv_to_mysql.py:38 | A name without `_` raises `IndexError` |
| CsvImport.UserIdExample | DataPreprocessing/csv_to_mysql.py:38 | `user_100000_trajectory.csv` gives user 100000; `user.csv` raises `IndexError` |
| CsvImport.Clean | DataPreprocessing/csv_to_mysql.py:51-52 | Cleaning never adds lines |
| CsvImport.CleanMembers | DataPreprocessing/csv_to_mysql.py:51-52 | A fix survives cleaning iff the file has that line with a numeric timestamp |
| CsvImport.SegmentIdsFacts | DataPreprocessing/csv_to_mysql.py:56-57 | The first fix has id 0. The id rises by exactly one iff the gap exceeds 300 seconds, and stays the same otherwise. Ids never decrease and take every value up to the last |
| CsvImport.GroupFacts | DataPreprocessing/csv_to_mysql.py:57-63 | The segments hold the fixes in order and are non-empty and numbered 0, 1, .... Within a segment consecutive fixes are at most 300 s apart; each segment starts more than 300 s after the previous one ends |
| CsvImport.SegmentsFacts | DataPreprocessing/csv_to_mysql.py:51-63 | The stored segments hold exactly the cleaned fixes (as a multiset), in ascending time order |
| CsvImport.ImportAll | DataPreprocessing/csv_to_mysql.py:31-86 | The loop ends with the uploaded list, stored rows and crash flag that the reference function `Run` gives |
| CsvImport.ImportFile | DataPreprocessing/csv_to_mysql.py:32-79 | One file is skipped, imported or crashes the run exactly as `Run` says, so the loop's state stays that of the reference run |
| CsvImport.RunUploaded | DataPreprocessing/csv_to_mysql.py:77-79 | The uploaded list only grows, and only by names of `.csv` files whose user id parsed |
| CsvImport.RunAgain | DataPreprocessing/csv_to_mysql.py:32-35 | Rerunning over the same files with a list covering every uploaded name stores and uploads nothing |
| CsvImport.RunIdempotent | DataPreprocessing/csv_to_mysql.py:32-79 | If the first run did not crash, a second run changes nothing |
| Auth.Strip | backend/app/auth/auth_routes.py:28-31 | The stripped text is a slice of the input. Only whitespace was removed on either side, and it neither starts nor ends with whitespace |
| Auth.StripIdempotent | backend/app/auth/auth_routes.py:28-31 | Stripping twice is stripping once |
| Auth.IndexOf | backend/app/auth/auth_routes.py:12 | The result is the first position of the character, or the length when it is absent |
| Auth.EmailAcceptedIff | backend/app/auth/auth_routes.py:12 | The direct check accepts iff `[^@]+@[^@]+\.[^@]+` matches a prefix of the email |
| Auth.EmailTrailingIgnored | backend/app/auth/auth_routes.py:34 | `a@b.c@d` is accepted; `a@b.`, `@b.c` and `a@.c` are not |
| Auth.AheadInBody | backend/app/auth/auth_routes.py:13 | On allowed characters a lookahead `(?=.*[...])` is plain occurrence |
| Auth.PasswordAcceptedIff | backend/app/auth/auth_routes.py:13 | The pattern matches iff the direct check accepts, or the text is an accepted password followed by one line break |
| Auth.PasswordOnStripped | backend/app/auth/auth_routes.py:31-39 | On a stripped password, pattern and direct check agree |
| Auth.PasswordAcceptedExample | backend/app/auth/auth_routes.py:13 | `Passw0rd!` is accepted |
| Auth.PasswordRejectedExamples | backend/app/auth/auth_routes.py:13 | Too short, no special character, or a space: rejected |
| Auth.FirstByEmail | backend/app/auth/auth_routes.py:93 | None iff no user has the email; otherwise the first user with it |
| Auth.RegisterOutcome | backend/app/auth/auth_routes.py:23-74 | Missing fields answer 400 first. 201 iff the fields are present, the stripped email and password match their patterns, neither the email nor the username is taken, and the commit succeeds. Only then is a user with the stripped fields added |
| Auth.RegisterKeepsUnique | backend/app/auth/auth_routes.py:46-52 | Registration keeps emails and usernames unique |
| Auth.LoginOutcome | backend/app/auth/auth_routes.py:84-107 | 400 iff fields are missing. Any 401 is the one identical reply. 200 iff the first user with the stripped email has a hash that checks the password, and then the token is that user's id |
| Auth.RegisterThenLogin | backend/app/auth/auth_routes.py:17-107 | After a successful registration, logging in with the same email and password returns 200 for the new user |

## Left out

- Databases, HTTP, JWT, JSON (de)serialisation, logging, `print`, environment lookups, directory listing and file reading are not modelled. Stored rows, the uploaded-file list and users are values passed in and returned.
- Floating point: latitude and longitude are reals that are only compared for equality. The rounding to four decimals at DataPreprocessing/csv_to_mysql.py:47-48 is left out.
- Timestamps are whole seconds. `strptime` parsing and non-integer numeric timestamps are not modelled.
- `geodesic` distance is the parameter `near` of the similarity.
- Recommendations.DetermineAlgorithm: takes the per-trajectory point counts; `json.loads` of the stored data is not modelled.
- Recommendations.ComputeSimilarity: the result is a real ratio; the float division's rounding is not modelled.
- Recommendations.ComputeSimilarity: the time window `timeThreshold` and the distance test `near` are free parameters. The only caller, backend/app/recommendations/recommendations_routes.py:154, uses the defaults: 5 minutes (300 seconds) and 100 metres.
- The carpool route of backend/app/recommendations/recommendations_routes.py is not part of this model.
- Ndttj.Ndttj: the join loop is bounded by `maxPasses`, because the source loop need not terminate (see Findings). The `exhausted` flag tells whether the bound was reached.
- Track.Analyze: ignores the `exhausted` flag, and passes a pass bound and a recursion budget through to the miners. Above 1000 trajectories it answers 500, as the source does (see Findings). Track.AnalyzeCorrected is the route with the corrected graph-miner input.
- Tths.Tths: the recursion of `dfs` is bounded by `fuel` levels per start node, so it states nothing about hotspot paths longer than `fuel + 1` points.
- Tths.Tths: models the documented minimum-edge-weight frequency rather than the as-written lookup (see Findings). It also records each path where line 55 raises `TypeError` instead, hashing a tuple of point dictionaries (see Findings). It also does not model the `RuntimeError` CPython raises when the search's default-dictionary lookups add keys while `graph.keys()` is being iterated.
- Tths.Dfs: records a path where the source raises `TypeError` at backend/scripts/TTHS.py:55, since the path is a list of dictionaries (see Findings).
- Tths.CorrectedRecordsEdge: the recorded two-point path is the intended result. As written, recording it raises `TypeError` (see Findings).
- TspmgB.TspmgB: the thread pool and logging are direct calls. The only exception its `dfs_expand_path` can raise here, iterating a non-list adjacency, is caught and drops that entry.
- Track.GraphInput: belongs to the corrected dispatch. As written, the route hands the graph miner the `{trajectory_id, nodes}` dictionaries (see Findings).
- The hash of the stored hotspots is the parameter `hash`. `HotspotTrajectory` (backend/app/track/models.py:12-17) defines neither a `generate_hash` method nor a `hotspot_hash` column. So backend/app/track/track_routes.py:59, which is outside the `try`, would raise `AttributeError`. The model assumes the hash function the route evidently intends.
- Auth: password hashing and checking are the parameters `hashOf` and `checks`. The database commit outcome is the parameter `committed`. The new user's id is the next row number.
- Auth.Strip: strips the ASCII whitespace characters only. Non-ASCII whitespace is not modelled.
- Auth.PasswordAccepted: ASCII input is assumed; the Unicode digits `\d` accepts are not modelled.
- Auth.Register and Auth.Login: request bodies whose fields are not strings are not modelled. In the source they fail on `.strip()`.
- CsvImport.UserIdOf: `int()` is modelled on an optional sign followed by ASCII digits. Surrounding whitespace, digit-group underscores and non-ASCII digits, which Python also accepts, are not modelled.
- CsvImport.Segments: pandas' default sort is not stable. The model uses a stable sort, which is one of its allowed outcomes, so the order among fixes with equal timestamps is one possible order.
- CsvImport.Run: read, database and file-write failures (`FileNotFoundError`, `SQLAlchemyError`) are not modelled. Neither is the behaviour of pandas on a file left with no fixes after cleaning, which the model treats as no segments.

## Findings

| source | as written | input that shows it | evidently intended | confidence | as-written member | corrected member |
|---|---|---|---|---|---|---|
| backend/scripts/NDTTJ.py:43-57 | the join loop runs while the last table is non-empty, and a cyclic trajectory keeps producing longer paths | the single trajectory A,B,A with `mmin` 1: every pass yields the alternating path of one more node | a loop that ends, e.g. bounded by the longest trajectory | not executed | Ndttj.JoinLoopNeverEnds | Ndttj.Ndttj |
| backend/scripts/TTHS.py:55 | `result_paths.add(tuple(current_path))` hashes a tuple of point dictionaries (the path is built of `dict(...)` at lines 60 and 64), which raises `TypeError` | with the corrected frequency, an edge u→v of at least `mmin` transitions and `kmin` 2: the search from u reaches [u, v] and raises. As written, the same happens for any edge when `mmin` is 0 | the path is recorded as a tuple of hashable point tuples | not executed | Tths.RecordedPathsRaise | Tths.CorrectedRecordsEdge |
| backend/scripts/TTHS.py:51-53 | `tuple(current_path[i])` is the tuple of a point dictionary's key names, so every edge lookup reads 0 and the frequency is 0 | any graph with `mmin` 1: every path of two points is pruned, so nothing is recorded | the frequency is the minimum transition count along the path's edges | not executed | Tths.AsWrittenRecordsNothing | Tths.CorrectedRecordsEdge |
| backend/app/track/track_routes.py:52 | the graph miner gets `processed_data`, whose entries are `{trajectory_id, nodes}` dictionaries, not lists of points | any user with more than 1000 trajectories that have nodes: `build_graph` raises `ValueError` and the route answers 500 | the graph miner gets each trajectory's list of points | not executed | Track.Dispatch | Track.DispatchCorrected |
