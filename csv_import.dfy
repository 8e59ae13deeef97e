/** The offline importer: every not-yet-uploaded `.csv` file of a folder is
    read as one user's GPS log, cleaned, sorted by time, cut into
    trajectories wherever two consecutive fixes are more than five minutes
    apart, and stored one row per trajectory; the file's name is then added
    to the list of uploaded files. */
module CsvImport {
  import opened Wrappers
  import opened Sorting
  import opened Chars

  /** Seconds between two consecutive fixes above which a new trajectory starts. */
  const TimeThreshold := 300

  /** One line of a CSV file; the timestamp is `None` when it is not numeric. */
  datatype Row = Row(latitude: real, longitude: real, timestamp: Option<int>)

  /** A fix whose timestamp parsed. */
  datatype Fix = Fix(latitude: real, longitude: real, timestamp: int)

  /** A file of the folder: its name, the columns of its header, its lines. */
  datatype CsvFile = CsvFile(name: string, columns: set<string>, rows: seq<Row>)

  /** One stored trajectory. */
  datatype Segment = Segment(trajectoryId: nat, nodes: seq<Fix>)

  /** What the loop body does with one file. `Crash` is the exception the
      loop does not catch. */
  datatype Outcome =
    | NotCsv
    | AlreadyUploaded
    | Rejected(error: Error)
    | Crash(error: Error)
    | Imported(userId: int, segments: seq<Segment>)

  // ---------------------------------------------------------------------
  // The user id in the file name.

  predicate EndsWith(s: string, suffix: string) {
    |s| >= |suffix| && s[|s| - |suffix|..] == suffix
  }

  /** `s.split(c)`: the pieces between the occurrences of `c`. */
  function Split(s: string, c: char): (r: seq<string>)
    ensures |r| >= 1
  {
    if s == [] then [[]]
    else
      var rest := Split(s[1..], c);
      if s[0] == c then [[]] + rest else [[s[0]] + rest[0]] + rest[1..]
  }

  /** The value of a string of decimal digits. */
  function DigitsValue(s: string): nat
    requires forall i :: 0 <= i < |s| ==> IsDigit(s[i])
  {
    if s == [] then 0
    else
      var d := s[|s| - 1];
      assert IsDigit(d);
      10 * DigitsValue(s[..|s| - 1]) + (d as int - '0' as int)
  }

  predicate AllDigits(s: string) {
    |s| >= 1 && forall i :: 0 <= i < |s| ==> IsDigit(s[i])
  }

  /** `int(s)` on an optional sign followed by decimal digits; anything
      else is `None` (a `ValueError`). */
  function ParseInt(s: string): Option<int> {
    if |s| >= 1 && (s[0] == '-' || s[0] == '+') then
      if AllDigits(s[1..]) then
        Some(if s[0] == '-' then 0 - DigitsValue(s[1..]) else DigitsValue(s[1..]) as int)
      else None
    else if AllDigits(s) then Some(DigitsValue(s))
    else None
  }

  /** Line 38: `int(file_name.split('_')[1])`. A name without `_` has no
      second piece (`IndexError`); a second piece that is not an integer is
      a `ValueError`. */
  function UserIdOf(name: string): (r: Result<int>)
    ensures r.Err? ==> r.error == IndexError || r.error == ValueError
  {
    var pieces := Split(name, '_');
    if |pieces| < 2 then Err(IndexError)
    else match ParseInt(pieces[1])
      case None => Err(ValueError)
      case Some(n) => Ok(n)
  }

  // ---------------------------------------------------------------------
  // Cleaning and segmenting.

  /** Lines 51-52: drop the lines whose timestamp is not numeric. */
  function Clean(rows: seq<Row>): (r: seq<Fix>)
    ensures |r| <= |rows|
  {
    if rows == [] then []
    else
      (match rows[0].timestamp
         case None => []
         case Some(t) => [Fix(rows[0].latitude, rows[0].longitude, t)])
      + Clean(rows[1..])
  }

  function TimeOf(f: Fix): int {
    f.timestamp
  }

  /** Whether a new trajectory starts at position `i`: the fix is more than
      `TimeThreshold` seconds after the previous one. */
  predicate GapBefore(fixes: seq<Fix>, i: nat)
    requires 1 <= i < |fixes|
  {
    fixes[i].timestamp - fixes[i - 1].timestamp > TimeThreshold
  }

  /** `(diff() > 300).cumsum()` at position `i`, with the leading `NaN`
      counted as no gap. */
  function GapsUpTo(fixes: seq<Fix>, i: nat): nat
    requires i < |fixes|
  {
    if i == 0 then 0 else GapsUpTo(fixes, i - 1) + (if GapBefore(fixes, i) then 1 else 0)
  }

  /** Line 57: the trajectory id of each fix. */
  function SegmentIds(fixes: seq<Fix>): seq<nat> {
    seq(|fixes|, i requires 0 <= i < |fixes| => GapsUpTo(fixes, i))
  }

  /** The fixes whose id is `k`, in order. */
  function WithId(fixes: seq<Fix>, ids: seq<nat>, k: nat): seq<Fix>
    requires |ids| == |fixes|
  {
    if fixes == [] then []
    else
      var n := |fixes| - 1;
      WithId(fixes[..n], ids[..n], k) + (if ids[n] == k then [fixes[n]] else [])
  }

  /** Lines 60-63: `groupby('trajectory_id')`, one segment per id from 0 to
      the last fix's id. */
  function Group(fixes: seq<Fix>): seq<Segment> {
    if fixes == [] then []
    else
      var ids := SegmentIds(fixes);
      seq(ids[|fixes| - 1] + 1, (k: int) requires 0 <= k => Segment(k, WithId(fixes, ids, k)))
  }

  /** The whole per-file pipeline after the header check. */
  function Segments(rows: seq<Row>): seq<Segment> {
    Group(SortBy(Clean(rows), TimeOf))
  }

  /** The fixes of the segments, one after the other. */
  function Concat(segs: seq<Segment>): seq<Fix> {
    if segs == [] then [] else Concat(segs[..|segs| - 1]) + segs[|segs| - 1].nodes
  }

  /** Lines 32-63 for one file, given the list of uploaded names. */
  function Process(f: CsvFile, uploaded: seq<string>): Outcome {
    if !EndsWith(f.name, ".csv") then NotCsv
    else if f.name in uploaded then AlreadyUploaded
    else match UserIdOf(f.name)
      case Err(e) => if e == IndexError then Crash(e) else Rejected(e)
      case Ok(uid) =>
        if !({"latitude", "longitude", "timestamp"} <= f.columns) then Rejected(ValueError)
        else Imported(uid, Segments(f.rows))
  }

  /** A stored row: the user id and one trajectory. */
  type Insert = (int, Segment)

  function Inserts(uid: int, segs: seq<Segment>): seq<Insert> {
    seq(|segs|, i requires 0 <= i < |segs| => (uid, segs[i]))
  }

  /** The list of uploaded names, the rows stored and whether the run ended
      in an uncaught exception, after processing `files` in order. */
  datatype RunState = RunState(uploaded: seq<string>, stored: seq<Insert>, crashed: bool)

  /** The import loop over the folder listing as a function of the files
      still to come. */
  function Run(files: seq<CsvFile>, uploaded: seq<string>): RunState {
    if files == [] then RunState(uploaded, [], false)
    else match Process(files[0], uploaded)
      case Crash(_) => RunState(uploaded, [], true)
      case Imported(uid, segs) =>
        var rest := Run(files[1..], uploaded + [files[0].name]);
        RunState(rest.uploaded, Inserts(uid, segs) + rest.stored, rest.crashed)
      case _ => Run(files[1..], uploaded)
  }

  /** Lines 31-86: the import loop. */
  method ImportAll(files: seq<CsvFile>, uploaded0: seq<string>) returns (uploaded: seq<string>, stored: seq<Insert>, crashed: bool)
    ensures RunState(uploaded, stored, crashed) == Run(files, uploaded0)
  {
    uploaded, stored, crashed := uploaded0, [], false;
    var i := 0;
    while i < |files|
      invariant 0 <= i <= |files|
      invariant
        var rest := Run(files[i..], uploaded);
        Run(files, uploaded0) == RunState(rest.uploaded, stored + rest.stored, rest.crashed)
    {
      uploaded, stored, crashed := ImportFile(files, uploaded0, i, uploaded, stored);
      if crashed {
        return;
      }
      i := i + 1;
    }
    assert files[i..] == [];
  }

  /** Lines 32-79 for the `i`-th file of the listing: it is skipped, imported
      or ends the run, and the rest of the run is what `Run` says of the
      files after it. */
  method ImportFile(files: seq<CsvFile>, ghost uploaded0: seq<string>, i: nat, uploaded1: seq<string>, stored1: seq<Insert>)
    returns (uploaded: seq<string>, stored: seq<Insert>, crashed: bool)
    requires i < |files|
    requires var rest := Run(files[i..], uploaded1);
      Run(files, uploaded0) == RunState(rest.uploaded, stored1 + rest.stored, rest.crashed)
    ensures crashed ==> RunState(uploaded, stored, crashed) == Run(files, uploaded0)
    ensures !crashed ==> var rest := Run(files[i + 1..], uploaded);
      Run(files, uploaded0) == RunState(rest.uploaded, stored + rest.stored, rest.crashed)
  {
    uploaded, stored, crashed := uploaded1, stored1, false;
    var f := files[i];
    if EndsWith(f.name, ".csv") {
      if f.name in uploaded {
        RunSkip(files, i, uploaded);
        return;
      }
      var uid := UserIdOf(f.name);
      if uid.Err? {
        if uid.error == IndexError {
          assert files[i..][0] == f && Process(f, uploaded) == Crash(IndexError);
          assert stored + [] == stored;
          crashed := true;
          return;
        }
        RunSkip(files, i, uploaded);
        return;
      }
      if !({"latitude", "longitude", "timestamp"} <= f.columns) {
        RunSkip(files, i, uploaded);
        return;
      }
      var segs := Segments(f.rows);
      RunImport(files, i, uploaded, uid.value, segs);
      assert stored + (Inserts(uid.value, segs) + Run(files[i + 1..], uploaded + [f.name]).stored)
          == (stored + Inserts(uid.value, segs)) + Run(files[i + 1..], uploaded + [f.name]).stored;
      stored := stored + Inserts(uid.value, segs);
      uploaded := uploaded + [f.name];
    } else {
      RunSkip(files, i, uploaded);
    }
  }

  /** A file that is skipped leaves the rest of the run as it was. */
  lemma RunSkip(files: seq<CsvFile>, i: nat, uploaded: seq<string>)
    requires i < |files|
    requires Process(files[i], uploaded).NotCsv? || Process(files[i], uploaded).AlreadyUploaded? ||
             Process(files[i], uploaded).Rejected?
    ensures Run(files[i..], uploaded) == Run(files[i + 1..], uploaded)
  {
    assert files[i..][0] == files[i] && files[i..][1..] == files[i + 1..];
  }

  /** An imported file's rows come before those of the rest of the run, and
      its name is uploaded. */
  lemma RunImport(files: seq<CsvFile>, i: nat, uploaded: seq<string>, uid: int, segs: seq<Segment>)
    requires i < |files| && Process(files[i], uploaded) == Imported(uid, segs)
    ensures var rest := Run(files[i + 1..], uploaded + [files[i].name]);
      Run(files[i..], uploaded) == RunState(rest.uploaded, Inserts(uid, segs) + rest.stored, rest.crashed)
  {
    assert files[i..][0] == files[i] && files[i..][1..] == files[i + 1..];
  }

  // ---------------------------------------------------------------------
  // The user id.

  /** `split` yields a second piece exactly when the separator occurs. */
  lemma {:induction false} SplitPieces(s: string, c: char)
    ensures |Split(s, c)| >= 2 <==> c in s
  {
    if s != [] {
      SplitPieces(s[1..], c);
      assert c in s <==> s[0] == c || c in s[1..];
    }
  }

  /** The first piece of `d + rest` is `d` when `d` has no separator and
      `rest` is empty or starts with one. */
  lemma {:induction false} SplitFirst(d: string, rest: string, c: char)
    requires c !in d && (rest == [] || rest[0] == c)
    ensures Split(d + rest, c)[0] == d
  {
    if d == [] {
      if rest != [] {
        assert ([] + rest)[0] == c;
      }
    } else {
      assert (d + rest)[1..] == d[1..] + rest;
      SplitFirst(d[1..], rest, c);
      assert d == [d[0]] + d[1..];
    }
  }

  /** Skipping a separator-free piece and the separator after it. */
  lemma {:induction false} SplitSkip(a: string, b: string, c: char)
    requires c !in a
    ensures Split(a + [c] + b, c)[1..] == Split(b, c)
    ensures |Split(a + [c] + b, c)| == |Split(b, c)| + 1
  {
    if a == [] {
      assert a + [c] + b == [c] + b;
      assert ([c] + b)[1..] == b;
    } else {
      assert (a + [c] + b)[1..] == a[1..] + [c] + b;
      SplitSkip(a[1..], b, c);
    }
  }

  /** Line 38 on a name `<prefix>_<digits>` followed by nothing or by
      `_...`: the user id is the value of the digits. A name without `_`
      raises `IndexError`. */
  lemma UserIdOfName(prefix: string, digits: string, rest: string)
    requires '_' !in prefix && AllDigits(digits) && (rest == [] || rest[0] == '_')
    ensures UserIdOf(prefix + "_" + digits + rest) == Ok(DigitsValue(digits))
  {
    var name := prefix + "_" + digits + rest;
    assert name == prefix + ['_'] + (digits + rest);
    SplitSkip(prefix, digits + rest, '_');
    assert '_' !in digits by {
      forall i | 0 <= i < |digits|
        ensures digits[i] != '_'
      {
        assert IsDigit(digits[i]);
      }
    }
    SplitFirst(digits, rest, '_');
    assert Split(name, '_')[1] == Split(digits + rest, '_')[0];
  }

  /** Without `_` there is no second piece. */
  lemma UserIdNoSeparator(name: string)
    requires '_' !in name
    ensures UserIdOf(name) == Err(IndexError)
  {
    SplitPieces(name, '_');
  }

  lemma DigitsExample()
    ensures AllDigits("100000") && DigitsValue("100000") == 100000
  {
    assert "100000"[..5] == "10000" && "10000"[..4] == "1000" && "1000"[..3] == "100";
    assert "100"[..2] == "10" && "10"[..1] == "1" && "1"[..0] == "";
  }

  /** The file name of the repository's data: user 100000. */
  lemma UserIdExample()
    ensures UserIdOf("user_100000_trajectory.csv") == Ok(100000)
    ensures UserIdOf("user.csv") == Err(IndexError)
  {
    DigitsExample();
    var rest := "_trajectory.csv";
    assert rest[0] == '_';
    assert "user_100000_trajectory.csv" == "user" + "_" + "100000" + rest;
    UserIdOfName("user", "100000", rest);
    UserIdNoSeparator("user.csv");
  }

  // ---------------------------------------------------------------------
  // Cleaning.

  /** Cleaning keeps exactly the lines with a numeric timestamp. */
  lemma {:induction false} CleanMembers(rows: seq<Row>, f: Fix)
    ensures f in Clean(rows) <==> Row(f.latitude, f.longitude, Some(f.timestamp)) in rows
  {
    if rows != [] {
      CleanMembers(rows[1..], f);
      assert rows == [rows[0]] + rows[1..];
    }
  }

  // ---------------------------------------------------------------------
  // Segment numbering.

  /** The count of gaps up to `i` depends only on the fixes up to `i`. */
  lemma {:induction false} GapsPrefix(fixes: seq<Fix>, f: Fix, i: nat)
    requires i < |fixes|
    ensures GapsUpTo(fixes + [f], i) == GapsUpTo(fixes, i)
  {
    if i > 0 {
      GapsPrefix(fixes, f, i - 1);
    }
  }

  /** Ids never decrease. */
  lemma {:induction false} GapsMonotone(fixes: seq<Fix>, i: nat, j: nat)
    requires i <= j < |fixes|
    ensures GapsUpTo(fixes, i) <= GapsUpTo(fixes, j)
    decreases j
  {
    if i < j {
      GapsMonotone(fixes, i, j - 1);
    }
  }

  /** Line 57: the first fix is in trajectory 0; the id rises by exactly one
      where the gap exceeds `TimeThreshold` and stays otherwise; so the ids
      never decrease and take every value from 0 to the last one. */
  lemma SegmentIdsFacts(fixes: seq<Fix>)
    ensures |SegmentIds(fixes)| == |fixes|
    ensures |fixes| >= 1 ==> SegmentIds(fixes)[0] == 0
    ensures forall i :: 1 <= i < |fixes| ==>
              (SegmentIds(fixes)[i] == SegmentIds(fixes)[i - 1] + 1 <==> GapBefore(fixes, i))
    ensures forall i :: 1 <= i < |fixes| ==>
              (SegmentIds(fixes)[i] == SegmentIds(fixes)[i - 1] <==> !GapBefore(fixes, i))
    ensures forall i, j :: 0 <= i <= j < |fixes| ==> SegmentIds(fixes)[i] <= SegmentIds(fixes)[j]
    ensures |fixes| >= 1 ==>
              forall k: nat :: k <= SegmentIds(fixes)[|fixes| - 1] ==> k in SegmentIds(fixes)
  {
    var ids := SegmentIds(fixes);
    forall i, j | 0 <= i <= j < |fixes|
      ensures ids[i] <= ids[j]
    {
      GapsMonotone(fixes, i, j);
    }
    if fixes != [] {
      forall k: nat | k <= ids[|fixes| - 1]
        ensures k in ids
      {
        IdTaken(fixes, |fixes| - 1, k);
        var i :| 0 <= i <= |fixes| - 1 && GapsUpTo(fixes, i) == k;
        assert ids[i] == k;
      }
    }
  }

  /** Every id up to the one at `j` is taken by some fix up to `j`. */
  lemma {:induction false} IdTaken(fixes: seq<Fix>, j: nat, k: nat)
    requires j < |fixes| && k <= GapsUpTo(fixes, j)
    ensures exists i :: 0 <= i <= j && GapsUpTo(fixes, i) == k
  {
    if k < GapsUpTo(fixes, j) {
      IdTaken(fixes, j - 1, k);
    }
  }

  // ---------------------------------------------------------------------
  // Grouping: the segments are the maximal runs without a long gap.

  /** No fix carries id `k`. */
  lemma {:induction false} WithIdAbsent(fixes: seq<Fix>, ids: seq<nat>, k: nat)
    requires |ids| == |fixes| && forall i :: 0 <= i < |ids| ==> ids[i] != k
    ensures WithId(fixes, ids, k) == []
  {
    if fixes != [] {
      var n := |fixes| - 1;
      WithIdAbsent(fixes[..n], ids[..n], k);
    }
  }

  /** Appending a fix: it opens a new segment after a long gap, and joins
      the last segment otherwise. */
  lemma GroupSnoc(fixes: seq<Fix>, f: Fix)
    requires fixes != []
    ensures |Group(fixes)| >= 1
    ensures GapBefore(fixes + [f], |fixes|) ==>
              Group(fixes + [f]) == Group(fixes) + [Segment(|Group(fixes)|, [f])]
    ensures !GapBefore(fixes + [f], |fixes|) ==>
              Group(fixes + [f]) ==
              Group(fixes)[..|Group(fixes)| - 1] + [Segment(|Group(fixes)| - 1, Group(fixes)[|Group(fixes)| - 1].nodes + [f])]
  {
    var all := fixes + [f];
    var n := |fixes|;
    var ids, idsAll := SegmentIds(fixes), SegmentIds(all);
    forall i | 0 <= i < n
      ensures idsAll[i] == ids[i]
    {
      GapsPrefix(fixes, f, i);
    }
    assert idsAll[..n] == ids;
    assert all[..n] == fixes;
    var last := ids[n - 1];
    var g, gAll := Group(fixes), Group(all);
    assert |g| == last + 1;
    forall k: nat
      ensures WithId(all, idsAll, k) == WithId(fixes, ids, k) + (if idsAll[n] == k then [f] else [])
    {
    }
    if GapBefore(all, n) {
      assert idsAll[n] == last + 1;
      SegmentIdsFacts(fixes);
      WithIdAbsent(fixes, ids, last + 1);
      var want := g + [Segment(|g|, [f])];
      forall k | 0 <= k < |gAll|
        ensures gAll[k] == want[k]
      {
        assert gAll[k] == Segment(k, WithId(all, idsAll, k));
      }
      assert gAll == want;
    } else {
      assert idsAll[n] == last;
      var want := g[..|g| - 1] + [Segment(|g| - 1, g[|g| - 1].nodes + [f])];
      forall k | 0 <= k < |gAll|
        ensures gAll[k] == want[k]
      {
        assert gAll[k] == Segment(k, WithId(all, idsAll, k));
      }
      assert gAll == want;
    }
  }

  lemma GroupSingle(f: Fix)
    ensures Group([f]) == [Segment(0, [f])]
  {
    var ids := SegmentIds([f]);
    assert ids[0] == GapsUpTo([f], 0) == 0;
    assert [f][..0] == [];
    assert WithId([f], ids, 0) == WithId([], ids[..0], 0) + [f];
    var g := Group([f]);
    assert |g| == 1;
    assert g[0] == Segment(0, WithId([f], ids, 0));
    assert WithId([], ids[..0], 0) == [];
    assert WithId([f], ids, 0) == [f];
    assert g[0] == Segment(0, [f]);
    assert g == [g[0]];
  }

  lemma ConcatSnoc(g: seq<Segment>, seg: Segment)
    ensures Concat(g + [seg]) == Concat(g) + seg.nodes
  {
    assert (g + [seg])[..|g|] == g;
  }

  /** Growing the last segment grows the concatenation by the same fix. */
  lemma ConcatGrowLast(g: seq<Segment>, f: Fix)
    requires |g| >= 1
    ensures Concat(g[..|g| - 1] + [Segment(|g| - 1, g[|g| - 1].nodes + [f])]) == Concat(g) + [f]
  {
    var m := |g|;
    var pre, last := g[..m - 1], g[m - 1];
    var grown := Segment(m - 1, last.nodes + [f]);
    calc {
      Concat(pre + [grown]);
      { ConcatSnoc(pre, grown); }
      Concat(pre) + (last.nodes + [f]);
      (Concat(pre) + last.nodes) + [f];
      Concat(g) + [f];
    }
  }

  /** The segments hold the fixes, in order. */
  lemma {:induction false} GroupConcat(fixes: seq<Fix>)
    ensures Concat(Group(fixes)) == fixes
    decreases |fixes|
  {
    if |fixes| == 1 {
      GroupSingle(fixes[0]);
      assert fixes == [fixes[0]];
      ConcatSnoc([], Segment(0, fixes));
      assert [] + [Segment(0, fixes)] == [Segment(0, fixes)];
    } else if |fixes| > 1 {
      var n := |fixes| - 1;
      var init, f := fixes[..n], fixes[n];
      assert fixes == init + [f];
      GroupConcat(init);
      GroupSnoc(init, f);
      var g := Group(init);
      if GapBefore(fixes, n) {
        ConcatSnoc(g, Segment(|g|, [f]));
      } else {
        ConcatGrowLast(g, f);
      }
    }
  }

  /** The segments are numbered 0, 1, ... and none is empty. */
  lemma {:induction false} GroupShape(fixes: seq<Fix>)
    ensures forall k :: 0 <= k < |Group(fixes)| ==>
              Group(fixes)[k].trajectoryId == k && Group(fixes)[k].nodes != []
    decreases |fixes|
  {
    if |fixes| == 1 {
      GroupSingle(fixes[0]);
    } else if |fixes| > 1 {
      var n := |fixes| - 1;
      assert fixes == fixes[..n] + [fixes[n]];
      GroupShape(fixes[..n]);
      GroupSnoc(fixes[..n], fixes[n]);
    }
  }

  /** Consecutive fixes of `nodes` are at most `TimeThreshold` apart. */
  ghost predicate Close(nodes: seq<Fix>) {
    forall j :: 1 <= j < |nodes| ==> nodes[j].timestamp - nodes[j - 1].timestamp <= TimeThreshold
  }

  /** Segment `k` starts more than `TimeThreshold` after segment `k - 1`
      ends. */
  ghost predicate ApartFromPrevious(g: seq<Segment>, k: int)
    requires 1 <= k < |g|
  {
    var before, after := g[k - 1].nodes, g[k].nodes;
    before != [] && after != [] && after[0].timestamp - before[|before| - 1].timestamp > TimeThreshold
  }

  lemma CloseSnoc(nodes: seq<Fix>, f: Fix)
    requires Close(nodes) && nodes != []
    requires f.timestamp - nodes[|nodes| - 1].timestamp <= TimeThreshold
    ensures Close(nodes + [f])
  {
  }

  /** The last fix before the newest one ends the last segment. */
  lemma GroupLastFix(fixes: seq<Fix>)
    requires fixes != []
    ensures |Group(fixes)| >= 1
    ensures var lastSeg := Group(fixes)[|Group(fixes)| - 1].nodes;
            lastSeg != [] && lastSeg[|lastSeg| - 1] == fixes[|fixes| - 1]
  {
    GroupConcat(fixes);
    GroupShape(fixes);
    var g := Group(fixes);
    var m := |g|;
    var lastSeg := g[m - 1];
    assert g == g[..m - 1] + [lastSeg];
    assert fixes == Concat(g[..m - 1]) + lastSeg.nodes;
  }

  /** Consecutive fixes of a segment are at most `TimeThreshold` apart. */
  lemma {:induction false} GroupInside(fixes: seq<Fix>)
    ensures forall k :: 0 <= k < |Group(fixes)| ==> Close(Group(fixes)[k].nodes)
    decreases |fixes|
  {
    if |fixes| == 1 {
      GroupSingle(fixes[0]);
      assert fixes == [fixes[0]];
    } else if |fixes| > 1 {
      var n := |fixes| - 1;
      var init, f := fixes[..n], fixes[n];
      assert fixes == init + [f];
      GroupInside(init);
      GroupSnoc(init, f);
      var g, gAll := Group(init), Group(fixes);
      var m := |g|;
      if GapBefore(fixes, n) {
        forall k | 0 <= k < |gAll|
          ensures Close(gAll[k].nodes)
        {
          if k < m {
            assert gAll[k] == g[k];
          }
        }
      } else {
        GroupLastFix(init);
        var lastSeg := g[m - 1].nodes;
        CloseSnoc(lastSeg, f);
        forall k | 0 <= k < |gAll|
          ensures Close(gAll[k].nodes)
        {
          if k < m - 1 {
            assert gAll[k] == g[k];
          }
        }
      }
    }
  }

  /** A new one-fix segment after a long gap keeps the segments apart. */
  lemma ApartAppend(g: seq<Segment>, m: nat, f: Fix)
    requires |g| == m >= 1 && g[m - 1].nodes != []
    requires forall k :: 1 <= k < m ==> ApartFromPrevious(g, k)
    requires f.timestamp - g[m - 1].nodes[|g[m - 1].nodes| - 1].timestamp > TimeThreshold
    ensures forall k :: 1 <= k < m + 1 ==> ApartFromPrevious(g + [Segment(m, [f])], k)
  {
    var g' := g + [Segment(m, [f])];
    forall k | 1 <= k < m + 1
      ensures ApartFromPrevious(g', k)
    {
      if k < m {
        assert g'[k] == g[k] && g'[k - 1] == g[k - 1];
        assert ApartFromPrevious(g, k);
      }
    }
  }

  /** Growing the last segment keeps the segments apart. */
  lemma ApartGrowLast(g: seq<Segment>, m: nat, f: Fix, g': seq<Segment>)
    requires |g| == m >= 1 && g[m - 1].nodes != []
    requires forall k :: 1 <= k < m ==> ApartFromPrevious(g, k)
    requires g' == g[..m - 1] + [Segment(m - 1, g[m - 1].nodes + [f])]
    ensures forall k :: 1 <= k < m ==> ApartFromPrevious(g', k)
  {
    forall k | 1 <= k < m
      ensures ApartFromPrevious(g', k)
    {
      assert ApartFromPrevious(g, k);
      assert g'[k - 1] == g[k - 1];
      if k < m - 1 {
        assert g'[k] == g[k];
      } else {
        assert g'[k].nodes[0] == g[k].nodes[0];
      }
    }
  }

  /** Each segment starts more than `TimeThreshold` after the previous one
      ends. */
  lemma {:induction false} GroupBetween(fixes: seq<Fix>)
    ensures forall k :: 1 <= k < |Group(fixes)| ==> ApartFromPrevious(Group(fixes), k)
    decreases |fixes|
  {
    if |fixes| > 1 {
      var n := |fixes| - 1;
      var init, f := fixes[..n], fixes[n];
      assert fixes == init + [f];
      GroupBetween(init);
      GroupSnoc(init, f);
      GroupLastFix(init);
      var g, gAll := Group(init), Group(init + [f]);
      if GapBefore(init + [f], n) {
        ApartAppend(g, |g|, f);
      } else {
        ApartGrowLast(g, |g|, f, gAll);
      }
    }
  }

  /** Lines 57-63: grouping by the numbering cuts the fixes, in order, into
      non-empty segments numbered 0, 1, ... such that consecutive fixes of a
      segment are at most `TimeThreshold` apart and each segment starts
      more than `TimeThreshold` after the previous one ends: the segments
      are the maximal runs without a long gap. */
  lemma GroupFacts(fixes: seq<Fix>)
    ensures Concat(Group(fixes)) == fixes
    ensures forall k :: 0 <= k < |Group(fixes)| ==>
              Group(fixes)[k].trajectoryId == k && Group(fixes)[k].nodes != []
    ensures forall k :: 0 <= k < |Group(fixes)| ==> Close(Group(fixes)[k].nodes)
    ensures forall k :: 1 <= k < |Group(fixes)| ==> ApartFromPrevious(Group(fixes), k)
  {
    GroupConcat(fixes);
    GroupShape(fixes);
    GroupInside(fixes);
    GroupBetween(fixes);
  }

  /** Lines 51-63 for one file: the stored segments hold exactly the lines
      with a numeric timestamp, in ascending time order. */
  lemma SegmentsFacts(rows: seq<Row>)
    ensures multiset(Concat(Segments(rows))) == multiset(Clean(rows))
    ensures SortedBy(Concat(Segments(rows)), TimeOf)
  {
    var sorted := SortBy(Clean(rows), TimeOf);
    SortByFacts(Clean(rows), TimeOf);
    GroupFacts(sorted);
  }

  // ---------------------------------------------------------------------
  // The import loop.

  /** The list of uploaded names only grows, and only by the names of files
      that were imported. */
  lemma {:induction false} RunUploaded(files: seq<CsvFile>, uploaded: seq<string>)
    ensures |uploaded| <= |Run(files, uploaded).uploaded|
    ensures Run(files, uploaded).uploaded[..|uploaded|] == uploaded
    ensures forall x :: x in Run(files, uploaded).uploaded[|uploaded|..] ==>
              exists i :: 0 <= i < |files| && files[i].name == x && EndsWith(x, ".csv") && UserIdOf(x).Ok?
    decreases |files|, 1
  {
    if files != [] {
      match Process(files[0], uploaded)
      case Imported(_, _) =>
        RunUploadedImported(files, uploaded);
      case Crash(_) =>
      case _ =>
        RunUploaded(files[1..], uploaded);
        forall x | x in Run(files, uploaded).uploaded[|uploaded|..]
          ensures exists i :: 0 <= i < |files| && files[i].name == x && EndsWith(x, ".csv") && UserIdOf(x).Ok?
        {
          var i :| 0 <= i < |files[1..]| && files[1..][i].name == x && EndsWith(x, ".csv") && UserIdOf(x).Ok?;
          assert files[i + 1] == files[1..][i];
        }
    }
  }

  /** `RunUploaded` when the first file is imported: its name is the first
      one added. */
  lemma {:induction false} RunUploadedImported(files: seq<CsvFile>, uploaded: seq<string>)
    requires files != [] && Process(files[0], uploaded).Imported?
    ensures |uploaded| <= |Run(files, uploaded).uploaded|
    ensures Run(files, uploaded).uploaded[..|uploaded|] == uploaded
    ensures forall x :: x in Run(files, uploaded).uploaded[|uploaded|..] ==>
              exists i :: 0 <= i < |files| && files[i].name == x && EndsWith(x, ".csv") && UserIdOf(x).Ok?
    decreases |files|, 0
  {
    var u' := uploaded + [files[0].name];
    RunUploaded(files[1..], u');
    var r := Run(files[1..], u').uploaded;
    assert Run(files, uploaded).uploaded == r;
    assert r[..|u'|][..|uploaded|] == uploaded;
    assert r[|uploaded|] == r[..|u'|][|uploaded|] == files[0].name;
    forall x | x in r[|uploaded|..]
      ensures exists i :: 0 <= i < |files| && files[i].name == x && EndsWith(x, ".csv") && UserIdOf(x).Ok?
    {
      var k :| |uploaded| <= k < |r| && r[k] == x;
      if k == |uploaded| {
        assert files[0].name == x;
      } else {
        assert x == r[|u'|..][k - |u'|] && x in r[|u'|..];
        var i :| 0 <= i < |files[1..]| && files[1..][i].name == x && EndsWith(x, ".csv") && UserIdOf(x).Ok?;
        assert files[i + 1] == files[1..][i];
      }
    }
  }

  /** A second run over the same folder with a list holding every name the
      first run uploaded stores nothing and uploads nothing, provided the
      first run did not crash: import is idempotent per file. */
  lemma {:induction false} RunAgain(files: seq<CsvFile>, uploaded: seq<string>, later: seq<string>)
    requires !Run(files, uploaded).crashed
    requires forall x :: x in Run(files, uploaded).uploaded ==> x in later
    ensures Run(files, later) == RunState(later, [], false)
  {
    if files != [] {
      var f := files[0];
      RunUploaded(files[1..], uploaded + [f.name]);
      RunUploaded(files[1..], uploaded);
      var out := Process(f, uploaded);
      if out.Imported? {
        var r := Run(files[1..], uploaded + [f.name]).uploaded;
        assert r[..|uploaded| + 1][|uploaded|] == f.name;
        assert f.name in later;
        RunAgain(files[1..], uploaded + [f.name], later);
      } else if !out.Crash? {
        var r := Run(files[1..], uploaded).uploaded;
        if f.name in uploaded {
          assert f.name in r[..|uploaded|];
        }
        RunAgain(files[1..], uploaded, later);
      }
    }
  }

  /** Running the import twice: the second run changes nothing. */
  lemma RunIdempotent(files: seq<CsvFile>, uploaded: seq<string>)
    requires !Run(files, uploaded).crashed
    ensures var first := Run(files, uploaded);
            Run(files, first.uploaded) == RunState(first.uploaded, [], false)
  {
    RunAgain(files, uploaded, Run(files, uploaded).uploaded);
  }
}
