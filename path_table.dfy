/** The path table shared by the join and traversal miners: a map from a path
    of geometry-only node keys to the set of trajectory ids recorded for it,
    together with what "a path occurs in a trajectory" and "the support of a
    path" mean. */
module PathTable {
  import opened Wrappers
  import opened Points

  type Path = seq<Loc>
  type Table = map<Path, set<int>>

  /** `p` occurs in `s` as the contiguous run starting at position `i`. */
  ghost predicate OccursAt(s: seq<Loc>, p: Path, i: int) {
    0 <= i && i + |p| <= |s| && s[i..i + |p|] == p
  }

  /** `p` is a contiguous run of `s`. */
  ghost predicate Occurs(s: seq<Loc>, p: Path) {
    exists i :: OccursAt(s, p, i)
  }

  /** `p` occurs in `s` at some start position below `n`. */
  ghost predicate OccursBefore(s: seq<Loc>, p: Path, n: int)
    decreases n
  {
    n > 0 && (OccursBefore(s, p, n - 1) || OccursAt(s, p, n - 1))
  }

  /** Distinct-trajectory support: the ids of the trajectories whose point
      keys contain `p` as a contiguous run. */
  ghost function Support(ts: seq<Trajectory>, p: Path): set<int> {
    set k | 0 <= k < |ts| && Occurs(Locs(ts[k]), p) :: ts[k].trajectoryId
  }

  /** Every id that labels some trajectory of `ts`. */
  ghost function AllIds(ts: seq<Trajectory>): set<int> {
    set k | 0 <= k < |ts| :: ts[k].trajectoryId
  }

  /** The ids a loop over `ts` has recorded for `p` once it has finished the
      trajectories before `j` and the windows of `ts[j]` starting before `i`. */
  ghost function PartialSupport(ts: seq<Trajectory>, p: Path, j: nat, i: nat): set<int>
    requires j <= |ts|
  {
    if j == |ts| then Support(ts, p)
    else Support(ts[..j], p) + (if OccursBefore(Locs(ts[j]), p, i) then {ts[j].trajectoryId} else {})
  }

  /** `table` holds, for every path of width `w` that `kept` admits, exactly
      the ids recorded so far, and nothing else. */
  ghost predicate Records(table: Table, ts: seq<Trajectory>, w: nat, kept: Option<Table>, j: nat, i: nat)
    requires j <= |ts|
  {
    && (forall p :: p in table ==> |p| == w && Admits(kept, p) && table[p] == PartialSupport(ts, p, j, i))
    && (forall p :: |p| == w && Admits(kept, p) && PartialSupport(ts, p, j, i) != {} ==> p in table)
    && (forall p :: p in table ==> table[p] != {})
  }

  /** Which windows a table-building loop records: all of them (`None`), or
      only those whose first nodes are a path of the given table. */
  predicate Admits(kept: Option<Table>, p: Path) {
    kept.None? || (|p| >= 1 && Init(p) in kept.value)
  }

  /** A path without its last node: `path[:-1]`. */
  function Init(q: Path): Path
    requires |q| >= 1
  {
    q[..|q| - 1]
  }

  /** A path without its first node: `path[1:]`. */
  function Tail(q: Path): Path
    requires |q| >= 1
  {
    q[1..]
  }

  /** Number of windows of width `w` in a sequence of length `n`, which is
      what `range(n - w + 1)` iterates over. */
  function WindowCount(n: nat, w: nat): nat {
    if n + 1 >= w then n + 1 - w else 0
  }

  /** The pruning comprehension: keep the entries with at least `mmin` ids. */
  function Prune(t: Table, mmin: int): (r: Table)
    ensures forall p :: p in r <==> p in t && |t[p]| >= mmin
    ensures forall p :: p in r ==> r[p] == t[p]
  {
    map p | p in t && |t[p]| >= mmin :: t[p]
  }

  lemma {:induction false} OccursBeforeIff(s: seq<Loc>, p: Path, n: int)
    ensures OccursBefore(s, p, n) <==> exists i :: 0 <= i < n && OccursAt(s, p, i)
    decreases n
  {
    if n > 0 {
      OccursBeforeIff(s, p, n - 1);
    }
  }

  /** Once every window position has been visited, "occurs before" is "occurs". */
  lemma OccursBeforeEnd(s: seq<Loc>, p: Path, n: nat)
    requires n == WindowCount(|s|, |p|)
    ensures OccursBefore(s, p, n) <==> Occurs(s, p)
  {
    OccursBeforeIff(s, p, n);
  }

  /** One more window visited. */
  lemma OccursBeforeStep(s: seq<Loc>, p: Path, i: nat)
    ensures OccursBefore(s, p, i + 1) <==> OccursBefore(s, p, i) || OccursAt(s, p, i)
  {
  }

  lemma SupportSnoc(ts: seq<Trajectory>, j: nat, p: Path)
    requires j < |ts|
    ensures Support(ts[..j + 1], p) ==
            Support(ts[..j], p) + (if Occurs(Locs(ts[j]), p) then {ts[j].trajectoryId} else {})
  {
    var a, b := ts[..j + 1], ts[..j];
    assert forall k :: 0 <= k < j ==> a[k] == b[k] && a[k] == ts[k];
    assert a[j] == ts[j];
  }

  lemma SupportAll(ts: seq<Trajectory>, p: Path)
    ensures Support(ts[..|ts|], p) == Support(ts, p)
  {
    assert ts[..|ts|] == ts;
  }

  /** A trajectory that contains `p` contributes its id to the support of `p`. */
  lemma InSupport(ts: seq<Trajectory>, j: nat, p: Path, i: nat)
    requires j < |ts| && OccursAt(Locs(ts[j]), p, i)
    ensures ts[j].trajectoryId in Support(ts, p)
  {
    assert Occurs(Locs(ts[j]), p);
  }

  lemma SubsetCard<T>(a: set<T>, b: set<T>)
    requires a <= b
    ensures |a| <= |b|
  {
    assert b == a + (b - a);
  }

  /** Support only ever names ids of the input. */
  lemma SupportInAllIds(ts: seq<Trajectory>, p: Path)
    ensures Support(ts, p) <= AllIds(ts)
  {
  }

  /** The empty table records everything there is before the first trajectory. */
  lemma RecordsStart(ts: seq<Trajectory>, w: nat, kept: Option<Table>)
    ensures Records(map[], ts, w, kept, 0, 0)
  {
    forall p | |p| == w && Admits(kept, p)
      ensures PartialSupport(ts, p, 0, 0) == {}
    {
      if |ts| == 0 {
        assert Support(ts, p) == {};
      } else {
        assert Support(ts[..0], p) == {};
      }
    }
  }

  /** Visiting the window of `ts[j]` at position `i` adds `ts[j]`'s id to
      that window's recorded ids and to no other path's. */
  lemma PartialSupportStep(ts: seq<Trajectory>, w: nat, j: nat, i: nat, p: Path)
    requires j < |ts| && i < WindowCount(|ts[j].nodes|, w) && |p| == w
    ensures PartialSupport(ts, p, j, i + 1) ==
            PartialSupport(ts, p, j, i) + (if p == Locs(ts[j])[i..i + w] then {ts[j].trajectoryId} else {})
  {
    var s := Locs(ts[j]);
    OccursBeforeStep(s, p, i);
    assert OccursAt(s, p, i) <==> p == s[i..i + w];
  }

  /** Visiting a window of `ts[j]` that `kept` admits: add `ts[j]`'s id to
      its entry. */
  lemma RecordsAdd(table: Table, ts: seq<Trajectory>, w: nat, kept: Option<Table>, j: nat, i: nat, q: Path, id: int)
    requires j < |ts| && i < WindowCount(|ts[j].nodes|, w)
    requires Records(table, ts, w, kept, j, i)
    requires q == Locs(ts[j])[i..i + w] && id == ts[j].trajectoryId && Admits(kept, q)
    ensures Records(table[q := (if q in table then table[q] else {}) + {id}], ts, w, kept, j, i + 1)
  {
    var t' := table[q := (if q in table then table[q] else {}) + {id}];
    forall p | p in t'
      ensures |p| == w && Admits(kept, p) && t'[p] == PartialSupport(ts, p, j, i + 1) && t'[p] != {}
    {
      PartialSupportStep(ts, w, j, i, p);
    }
    forall p | |p| == w && Admits(kept, p) && PartialSupport(ts, p, j, i + 1) != {}
      ensures p in t'
    {
      PartialSupportStep(ts, w, j, i, p);
    }
  }

  /** Visiting a window of `ts[j]` that `kept` rejects changes nothing. */
  lemma RecordsSkip(table: Table, ts: seq<Trajectory>, w: nat, kept: Option<Table>, j: nat, i: nat)
    requires j < |ts| && i < WindowCount(|ts[j].nodes|, w)
    requires Records(table, ts, w, kept, j, i)
    requires !Admits(kept, Locs(ts[j])[i..i + w])
    ensures Records(table, ts, w, kept, j, i + 1)
  {
    forall p | p in table
      ensures table[p] == PartialSupport(ts, p, j, i + 1)
    {
      PartialSupportStep(ts, w, j, i, p);
    }
    forall p | |p| == w && Admits(kept, p) && PartialSupport(ts, p, j, i + 1) != {}
      ensures p in table
    {
      PartialSupportStep(ts, w, j, i, p);
    }
  }

  /** Moving from the last window of `ts[j]` to the first one of `ts[j + 1]`. */
  lemma RecordsNext(table: Table, ts: seq<Trajectory>, w: nat, kept: Option<Table>, j: nat)
    requires j < |ts|
    requires Records(table, ts, w, kept, j, WindowCount(|ts[j].nodes|, w))
    ensures Records(table, ts, w, kept, j + 1, 0)
  {
    var n := WindowCount(|ts[j].nodes|, w);
    forall p | |p| == w
      ensures PartialSupport(ts, p, j, n) == PartialSupport(ts, p, j + 1, 0)
    {
      OccursBeforeEnd(Locs(ts[j]), p, n);
      SupportSnoc(ts, j, p);
      if j + 1 == |ts| {
        SupportAll(ts, p);
      }
    }
  }

  /** After the last trajectory the table holds, for each admitted path of
      width `w` that occurs somewhere, exactly its support. */
  lemma RecordsDone(table: Table, ts: seq<Trajectory>, w: nat, kept: Option<Table>)
    requires Records(table, ts, w, kept, |ts|, 0)
    ensures forall p :: p in table <==> |p| == w && Admits(kept, p) && Support(ts, p) != {}
    ensures forall p :: p in table ==> table[p] == Support(ts, p)
  {
  }
}
