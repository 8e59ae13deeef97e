/** TSPMG_B: a depth-first search from one start node with an explicit stack,
    whose only pruning is on path length. */
module TspmgB {
  import opened Wrappers

  /** The value `graph.get(node, [])` iterates over: a neighbour list, or a
      value that cannot be iterated (the `TypeError` the expansion raises). */
  datatype Adjacency<N> = Neighbors(nodes: seq<N>) | NotIterable

  type Graph<N(==)> = map<N, Adjacency<N>>

  /** A stack entry `(node, path)`. */
  datatype Entry<N> = Entry(node: N, path: seq<N>)

  function Last<N>(p: seq<N>): N
    requires |p| >= 1
  {
    p[|p| - 1]
  }

  /** The neighbours a successful expansion of `node` visits; none when the
      node is unknown or its adjacency cannot be iterated. */
  function Nbrs<N(==)>(g: Graph<N>, node: N): seq<N> {
    if node in g && g[node].Neighbors? then g[node].nodes else []
  }

  /** Lines 53-55: continue while the path is shorter than the threshold. */
  function ShouldContinue<N>(path: seq<N>, freqThreshold: int): bool {
    |path| < freqThreshold
  }

  /** Lines 48-50: every path counts as frequent. */
  function IsFrequent<N(==)>(path: seq<N>, g: Graph<N>): bool {
    true
  }

  /** What expanding `path` along the neighbour list `nbrs` yields: one path
      per neighbour, in order, when the extended paths are short enough, and
      none otherwise (they all have the same length). */
  function Expansions<N>(path: seq<N>, nbrs: seq<N>, freqThreshold: int): seq<seq<N>> {
    if |path| + 1 < freqThreshold then seq(|nbrs|, i requires 0 <= i < |nbrs| => path + [nbrs[i]])
    else []
  }

  /** Lines 39-45, `dfs_expand_path`. Iterating a value that is not a list
      raises, which is the error result. */
  method DfsExpandPath<N(==)>(g: Graph<N>, node: N, path: seq<N>, freqThreshold: int, kmin: int)
    returns (r: Result<seq<seq<N>>>)
    ensures r.Err? <==> node in g && g[node].NotIterable?
    ensures r.Err? ==> r.error == TypeError
    ensures r.Ok? ==> r.value == Expansions(path, Nbrs(g, node), freqThreshold)
  {
    var adjacency := if node in g then g[node] else Neighbors([]);
    if adjacency.NotIterable? {
      return Err(TypeError);
    }
    var nbrs := adjacency.nodes;
    var expandedPaths: seq<seq<N>> := [];
    var i := 0;
    while i < |nbrs|
      invariant 0 <= i <= |nbrs|
      invariant expandedPaths == Expansions(path, nbrs[..i], freqThreshold)
    {
      ExpansionsSnoc(path, nbrs, i, freqThreshold);
      var newPath := path + [nbrs[i]];
      if ShouldContinue(newPath, freqThreshold) {
        expandedPaths := expandedPaths + [newPath];
      }
      i := i + 1;
    }
    assert nbrs[..i] == nbrs;
    return Ok(expandedPaths);
  }

  // ---------------------------------------------------------------------
  // What the search reports.

  /** The number of ways the search reaches `q` from `p`: at each step, the
      number of times the next node of `q` occurs in the current node's
      neighbour list. It is non-zero exactly when `q` extends `p` along
      edges. */
  function Ways<N(==)>(g: Graph<N>, p: seq<N>, q: seq<N>): nat
    requires 1 <= |p| <= |q|
    decreases |q| - |p|
  {
    if |p| == |q| then (if p == q then 1 else 0)
    else multiset(Nbrs(g, Last(p)))[q[|p|]] * Ways(g, p + [q[|p|]], q)
  }

  /** How many times the search expanding the stacked path `p` reports `q`. */
  function Below<N(==)>(g: Graph<N>, freqThreshold: int, kmin: int, p: seq<N>, q: seq<N>): nat
    requires |p| >= 1
  {
    if |p| < |q| && kmin <= |q| < freqThreshold then Ways(g, p, q) else 0
  }

  /** How many times `q` is reported by the entries still on the stack. */
  ghost function Pending<N>(g: Graph<N>, freqThreshold: int, kmin: int, stack: seq<Entry<N>>, q: seq<N>): nat
    requires forall k :: 0 <= k < |stack| ==> |stack[k].path| >= 1
  {
    if stack == [] then 0
    else Pending(g, freqThreshold, kmin, stack[..|stack| - 1], q) + Below(g, freqThreshold, kmin, stack[|stack| - 1].path, q)
  }

  /** How many times `q` is reported while handling the expanded paths `es`:
      once if it is one of them and long enough, plus what their own
      expansions report. */
  ghost function Rest<N>(g: Graph<N>, freqThreshold: int, kmin: int, es: seq<seq<N>>, q: seq<N>): nat
    requires forall e :: e in es ==> |e| >= 1
  {
    if es == [] then 0
    else
      (if es[0] == q && |q| >= kmin then 1 else 0) + Below(g, freqThreshold, kmin, es[0], q)
      + Rest(g, freqThreshold, kmin, es[1..], q)
  }

  /** Room left below the threshold. */
  function Budget<N>(freqThreshold: int, p: seq<N>): nat {
    if |p| < freqThreshold then freqThreshold - |p| else 0
  }

  /** The number of stack entries the search from `p` pops, `p` included. */
  ghost function TreeSize<N>(g: Graph<N>, freqThreshold: int, p: seq<N>): nat
    requires |p| >= 1
    decreases Budget(freqThreshold, p), 1
  {
    1 + Forest(g, freqThreshold, Expansions(p, Nbrs(g, Last(p)), freqThreshold), Budget(freqThreshold, p))
  }

  /** The entries the searches from each of `es` pop. */
  ghost function Forest<N>(g: Graph<N>, freqThreshold: int, es: seq<seq<N>>, bound: nat): nat
    requires forall e :: e in es ==> |e| >= 1 && Budget(freqThreshold, e) < bound
    decreases bound, 0, |es|
  {
    if es == [] then 0
    else TreeSize(g, freqThreshold, es[0]) + Forest(g, freqThreshold, es[1..], bound)
  }

  /** The entries the whole stack will still pop. */
  ghost function Work<N>(g: Graph<N>, freqThreshold: int, stack: seq<Entry<N>>): nat
    requires forall k :: 0 <= k < |stack| ==> |stack[k].path| >= 1
  {
    if stack == [] then 0
    else Work(g, freqThreshold, stack[..|stack| - 1]) + TreeSize(g, freqThreshold, stack[|stack| - 1].path)
  }

  /** Every stack entry is a non-empty path ending at its node. */
  ghost predicate WellFormed<N>(stack: seq<Entry<N>>) {
    forall k :: 0 <= k < |stack| ==> |stack[k].path| >= 1 && stack[k].node == Last(stack[k].path)
  }

  /** Consecutive nodes of `q` are edges of the graph. */
  ghost predicate IsWalk<N>(g: Graph<N>, q: seq<N>) {
    forall i :: 0 <= i < |q| - 1 ==> q[i + 1] in Nbrs(g, q[i])
  }

  /** Lines 8-36, `tspmg_b_algorithm`. Each pop is expanded and its results
      are reported (when long enough) and pushed; a failed expansion only
      drops that entry. `r.value` holds every walk from `start` of at least
      two and `kmin` nodes and fewer than `freqThreshold`, once per sequence
      of neighbour-list choices that reaches it. */
  method TspmgB<N(==,!new)>(g: Graph<N>, start: N, freqThreshold: int, kmin: int) returns (r: Result<seq<seq<N>>>)
    ensures g == map[] <==> r.Err?
    ensures r.Err? ==> r.error == ValueError
    ensures r.Ok? ==> forall q ::
      multiset(r.value)[q] == if 2 <= |q| && kmin <= |q| < freqThreshold then Ways(g, [start], q) else 0
    ensures r.Ok? ==> forall q :: q in r.value <==>
      2 <= |q| && kmin <= |q| < freqThreshold && q[0] == start && IsWalk(g, q)
  {
    if g == map[] {
      return Err(ValueError);
    }
    var hotspotsList := Search(g, start, freqThreshold, kmin);
    SearchDone(g, freqThreshold, kmin, start, hotspotsList);
    r := Ok(hotspotsList);
  }

  /** The loop of lines 20-31, run to an empty stack: every report the
      search owes has been made. */
  method Search<N(==,!new)>(g: Graph<N>, start: N, freqThreshold: int, kmin: int) returns (hotspotsList: seq<seq<N>>)
    ensures Accounts(g, freqThreshold, kmin, start, hotspotsList, [], [])
  {
    var stack := [Entry(start, [start])];
    hotspotsList := [];
    assert Accounts(g, freqThreshold, kmin, start, hotspotsList, stack, []);
    while stack != []
      invariant WellFormed(stack)
      invariant Accounts(g, freqThreshold, kmin, start, hotspotsList, stack, [])
      decreases Work(g, freqThreshold, stack)
    {
      ghost var work0 := Work(g, freqThreshold, stack);
      PopExpand(g, freqThreshold, kmin, start, hotspotsList, stack);
      var top := stack[|stack| - 1];
      stack := stack[..|stack| - 1];
      var newPaths: seq<seq<N>> := [];
      var expanded := DfsExpandPath(g, top.node, top.path, freqThreshold, kmin);
      if expanded.Ok? {
        newPaths := expanded.value;
      }
      ghost var bound := Budget(freqThreshold, top.path);
      hotspotsList, stack := HandleAll(g, freqThreshold, kmin, start, hotspotsList, stack, newPaths, bound);
    }
  }

  /** `HandleNext` for the `i`-th expanded path, in the terms of the loop
      of `HandleAll`. */
  lemma HandleStep<N(!new)>(g: Graph<N>, freqThreshold: int, kmin: int, start: N,
                            hotspots: seq<seq<N>>, stack: seq<Entry<N>>, newPaths: seq<seq<N>>, i: nat, bound: nat)
    requires WellFormed(stack) && i < |newPaths|
    requires forall e :: e in newPaths ==> |e| >= 1 && |e| < freqThreshold && Budget(freqThreshold, e) < bound
    requires Accounts(g, freqThreshold, kmin, start, hotspots, stack, newPaths[i..])
    ensures var p := newPaths[i];
      var stack' := stack + [Entry(Last(p), p)];
      && WellFormed(stack')
      && Accounts(g, freqThreshold, kmin, start, hotspots + (if |p| >= kmin then [p] else []), stack', newPaths[i + 1..])
      && Work(g, freqThreshold, stack') + Forest(g, freqThreshold, newPaths[i + 1..], bound)
         == Work(g, freqThreshold, stack) + Forest(g, freqThreshold, newPaths[i..], bound)
  {
    var es := newPaths[i..];
    assert es[0] == newPaths[i] && es[1..] == newPaths[i + 1..];
    forall e | e in es
      ensures |e| >= 1 && |e| < freqThreshold && Budget(freqThreshold, e) < bound
    {
      assert e in newPaths;
    }
    HandleNext(g, freqThreshold, kmin, start, hotspots, stack, es, bound);
  }

  /** Lines 28-31 for the `i`-th expanded path: report it when long enough
      and frequent, and push it when it may still grow. */
  method HandleOne<N(==,!new)>(g: Graph<N>, freqThreshold: int, kmin: int, start: N,
                               hotspots0: seq<seq<N>>, stack0: seq<Entry<N>>, newPaths: seq<seq<N>>, i: nat, ghost bound: nat)
    returns (hotspotsList: seq<seq<N>>, stack: seq<Entry<N>>)
    requires WellFormed(stack0) && i < |newPaths|
    requires forall e :: e in newPaths ==> |e| >= 1 && |e| < freqThreshold && Budget(freqThreshold, e) < bound
    requires Accounts(g, freqThreshold, kmin, start, hotspots0, stack0, newPaths[i..])
    ensures WellFormed(stack)
    ensures Accounts(g, freqThreshold, kmin, start, hotspotsList, stack, newPaths[i + 1..])
    ensures Work(g, freqThreshold, stack) + Forest(g, freqThreshold, newPaths[i + 1..], bound)
      == Work(g, freqThreshold, stack0) + Forest(g, freqThreshold, newPaths[i..], bound)
  {
    var newPath := newPaths[i];
    HandleStep(g, freqThreshold, kmin, start, hotspots0, stack0, newPaths, i, bound);
    hotspotsList, stack := hotspots0, stack0;
    if |newPath| >= kmin && IsFrequent(newPath, g) {
      hotspotsList := hotspotsList + [newPath];
    }
    if ShouldContinue(newPath, freqThreshold) {
      stack := stack + [Entry(newPath[|newPath| - 1], newPath)];
    }
    assert hotspotsList == hotspots0 + (if |newPath| >= kmin then [newPath] else []);
    assert stack == stack0 + [Entry(Last(newPath), newPath)];
  }

  /** Lines 26-31 for one popped entry: report (when long enough) and push
      each expanded path in turn. */
  method HandleAll<N(==,!new)>(g: Graph<N>, freqThreshold: int, kmin: int, start: N,
                               hotspots0: seq<seq<N>>, stack0: seq<Entry<N>>, newPaths: seq<seq<N>>, ghost bound: nat)
    returns (hotspotsList: seq<seq<N>>, stack: seq<Entry<N>>)
    requires WellFormed(stack0)
    requires forall e :: e in newPaths ==> |e| >= 1 && |e| < freqThreshold && Budget(freqThreshold, e) < bound
    requires Accounts(g, freqThreshold, kmin, start, hotspots0, stack0, newPaths)
    ensures WellFormed(stack)
    ensures Accounts(g, freqThreshold, kmin, start, hotspotsList, stack, [])
    ensures Work(g, freqThreshold, stack) == Work(g, freqThreshold, stack0) + Forest(g, freqThreshold, newPaths, bound)
  {
    hotspotsList, stack := hotspots0, stack0;
    var i := 0;
    while i < |newPaths|
      invariant 0 <= i <= |newPaths|
      invariant WellFormed(stack)
      invariant Accounts(g, freqThreshold, kmin, start, hotspotsList, stack, newPaths[i..])
      invariant Work(g, freqThreshold, stack) + Forest(g, freqThreshold, newPaths[i..], bound)
        == Work(g, freqThreshold, stack0) + Forest(g, freqThreshold, newPaths, bound)
    {
      hotspotsList, stack := HandleOne(g, freqThreshold, kmin, start, hotspotsList, stack, newPaths, i, bound);
      i := i + 1;
    }
    assert newPaths[i..] == [];
  }

  // ---------------------------------------------------------------------
  // Properties.

  /** Each expansion is the popped path plus one neighbour: one node longer,
      still below the threshold, and in neighbour-list order. */
  lemma ExpansionsShape<N>(path: seq<N>, nbrs: seq<N>, freqThreshold: int)
    ensures forall e :: e in Expansions(path, nbrs, freqThreshold) ==>
      |e| == |path| + 1 && |e| < freqThreshold && e[..|path|] == path && e[|path|] in nbrs
    ensures |path| + 1 < freqThreshold ==>
      |Expansions(path, nbrs, freqThreshold)| == |nbrs| &&
      forall i :: 0 <= i < |nbrs| ==> Expansions(path, nbrs, freqThreshold)[i] == path + [nbrs[i]]
    ensures |path| + 1 >= freqThreshold ==> Expansions(path, nbrs, freqThreshold) == []
  {
    var r := Expansions(path, nbrs, freqThreshold);
    forall e | e in r
      ensures |e| == |path| + 1 && |e| < freqThreshold && e[..|path|] == path && e[|path|] in nbrs
    {
      var i :| 0 <= i < |r| && r[i] == e;
      assert e == path + [nbrs[i]];
    }
  }

  /** One more neighbour visited by the loop of `dfs_expand_path`. */
  lemma ExpansionsSnoc<N>(path: seq<N>, nbrs: seq<N>, i: nat, freqThreshold: int)
    requires i < |nbrs|
    ensures Expansions(path, nbrs[..i + 1], freqThreshold) ==
      Expansions(path, nbrs[..i], freqThreshold) + (if |path| + 1 < freqThreshold then [path + [nbrs[i]]] else [])
  {
  }

  /** The search so far accounts for every report of every path: what has
      been reported, what the stack and the paths `es` still being handled
      will report, add up to what the search from `start` reports. */
  ghost predicate Accounts<N(!new)>(g: Graph<N>, freqThreshold: int, kmin: int, start: N,
                              hotspots: seq<seq<N>>, stack: seq<Entry<N>>, es: seq<seq<N>>)
    requires WellFormed(stack) && forall e :: e in es ==> |e| >= 1
  {
    forall q ::
      (multiset(hotspots)[q] + Pending(g, freqThreshold, kmin, stack, q) + Rest(g, freqThreshold, kmin, es, q))
      == Below(g, freqThreshold, kmin, [start], q)
  }

  /** Once the stack is empty, the reports are exactly the walks from
      `start` within the length bounds, each once per way of reaching it. */
  lemma SearchDone<N(!new)>(g: Graph<N>, freqThreshold: int, kmin: int, start: N, hotspots: seq<seq<N>>)
    requires Accounts(g, freqThreshold, kmin, start, hotspots, [], [])
    ensures forall q ::
      multiset(hotspots)[q] == if 2 <= |q| && kmin <= |q| < freqThreshold then Ways(g, [start], q) else 0
    ensures forall q :: q in hotspots <==>
      2 <= |q| && kmin <= |q| < freqThreshold && q[0] == start && IsWalk(g, q)
  {
    forall q
      ensures q in hotspots <==> 2 <= |q| && kmin <= |q| < freqThreshold && q[0] == start && IsWalk(g, q)
    {
      assert q in hotspots <==> multiset(hotspots)[q] > 0;
      if 2 <= |q| {
        WaysIff(g, [start], q);
        assert q[..1] == [start] <==> q[0] == start;
      }
    }
  }

  /** Popping the top entry and expanding it: its share of the reports is
      what its expanded paths account for, and it leaves one entry less. */
  lemma PopExpand<N(!new)>(g: Graph<N>, freqThreshold: int, kmin: int, start: N, hotspots: seq<seq<N>>, stack: seq<Entry<N>>)
    requires WellFormed(stack) && stack != []
    requires Accounts(g, freqThreshold, kmin, start, hotspots, stack, [])
    ensures var top := stack[|stack| - 1];
      var es := Expansions(top.path, Nbrs(g, top.node), freqThreshold);
      && WellFormed(stack[..|stack| - 1])
      && (forall e :: e in es ==> |e| >= 1 && |e| < freqThreshold && Budget(freqThreshold, e) < Budget(freqThreshold, top.path))
      && Accounts(g, freqThreshold, kmin, start, hotspots, stack[..|stack| - 1], es)
      && Work(g, freqThreshold, stack[..|stack| - 1]) + Forest(g, freqThreshold, es, Budget(freqThreshold, top.path)) + 1
         == Work(g, freqThreshold, stack)
  {
    var top := stack[|stack| - 1];
    var es := Expansions(top.path, Nbrs(g, top.node), freqThreshold);
    ExpansionsShape(top.path, Nbrs(g, top.node), freqThreshold);
    ExpandStep(g, freqThreshold, kmin, top.path);
  }

  /** Handling the next expanded path: report it when long enough, push it. */
  lemma HandleNext<N(!new)>(g: Graph<N>, freqThreshold: int, kmin: int, start: N,
                      hotspots: seq<seq<N>>, stack: seq<Entry<N>>, es: seq<seq<N>>, bound: nat)
    requires WellFormed(stack) && es != []
    requires forall e :: e in es ==> |e| >= 1 && |e| < freqThreshold && Budget(freqThreshold, e) < bound
    requires Accounts(g, freqThreshold, kmin, start, hotspots, stack, es)
    ensures var stack' := stack + [Entry(Last(es[0]), es[0])];
      && WellFormed(stack')
      && Accounts(g, freqThreshold, kmin, start, hotspots + (if |es[0]| >= kmin then [es[0]] else []), stack', es[1..])
      && Work(g, freqThreshold, stack') + Forest(g, freqThreshold, es[1..], bound)
         == Work(g, freqThreshold, stack) + Forest(g, freqThreshold, es, bound)
  {
    var stack' := stack + [Entry(Last(es[0]), es[0])];
    assert stack'[..|stack|] == stack;
  }

  /** A path is reached from `p` only if it extends `p`. */
  lemma {:induction false} WaysPrefix<N>(g: Graph<N>, p: seq<N>, q: seq<N>)
    requires 1 <= |p| <= |q| && Ways(g, p, q) > 0
    ensures q[..|p|] == p
    decreases |q| - |p|
  {
    if |p| < |q| {
      WaysPrefix(g, p + [q[|p|]], q);
      assert q[..|p|] == q[..|p| + 1][..|p|];
    }
  }

  /** `Ways` counts exactly the walks: it is positive if and only if `q`
      extends `p` and every step after `p` follows an edge. */
  lemma {:induction false} WaysIff<N>(g: Graph<N>, p: seq<N>, q: seq<N>)
    requires 1 <= |p| <= |q|
    ensures Ways(g, p, q) > 0 <==>
      q[..|p|] == p && forall i :: |p| - 1 <= i < |q| - 1 ==> q[i + 1] in Nbrs(g, q[i])
    decreases |q| - |p|
  {
    if |p| == |q| {
      assert q[..|p|] == q;
    } else {
      var p' := p + [q[|p|]];
      WaysIff(g, p', q);
      var c := multiset(Nbrs(g, Last(p)))[q[|p|]];
      MulPos(c, Ways(g, p', q));
      assert c > 0 <==> q[|p|] in Nbrs(g, Last(p));
      if q[..|p|] == p {
        assert q[..|p'|] == p';
        assert Last(p) == q[|p| - 1];
      } else {
        assert q[..|p'|][..|p|] == q[..|p|];
      }
    }
  }

  lemma MulPos(a: nat, b: nat)
    ensures a * b > 0 <==> a > 0 && b > 0
  {
    if a > 0 && b > 0 {
      assert a * b >= b;
    }
  }

  /** What expanding `path` reports, before and after: the entry's share
      equals what its expanded paths report, and its size is one more than
      theirs. */
  lemma ExpandStep<N>(g: Graph<N>, freqThreshold: int, kmin: int, path: seq<N>)
    requires |path| >= 1
    ensures forall q ::
      Below(g, freqThreshold, kmin, path, q) == Rest(g, freqThreshold, kmin, Expansions(path, Nbrs(g, Last(path)), freqThreshold), q)
  {
    var nbrs := Nbrs(g, Last(path));
    forall q
      ensures Below(g, freqThreshold, kmin, path, q) == Rest(g, freqThreshold, kmin, Expansions(path, nbrs, freqThreshold), q)
    {
      if |path| + 1 < freqThreshold {
        RestCount(g, freqThreshold, kmin, path, nbrs, q);
      }
    }
  }

  /** Summing over a neighbour list: only the neighbour equal to `q`'s next
      node contributes, once per occurrence. */
  lemma {:induction false} RestCount<N>(g: Graph<N>, freqThreshold: int, kmin: int, path: seq<N>, nbrs: seq<N>, q: seq<N>)
    requires |path| >= 1 && |path| + 1 < freqThreshold
    ensures Rest(g, freqThreshold, kmin, Expansions(path, nbrs, freqThreshold), q) ==
      if |path| < |q| && kmin <= |q| < freqThreshold
      then multiset(nbrs)[q[|path|]] * Ways(g, path + [q[|path|]], q)
      else 0
    decreases |nbrs|
  {
    if nbrs == [] {
      assert Expansions(path, nbrs, freqThreshold) == [];
    } else {
      RestCount(g, freqThreshold, kmin, path, nbrs[1..], q);
      RestCountCons(g, freqThreshold, kmin, path, nbrs, q);
    }
  }

  /** The inductive step of `RestCount`: the first neighbour's share plus the
      others'. */
  lemma RestCountCons<N>(g: Graph<N>, freqThreshold: int, kmin: int, path: seq<N>, nbrs: seq<N>, q: seq<N>)
    requires |path| >= 1 && |path| + 1 < freqThreshold && nbrs != []
    requires Rest(g, freqThreshold, kmin, Expansions(path, nbrs[1..], freqThreshold), q) ==
      if |path| < |q| && kmin <= |q| < freqThreshold
      then multiset(nbrs[1..])[q[|path|]] * Ways(g, path + [q[|path|]], q)
      else 0
    ensures Rest(g, freqThreshold, kmin, Expansions(path, nbrs, freqThreshold), q) ==
      if |path| < |q| && kmin <= |q| < freqThreshold
      then multiset(nbrs)[q[|path|]] * Ways(g, path + [q[|path|]], q)
      else 0
  {
    var e := path + [nbrs[0]];
    var first := (if e == q && |q| >= kmin then 1 else 0) + Below(g, freqThreshold, kmin, e, q);
    RestFirst(g, freqThreshold, kmin, path, nbrs, q);
    ChildShare(g, freqThreshold, kmin, path, nbrs[0], q);
    if |path| < |q| && kmin <= |q| < freqThreshold {
      var x := q[|path|];
      var w := Ways(g, path + [x], q);
      var a := if nbrs[0] == x then 1 else 0;
      var c := multiset(nbrs[1..])[x];
      assert multiset(nbrs)[x] == a + c by {
        assert nbrs == [nbrs[0]] + nbrs[1..];
      }
      assert first == a * w;
      MulAdd(a, c, w);
    }
  }

  /** The expansions of `path` along `nbrs` start with the first
      neighbour's. */
  lemma RestFirst<N>(g: Graph<N>, freqThreshold: int, kmin: int, path: seq<N>, nbrs: seq<N>, q: seq<N>)
    requires |path| >= 1 && |path| + 1 < freqThreshold && nbrs != []
    ensures var e := path + [nbrs[0]];
      Rest(g, freqThreshold, kmin, Expansions(path, nbrs, freqThreshold), q)
      == (if e == q && |q| >= kmin then 1 else 0) + Below(g, freqThreshold, kmin, e, q)
         + Rest(g, freqThreshold, kmin, Expansions(path, nbrs[1..], freqThreshold), q)
  {
    var es := Expansions(path, nbrs, freqThreshold);
    ExpansionsShape(path, nbrs, freqThreshold);
    ExpansionsShape(path, nbrs[1..], freqThreshold);
    assert es[0] == path + [nbrs[0]];
    assert es[1..] == Expansions(path, nbrs[1..], freqThreshold);
  }

  lemma MulAdd(a: nat, c: nat, w: nat)
    ensures a * w + c * w == (a + c) * w
  {
  }

  /** What the expanded path `path + [n]` contributes for `q`. */
  lemma ChildShare<N>(g: Graph<N>, freqThreshold: int, kmin: int, path: seq<N>, n: N, q: seq<N>)
    requires |path| >= 1 && |path| + 1 < freqThreshold
    ensures (if path + [n] == q && |q| >= kmin then 1 else 0) + Below(g, freqThreshold, kmin, path + [n], q) ==
      if |path| < |q| && kmin <= |q| < freqThreshold && n == q[|path|] then Ways(g, path + [n], q) else 0
  {
    var e := path + [n];
    if |path| < |q| && kmin <= |q| < freqThreshold && n != q[|path|] && |e| < |q| && Ways(g, e, q) > 0 {
      WaysPrefix(g, e, q);
    }
  }
}
