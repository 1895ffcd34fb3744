/**
 * tsp.h, `TSP::euler`: the stack-based walk over the multigraph that `mst`
 * and `match` built.  Records are consumed by setting their `removed` flag,
 * never by erasing them.
 *
 * The `available` stack is never cleared, only popped once per step, and the
 * outer loop stops as soon as it is empty.  So the walk depends on c0, the
 * number of live records of the start vertex: with c0 = 0 it yields just the
 * start vertex, with c0 = 1 it stops after the first step with an empty path,
 * and with c0 >= 2 it runs until every vertex on the current-path stack is
 * exhausted, ending with the start vertex first and every neighbour of the
 * start vertex on the path.
 */
module TspEuler {
  import opened CppInt
  import opened TspTypes

  /** The records of l whose `removed` flag is clear, in list order. */
  function Live(l: seq<Edge>): seq<Edge> {
    if l == [] then []
    else Live(l[..|l| - 1]) + (if l[|l| - 1].removed then [] else [l[|l| - 1]])
  }

  lemma {:induction false} LiveMembers(l: seq<Edge>)
    ensures forall e :: e in Live(l) <==> e in l && !e.removed
  {
    if l != [] {
      LiveMembers(l[..|l| - 1]);
      assert l == l[..|l| - 1] + [l[|l| - 1]];
    }
  }

  /** Before any record is consumed, every record is live. */
  lemma {:induction false} LiveOfFresh(l: seq<Edge>)
    requires forall k :: 0 <= k < |l| ==> !l[k].removed
    ensures Live(l) == l
  {
    if l != [] {
      LiveOfFresh(l[..|l| - 1]);
      assert l == l[..|l| - 1] + [l[|l| - 1]];
    }
  }

  /** Number of live records in the whole graph. */
  function LiveTotal(g: AdjList): nat {
    if g == [] then 0 else LiveTotal(g[..|g| - 1]) + |Live(g[|g| - 1])|
  }

  /** l2 is l with some more records flagged removed, and nothing else changed. */
  predicate FlagsGrow(l: seq<Edge>, l2: seq<Edge>) {
    |l2| == |l| &&
    forall k :: 0 <= k < |l| ==> l2[k] == l[k].(removed := l2[k].removed) && (l[k].removed ==> l2[k].removed)
  }

  predicate GraphFlagsGrow(g: AdjList, g2: AdjList) {
    |g2| == |g| && forall u :: 0 <= u < |g| ==> FlagsGrow(g[u], g2[u])
  }

  lemma {:induction false} LiveCountMono(l: seq<Edge>, l2: seq<Edge>)
    requires FlagsGrow(l, l2)
    ensures |Live(l2)| <= |Live(l)|
  {
    if l != [] {
      LiveCountMono(l[..|l| - 1], l2[..|l2| - 1]);
    }
  }

  /** Flagging a live record removed lowers the live count. */
  lemma {:induction false} LiveCountDrop(l: seq<Edge>, l2: seq<Edge>, k: nat)
    requires FlagsGrow(l, l2) && k < |l| && !l[k].removed && l2[k].removed
    ensures |Live(l2)| < |Live(l)|
  {
    var n := |l| - 1;
    if k == n {
      LiveCountMono(l[..n], l2[..n]);
    } else {
      LiveCountDrop(l[..n], l2[..n], k);
    }
  }

  lemma {:induction false} LiveTotalUpdate(g: AdjList, u: nat, l: seq<Edge>)
    requires u < |g|
    ensures LiveTotal(g[u := l]) == LiveTotal(g) - |Live(g[u])| + |Live(l)|
  {
    var h := g[u := l];
    if u == |g| - 1 {
      assert h[..|h| - 1] == g[..|g| - 1];
    } else {
      LiveTotalUpdate(g[..|g| - 1], u, l);
      assert h[..|h| - 1] == g[..|g| - 1][u := l];
    }
  }

  /** l with every record that points at `target` flagged removed. */
  function MarkTarget(l: seq<Edge>, target: int): (r: seq<Edge>)
    ensures FlagsGrow(l, r)
    ensures forall k :: 0 <= k < |l| && !l[k].removed && r[k].removed ==> l[k].v2 == target
    ensures forall k :: 0 <= k < |l| && l[k].v2 == target ==> r[k].removed
  {
    seq(|l|, k requires 0 <= k < |l| => if l[k].v2 == target then l[k].(removed := true) else l[k])
  }

  /** Replacing one list by a re-flagged copy keeps the graph a re-flagging of the original. */
  lemma GraphFlagsStep(graph: AdjList, g: AdjList, u: nat, l: seq<Edge>)
    requires GraphFlagsGrow(graph, g) && TargetsInRange(g) && u < |g| && FlagsGrow(g[u], l)
    ensures GraphFlagsGrow(graph, g[u := l]) && TargetsInRange(g[u := l])
  {
    var h := g[u := l];
    forall w | 0 <= w < |graph|
      ensures FlagsGrow(graph[w], h[w])
    {
      if w == u {
        assert forall k :: 0 <= k < |l| ==> l[k] == g[u][k].(removed := l[k].removed);
      }
    }
  }

  /**
   * One of the two marking loops of `euler`: every record of l that points at
   * `target` is flagged removed.
   */
  method RemoveTargets(l: seq<Edge>, target: int) returns (r: seq<Edge>)
    ensures r == MarkTarget(l, target)
  {
    r := l;
    for i := 0 to |l|
      invariant |r| == |l|
      invariant forall k :: 0 <= k < i ==> r[k] == if l[k].v2 == target then l[k].(removed := true) else l[k]
      invariant forall k :: i <= k < |l| ==> r[k] == l[k]
    {
      if r[i].v2 == target {
        r := r[i := r[i].(removed := true)];
      }
    }
    assert forall k :: 0 <= k < |l| ==> r[k] == MarkTarget(l, target)[k];
  }

  /** The scan of `euler` that pushes every live record of l onto `available`. */
  method PushAvailable(l: seq<Edge>, available: seq<Edge>) returns (available': seq<Edge>, numAvailable: nat)
    ensures available' == available + Live(l)
    ensures numAvailable == |Live(l)|
  {
    available' := available;
    numAvailable := 0;
    for i := 0 to |l|
      invariant available' == available + Live(l[..i])
      invariant numAvailable == |Live(l[..i])|
    {
      assert l[..i + 1][..i] == l[..i];
      if !l[i].removed {
        available' := available' + [l[i]];
        numAvailable := numAvailable + 1;
      }
    }
    assert l[..|l|] == l;
  }

  /** What `euler` returns, before the final reversal, by the start vertex's live degree. */
  predicate WalkOutcome(graph: AdjList, start: nat, path: seq<int>)
    requires start < |graph|
  {
    var c0 := |Live(graph[start])|;
    (c0 == 0 ==> path == [start]) &&
    (c0 == 1 ==> path == []) &&
    (c0 >= 2 ==> path != [] && path[|path| - 1] == start && forall e :: e in Live(graph[start]) ==> e.v2 in path)
  }

  /** Every record of the start vertex consumed so far points at a vertex already walked. */
  predicate StartCovered(graph: AdjList, g: AdjList, start: nat, currPath: seq<int>, path: seq<int>)
    requires start < |graph| && GraphFlagsGrow(graph, g)
  {
    forall k :: 0 <= k < |graph[start]| && !graph[start][k].removed && g[start][k].removed ==>
      graph[start][k].v2 in currPath || graph[start][k].v2 in path
  }

  predicate VerticesIn(s: seq<int>, n: nat) {
    forall k :: 0 <= k < |s| ==> 0 <= s[k] < n
  }

  /** Flagging records that point at v1 or v2 keeps the start vertex covered once both are on the stack. */
  lemma CoverAfterStep(graph: AdjList, g: AdjList, g2: AdjList, start: nat, currPath: seq<int>, path: seq<int>, v1: int, v2: int)
    requires start < |graph| && GraphFlagsGrow(graph, g) && GraphFlagsGrow(graph, g2)
    requires |currPath| >= 2 && currPath[|currPath| - 2] == v1 && currPath[|currPath| - 1] == v2
    requires StartCovered(graph, g, start, currPath[..|currPath| - 1], path)
    requires forall k :: 0 <= k < |g[start]| && !g[start][k].removed && g2[start][k].removed ==>
      g[start][k].v2 == v1 || g[start][k].v2 == v2
    ensures StartCovered(graph, g2, start, currPath, path)
  {
    var cp := currPath[..|currPath| - 1];
    assert forall x :: x in cp ==> x in currPath;
    assert v1 in currPath && v2 in currPath;
  }

  /** Moving the top of `currPath` onto `path` keeps the start vertex covered. */
  lemma PopKeepsCover(graph: AdjList, g: AdjList, start: nat, currPath: seq<int>, path: seq<int>)
    requires start < |graph| && GraphFlagsGrow(graph, g) && |currPath| > 0
    requires StartCovered(graph, g, start, currPath, path)
    ensures StartCovered(graph, g, start, currPath[..|currPath| - 1], path + [currPath[|currPath| - 1]])
  {
    assert currPath == currPath[..|currPath| - 1] + [currPath[|currPath| - 1]];
  }

  /** Moving the top of `currPath` onto `path` keeps the walked vertices. */
  lemma PopKeepsWalked(currPath: seq<int>, path: seq<int>)
    requires |currPath| > 0
    ensures multiset(currPath[..|currPath| - 1]) + multiset(path + [currPath[|currPath| - 1]]) ==
      multiset(currPath) + multiset(path)
  {
    assert currPath == currPath[..|currPath| - 1] + [currPath[|currPath| - 1]];
  }

  /** Once the start vertex has no live record left, every neighbour it had is on the path. */
  lemma ExhaustedStartCovered(graph: AdjList, g: AdjList, start: nat, path: seq<int>)
    requires start < |graph| && GraphFlagsGrow(graph, g)
    requires StartCovered(graph, g, start, [], path) && |Live(g[start])| == 0
    ensures forall e :: e in Live(graph[start]) ==> e.v2 in path
  {
    LiveMembers(g[start]);
    LiveMembers(graph[start]);
    forall e | e in Live(graph[start])
      ensures e.v2 in path
    {
      var k :| 0 <= k < |graph[start]| && graph[start][k] == e;
      assert g[start][k] !in Live(g[start]);
    }
  }

  /**
   * An exhausted top vertex: move it from `currPath` to `path` and return the
   * new top, or the `INT_MIN` sentinel once `currPath` is empty.
   */
  method PopTop(ghost graph: AdjList, g: AdjList, ghost start: nat, currPath: seq<int>, path: seq<int>)
    returns (currPath': seq<int>, path': seq<int>, v1': int)
    requires start < |graph| && GraphFlagsGrow(graph, g)
    requires VerticesIn(currPath, |graph|) && VerticesIn(path, |graph|)
    requires StartCovered(graph, g, start, currPath, path)
    requires |currPath| > 0 && currPath[0] == start
    ensures currPath' == currPath[..|currPath| - 1] && path' == path + [currPath[|currPath| - 1]]
    ensures VerticesIn(currPath', |graph|) && VerticesIn(path', |graph|)
    ensures StartCovered(graph, g, start, currPath', path')
    ensures multiset(currPath') + multiset(path') == multiset(currPath) + multiset(path)
    ensures |currPath'| > 0 ==> currPath'[0] == start && v1' == currPath'[|currPath'| - 1]
    ensures |currPath'| == 0 ==> v1' == IntMin && path'[|path'| - 1] == start
  {
    PopKeepsCover(graph, g, start, currPath, path);
    PopKeepsWalked(currPath, path);
    path' := path + [currPath[|currPath| - 1]];
    currPath' := currPath[..|currPath| - 1];
    if |currPath'| > 0 {
      v1' := currPath'[|currPath'| - 1];
    } else {
      v1' := IntMin;
    }
  }

  /**
   * The state of the inner do-while of `euler` once it has stopped: the
   * walked vertices are still `walked`; either a live record of the top
   * vertex sits on top of `available` above the `base` records that were
   * there before, or `currPath` ran empty with the start vertex exhausted.
   */
  ghost predicate Unwound(graph: AdjList, g: AdjList, start: nat, base: nat, walked: multiset<int>,
                          available: seq<Edge>, currPath: seq<int>, path: seq<int>, v1: int, numAvailable: nat)
  {
    start < |graph| && GraphFlagsGrow(graph, g) &&
    VerticesIn(currPath, |graph|) && VerticesIn(path, |graph|) &&
    StartCovered(graph, g, start, currPath, path) &&
    multiset(currPath) + multiset(path) == walked &&
    (|currPath| > 0 ==>
      currPath[0] == start && v1 == currPath[|currPath| - 1] && numAvailable > 0 &&
      |available| >= base + 1 && available[|available| - 1] in Live(g[v1])) &&
    (|currPath| == 0 ==>
      v1 == IntMin && path != [] && path[|path| - 1] == start && |Live(g[start])| == 0)
  }

  /** The state of the inner do-while of `euler` between two scans. */
  ghost predicate Draining(graph: AdjList, g: AdjList, start: nat, base: nat, walked: multiset<int>,
                           available: seq<Edge>, currPath: seq<int>, path: seq<int>, v1: int, numAvailable: nat)
  {
    start < |graph| && GraphFlagsGrow(graph, g) && TargetsInRange(g) &&
    VerticesIn(currPath, |graph|) && VerticesIn(path, |graph|) &&
    StartCovered(graph, g, start, currPath, path) &&
    multiset(currPath) + multiset(path) == walked &&
    (|currPath| > 0 ==> currPath[0] == start && v1 == currPath[|currPath| - 1]) &&
    (|currPath| == 0 ==>
      v1 == IntMin && path != [] && path[|path| - 1] == start && |Live(g[start])| == 0) &&
    (numAvailable == 0 ==> |available| == base) &&
    (numAvailable > 0 ==>
      |currPath| > 0 && |available| >= base + 1 && available[|available| - 1] in Live(g[v1]))
  }

  /** One more scan of the inner do-while: push the live records of the top, or pop it. */
  method DrainStep(ghost graph: AdjList, g: AdjList, ghost start: nat, ghost base: nat, ghost walked: multiset<int>,
                   available: seq<Edge>, currPath: seq<int>, path: seq<int>, v1: int)
    returns (available': seq<Edge>, currPath': seq<int>, path': seq<int>, v1': int, numAvailable: nat)
    requires Draining(graph, g, start, base, walked, available, currPath, path, v1, 0) && |currPath| > 0
    ensures Draining(graph, g, start, base, walked, available', currPath', path', v1', numAvailable)
    ensures numAvailable > 0 ==> |currPath'| == |currPath|
    ensures numAvailable == 0 ==> |currPath'| < |currPath|
  {
    currPath', path', v1' := currPath, path, v1;
    available', numAvailable := PushAvailable(g[v1], available);
    if numAvailable == 0 {
      currPath', path', v1' := PopTop(graph, g, start, currPath, path);
    } else {
      LiveMembers(g[v1]);
    }
  }

  /**
   * The rest of the inner do-while of `euler` once the first scanned vertex
   * was popped: keep scanning the top of `currPath`, popping it while it has
   * no live record, until a scan finds one or `currPath` runs empty.
   */
  method DrainExhausted(ghost graph: AdjList, g: AdjList, ghost start: nat,
                        available: seq<Edge>, currPath: seq<int>, path: seq<int>, v1: int)
    returns (available': seq<Edge>, currPath': seq<int>, path': seq<int>, v1': int, numAvailable: nat)
    requires Draining(graph, g, start, |available|, multiset(currPath) + multiset(path), available, currPath, path, v1, 0)
    ensures Unwound(graph, g, start, |available|, multiset(currPath) + multiset(path),
                    available', currPath', path', v1', numAvailable)
    ensures |currPath| == 0 ==> currPath' == [] && path' == path
  {
    ghost var walked := multiset(currPath) + multiset(path);
    available', currPath', path', v1' := available, currPath, path, v1;
    numAvailable := 0;
    while numAvailable == 0 && |currPath'| > 0
      invariant Draining(graph, g, start, |available|, walked, available', currPath', path', v1', numAvailable)
      invariant |currPath| == 0 ==> currPath' == [] && path' == path
      decreases |currPath'| + (if numAvailable == 0 then 1 else 0)
    {
      available', currPath', path', v1', numAvailable :=
        DrainStep(graph, g, start, |available|, walked, available', currPath', path', v1');
    }
  }

  /**
   * The inner do-while of `euler`: scan the top vertex; while it has no live
   * record, move it from `currPath` to `path` and go on with the new top (or
   * the `INT_MIN` sentinel once `currPath` is empty).
   */
  method Unwind(ghost graph: AdjList, g: AdjList, ghost start: nat,
                available: seq<Edge>, currPath: seq<int>, path: seq<int>, v1: int)
    returns (available': seq<Edge>, currPath': seq<int>, path': seq<int>, v1': int, numAvailable: nat)
    requires start < |graph| && GraphFlagsGrow(graph, g) && TargetsInRange(g)
    requires VerticesIn(currPath, |graph|) && VerticesIn(path, |graph|)
    requires StartCovered(graph, g, start, currPath, path)
    requires |currPath| > 0 && currPath[0] == start && v1 == currPath[|currPath| - 1]
    ensures Unwound(graph, g, start, |available|, multiset(currPath) + multiset(path),
                    available', currPath', path', v1', numAvailable)
    ensures |Live(g[v1])| > 0 ==>
      currPath' == currPath && path' == path && v1' == v1 && available' == available + Live(g[v1])
    ensures |Live(g[v1])| == 0 && |currPath| == 1 ==> currPath' == [] && path' == path + [v1]
  {
    available', numAvailable := PushAvailable(g[v1], available);
    currPath', path', v1' := currPath, path, v1;
    if numAvailable > 0 {
      LiveMembers(g[v1]);
      return;
    }
    var currPath1, path1, v1'' := PopTop(graph, g, start, currPath, path);
    available', currPath', path', v1', numAvailable :=
      DrainExhausted(graph, g, start, available', currPath1, path1, v1'');
  }

  /**
   * The two marking loops of a step from v1 to v2: every record v1 -> v2 and
   * every record v2 -> v1 is flagged removed, and nothing else is.
   */
  method MarkStep(ghost graph: AdjList, g: AdjList, ghost start: nat, v1: nat, v2: nat, ghost k: nat)
    returns (g': AdjList)
    requires start < |graph| && GraphFlagsGrow(graph, g) && TargetsInRange(g)
    requires v1 < |g| && k < |g[v1]| && !g[v1][k].removed && g[v1][k].v2 == v2
    ensures GraphFlagsGrow(graph, g') && TargetsInRange(g') && v2 < |g'|
    ensures LiveTotal(g') < LiveTotal(g)
    ensures forall i :: 0 <= i < |g'[v1]| && g'[v1][i].v2 == v2 ==> g'[v1][i].removed
    ensures forall i :: 0 <= i < |g'[v2]| && g'[v2][i].v2 == v1 ==> g'[v2][i].removed
    ensures forall i :: 0 <= i < |g[start]| && !g[start][i].removed && g'[start][i].removed ==>
      g[start][i].v2 == v1 || g[start][i].v2 == v2
    ensures GraphFlagsGrow(g, g')
    ensures forall u :: 0 <= u < |g| && u != v1 && u != v2 ==> g'[u] == g[u]
    ensures forall i :: 0 <= i < |g[v1]| && !g[v1][i].removed && g'[v1][i].removed ==>
      g[v1][i].v2 == v2
    ensures forall i :: 0 <= i < |g[v2]| && !g[v2][i].removed && g'[v2][i].removed ==>
      g[v2][i].v2 == v1
  {
    var l1 := RemoveTargets(g[v1], v2);
    var g1 := g[v1 := l1];
    GraphFlagsStep(graph, g, v1, l1);
    var l2 := RemoveTargets(g1[v2], v1);
    g' := g1[v2 := l2];
    GraphFlagsStep(graph, g1, v2, l2);
    LiveCountDrop(g[v1], l1, k);
    LiveTotalUpdate(g, v1, l1);
    LiveCountMono(g1[v2], l2);
    LiveTotalUpdate(g1, v2, l2);
    MarkStepFrame(g, v1, v2, l1, l2);
  }

  /** The two marking loops change only the lists of v1 and v2, and only records between them. */
  lemma MarkStepFrame(g: AdjList, v1: nat, v2: nat, l1: seq<Edge>, l2: seq<Edge>)
    requires v1 < |g| && v2 < |g|
    requires l1 == MarkTarget(g[v1], v2) && l2 == MarkTarget(g[v1 := l1][v2], v1)
    ensures GraphFlagsGrow(g, g[v1 := l1][v2 := l2])
    ensures forall u :: 0 <= u < |g| && u != v1 && u != v2 ==> g[v1 := l1][v2 := l2][u] == g[u]
    ensures forall i :: 0 <= i < |g[v1]| && !g[v1][i].removed && g[v1 := l1][v2 := l2][v1][i].removed ==>
      g[v1][i].v2 == v2
    ensures forall i :: 0 <= i < |g[v2]| && !g[v2][i].removed && g[v1 := l1][v2 := l2][v2][i].removed ==>
      g[v2][i].v2 == v1
  {
    if v1 == v2 {
      assert FlagsGrow(l1, l2);
    }
  }

  /**
   * The step of `euler` after a successful scan: take the target of the top
   * `available` record, push it on `currPath`, pop `available`, and flag the
   * records v1 -> v2 and v2 -> v1 removed.
   */
  method Advance(ghost graph: AdjList, g: AdjList, ghost start: nat,
                 available: seq<Edge>, currPath: seq<int>, ghost path: seq<int>, v1: nat)
    returns (g': AdjList, available': seq<Edge>, currPath': seq<int>, v2: nat)
    requires start < |graph| && GraphFlagsGrow(graph, g) && TargetsInRange(g)
    requires VerticesIn(currPath, |graph|) && StartCovered(graph, g, start, currPath, path)
    requires |currPath| > 0 && currPath[|currPath| - 1] == v1
    requires |available| > 0 && available[|available| - 1] in Live(g[v1])
    ensures GraphFlagsGrow(graph, g') && TargetsInRange(g')
    ensures LiveTotal(g') < LiveTotal(g)
    ensures v2 == available[|available| - 1].v2 && v1 < |g'| && v2 < |g'|
    ensures forall k :: 0 <= k < |g'[v1]| && g'[v1][k].v2 == v2 ==> g'[v1][k].removed
    ensures forall k :: 0 <= k < |g'[v2]| && g'[v2][k].v2 == v1 ==> g'[v2][k].removed
    ensures available' == available[..|available| - 1] && currPath' == currPath + [v2]
    ensures VerticesIn(currPath', |graph|) && StartCovered(graph, g', start, currPath', path)
    ensures GraphFlagsGrow(g, g')
    ensures forall u :: 0 <= u < |g| && u != v1 && u != v2 ==> g'[u] == g[u]
    ensures forall k :: 0 <= k < |g[v1]| && !g[v1][k].removed && g'[v1][k].removed ==> g[v1][k].v2 == v2
    ensures forall k :: 0 <= k < |g[v2]| && !g[v2][k].removed && g'[v2][k].removed ==> g[v2][k].v2 == v1
  {
    var top := available[|available| - 1];
    LiveMembers(g[v1]);
    ghost var k :| 0 <= k < |g[v1]| && g[v1][k] == top;
    v2 := top.v2;
    currPath' := currPath + [v2];
    available' := available[..|available| - 1];
    g' := MarkStep(graph, g, start, v1, v2, k);
    assert currPath'[..|currPath'| - 1] == currPath;
    PushVertex(currPath, v2, |graph|);
    CoverAfterStep(graph, g, g', start, currPath', path, v1, v2);
  }

  lemma PushVertex(s: seq<int>, v: nat, n: nat)
    requires VerticesIn(s, n) && v < n
    ensures VerticesIn(s + [v], n)
  {
    assert forall k :: 0 <= k < |s| ==> (s + [v])[k] == s[k];
  }

  /**
   * The state of `euler` at the top of its outer loop: `steps` forward steps
   * taken, `visited` the vertices pushed on `currPath` so far.
   */
  predicate Walking(graph: AdjList, g: AdjList, start: nat, available: seq<Edge>,
                    currPath: seq<int>, path: seq<int>, v1: int, visited: seq<int>, steps: nat)
  {
    start < |graph| && GraphFlagsGrow(graph, g) && TargetsInRange(g) &&
    VerticesIn(currPath, |graph|) && VerticesIn(path, |graph|) &&
    StartCovered(graph, g, start, currPath, path) &&
    |visited| >= 1 && visited[0] == start &&
    multiset(visited) == multiset(currPath) + multiset(path) &&
    |currPath| > 0 && currPath[0] == start && v1 == currPath[|currPath| - 1] &&
    (steps == 0 ==> g == graph && available == [] && currPath == [start] && path == []) &&
    (steps > 0 ==> |Live(graph[start])| >= 2 && |available| >= 1)
  }

  /** What `euler` has built when its outer loop stops, before the reversal. */
  predicate Finished(graph: AdjList, start: nat, path: seq<int>, visited: seq<int>)
  {
    start < |graph| && WalkOutcome(graph, start, path) && VerticesIn(path, |graph|) &&
    |visited| >= 1 && visited[0] == start &&
    (|Live(graph[start])| != 1 ==> multiset(visited) == multiset(path))
  }

  /** The walk stops when the inner loop has emptied `currPath`. */
  lemma BreakFinishes(graph: AdjList, g: AdjList, start: nat, available: seq<Edge>,
                      currPath: seq<int>, path: seq<int>, v1: int, visited: seq<int>, steps: nat,
                      currPath': seq<int>, path': seq<int>)
    requires Walking(graph, g, start, available, currPath, path, v1, visited, steps)
    requires VerticesIn(path', |graph|) && StartCovered(graph, g, start, currPath', path')
    requires multiset(currPath') + multiset(path') == multiset(currPath) + multiset(path)
    requires |currPath'| == 0 && path' != [] && path'[|path'| - 1] == start && |Live(g[start])| == 0
    requires |Live(g[v1])| > 0 ==> currPath' == currPath
    requires |Live(g[v1])| == 0 && |currPath| == 1 ==> path' == path + [v1]
    ensures Finished(graph, start, path', visited)
  {
    if |Live(graph[start])| >= 2 {
      ExhaustedStartCovered(graph, g, start, path');
    }
  }

  /**
   * A forward step that empties `available` ends the walk. That happens only
   * on the first step, when the start vertex had exactly one live record.
   */
  lemma DrainFinishes(graph: AdjList, g: AdjList, start: nat, available: seq<Edge>,
                      currPath: seq<int>, path: seq<int>, v1: int, visited: seq<int>, steps: nat,
                      available1: seq<Edge>, currPath1: seq<int>, path1: seq<int>, visited': seq<int>)
    requires Walking(graph, g, start, available, currPath, path, v1, visited, steps)
    requires 0 <= v1 < |g|
    requires |Live(g[v1])| > 0 ==> path1 == path && available1 == available + Live(g[v1])
    requires |Live(g[v1])| == 0 && |currPath| == 1 ==> currPath1 == []
    requires |currPath1| > 0 && |available1| >= |available| + 1 && |available1| == 1
    requires |visited'| >= 1 && visited'[0] == start
    ensures Finished(graph, start, path1, visited')
  {
    assert steps == 0;
    assert |Live(graph[start])| == 1;
  }

  /** The walk goes on after a forward step that leaves `available` non-empty. */
  lemma StepContinues(graph: AdjList, g: AdjList, start: nat, available: seq<Edge>,
                      currPath: seq<int>, path: seq<int>, v1: int, visited: seq<int>, steps: nat,
                      available1: seq<Edge>, currPath1: seq<int>, path1: seq<int>,
                      g': AdjList, available': seq<Edge>, v2: nat)
    requires Walking(graph, g, start, available, currPath, path, v1, visited, steps)
    requires 0 <= v1 < |g|
    requires |Live(g[v1])| > 0 ==> available1 == available + Live(g[v1])
    requires |Live(g[v1])| == 0 && |currPath| == 1 ==> currPath1 == []
    requires GraphFlagsGrow(graph, g') && TargetsInRange(g')
    requires VerticesIn(currPath1 + [v2], |graph|) && VerticesIn(path1, |graph|)
    requires StartCovered(graph, g', start, currPath1 + [v2], path1)
    requires |currPath1| > 0 && currPath1[0] == start
    requires multiset(currPath1) + multiset(path1) == multiset(currPath) + multiset(path)
    requires |available1| >= |available| + 1 && available' == available1[..|available1| - 1] && available' != []
    ensures Walking(graph, g', start, available', currPath1 + [v2], path1, v2, visited + [v2], steps + 1)
  {
    if steps == 0 {
      assert |Live(graph[start])| >= 2;
    }
  }

  /**
   * One pass of the outer do-while of `euler`: unwind exhausted vertices,
   * then either stop (the current path ran empty) or take a forward step,
   * stopping as well if that leaves `available` empty.
   */
  method WalkStep(ghost graph: AdjList, g: AdjList, ghost start: nat, available: seq<Edge>,
                  currPath: seq<int>, path: seq<int>, v1: int, ghost visited: seq<int>, ghost steps: nat)
    returns (g': AdjList, available': seq<Edge>, currPath': seq<int>, path': seq<int>, v1': int,
             ghost visited': seq<int>, ghost steps': nat, done: bool)
    requires Walking(graph, g, start, available, currPath, path, v1, visited, steps)
    ensures done ==> Finished(graph, start, path', visited') && LiveTotal(g') <= LiveTotal(g)
    ensures !done ==> Walking(graph, g', start, available', currPath', path', v1', visited', steps')
    ensures !done ==> LiveTotal(g') < LiveTotal(g)
  {
    var available1, currPath1, path1, top, numAvailable :=
      Unwind(graph, g, start, available, currPath, path, v1);
    if top == IntMin {
      BreakFinishes(graph, g, start, available, currPath, path, v1, visited, steps, currPath1, path1);
      g', available', currPath', path', v1', visited', steps', done :=
        g, available1, currPath1, path1, top, visited, steps, true;
    } else {
      var v2;
      g', available', currPath', v2 := Advance(graph, g, start, available1, currPath1, path1, top);
      if available' == [] {
        DrainFinishes(graph, g, start, available, currPath, path, v1, visited, steps,
                      available1, currPath1, path1, visited + [v2]);
        done := true;
      } else {
        StepContinues(graph, g, start, available, currPath, path, v1, visited, steps,
                      available1, currPath1, path1, g', available', v2);
        done := false;
      }
      path', v1', visited', steps' := path1, v2, visited + [v2], steps + 1;
    }
  }

  /**
   * `TSP::euler`.  `available` and `currPath` are stacks whose top is the last
   * element; the sentinel `INT_MIN` for an empty `currPath` is kept.
   */
  method Euler(graph: AdjList, start: int) returns (path: seq<int>, ghost visited: seq<int>)
    requires 0 <= start < |graph| && TargetsInRange(graph)
    ensures VerticesIn(path, |graph|)
    ensures |visited| >= 1 && visited[0] == start
    ensures |Live(graph[start])| != 1 ==> multiset(path) == multiset(visited)
    ensures |Live(graph[start])| == 0 ==> path == [start]
    ensures |Live(graph[start])| == 1 ==> path == []
    ensures |Live(graph[start])| >= 2 ==>
      path != [] && path[0] == start && forall e :: e in Live(graph[start]) ==> e.v2 in path
  {
    var g := graph;
    var available: seq<Edge> := [];
    var currPath: seq<int> := [start];
    path := [];
    var v1: int := start;
    ghost var steps: nat := 0;
    visited := [start];
    var done := false;
    while !done
      invariant !done ==> Walking(graph, g, start, available, currPath, path, v1, visited, steps)
      invariant done ==> Finished(graph, start, path, visited)
      decreases LiveTotal(g) + (if done then 0 else 1)
    {
      g, available, currPath, path, v1, visited, steps, done :=
        WalkStep(graph, g, start, available, currPath, path, v1, visited, steps);
    }
    FinishedReversed(graph, start, path, visited);
    path := Reverse(path);
  }

  /** The final `std::reverse` turns the finished walk into what `euler` returns. */
  lemma FinishedReversed(graph: AdjList, start: nat, path: seq<int>, visited: seq<int>)
    requires Finished(graph, start, path, visited)
    ensures VerticesIn(Reverse(path), |graph|)
    ensures |Live(graph[start])| != 1 ==> multiset(Reverse(path)) == multiset(visited)
    ensures |Live(graph[start])| == 0 ==> Reverse(path) == [start]
    ensures |Live(graph[start])| == 1 ==> Reverse(path) == []
    ensures |Live(graph[start])| >= 2 ==>
      Reverse(path) != [] && Reverse(path)[0] == start && forall e :: e in Live(graph[start]) ==> e.v2 in Reverse(path)
  {
    ReverseAt(path);
    ReverseMultiset(path);
    assert forall x :: x in path ==> x in multiset(Reverse(path));
  }
}
