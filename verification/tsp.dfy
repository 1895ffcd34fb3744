/**
 * tsp.h, the solver itself: the vertex-count check of the constructor and
 * `operator()`, which chains `mst`, `match`, `euler`, `removeDuplicates` and
 * repeated `twoOpt` passes, then prices the final tour.
 */
module Tsp {
  import opened TspTypes
  import opened Utility
  import opened TspGraph
  import opened TspEuler
  import opened TspTour

  const MinVertices: nat := 4
  const MaxVertices: nat := 2000

  /** `Tour`: the cost and the vertex order of a solution. */
  datatype Tour = Tour(cost: int, path: seq<int>)

  /** The default-constructed `Tour`: cost 0, path holding vertex 0 alone. */
  const DefaultTour: Tour := Tour(0, [0])

  /** A solver for graphs of `n` vertices. */
  datatype Solver = Solver(n: nat)

  /**
   * The constructor: a vertex count outside [MIN_VERTICES, MAX_VERTICES]
   * makes the program exit, which is `None` here.
   */
  function NewSolver(num: int): (r: Option<Solver>)
    ensures r.Some? <==> MinVertices <= num <= MaxVertices
    ensures r.Some? ==> r.value.n == num
  {
    if num < MinVertices as int || num > MaxVertices as int then None else Some(Solver(num))
  }

  /** A sequence without duplicates whose elements are exactly 0..n-1 is an ordering of them. */
  lemma PermutationOfRange(s: seq<int>, n: nat)
    requires Distinct(s)
    requires forall x :: x in s <==> 0 <= x < n
    ensures multiset(s) == multiset(Range(n)) && |s| == n
  {
    var r := Range(n);
    DistinctMultiplicity(s);
    DistinctMultiplicity(r);
    assert forall x :: x in r <==> 0 <= x < n by {
      forall x | 0 <= x < n
        ensures x in r
      {
        assert r[x] == x;
      }
    }
    assert multiset(s) == multiset(r);
    assert |s| == |multiset(s)| == |multiset(r)| == n;
  }

  /**
   * The star from `mst` plus the matching edges: the start vertex 0 owns a
   * live record towards every other vertex.
   */
  lemma StartSeesAll(am: Matrix, star: AdjList, g: AdjList, odds: seq<int>)
    requires IsSquare(am) && |am| >= 2 && star == StarGraph(am, |am| - 1)
    requires VerticesOf(odds, |am|) && g == Matched(star, am, odds, |odds| / 2)
    ensures WellFormed(g) && NoneRemoved(g) && |g| == |am|
    ensures |g[0]| >= |am| - 1 && g[0][0].v1 == 0
    ensures Live(g[0]) == g[0]
    ensures forall k :: 0 <= k < |am| - 1 ==> g[0][k].v2 == k + 1
  {
    StarWellFormed(am, |am| - 1);
    MatchedExtends(star, am, odds, |odds| / 2);
    assert |g[0]| >= |star[0]|;
    LiveOfFresh(g[0]);
    forall k | 0 <= k < |am| - 1
      ensures g[0][k].v2 == k + 1
    {
      assert g[0][k] == g[0][..|star[0]|][k] == star[0][k];
    }
  }

  /**
   * The odd-degree lambda and `match` on the star `mst` returns: the start
   * vertex 0 keeps its live record towards every other vertex.
   */
  method MatchStar(n: nat, am: Matrix, star: AdjList) returns (adj: AdjList)
    requires 2 <= n == |am| && IsSquare(am) && CostsBelowIntMax(am) && star == StarGraph(am, n - 1)
    ensures WellFormed(adj) && NoneRemoved(adj) && |adj| == n
    ensures |adj[0]| >= n - 1 && adj[0][0].v1 == 0 && Live(adj[0]) == adj[0]
    ensures forall k :: 0 <= k < n - 1 ==> adj[0][k].v2 == k + 1
  {
    var odds := OddVertices(star);
    adj := Match(star, odds, am);
    StartSeesAll(am, star, adj, odds);
  }

  /**
   * The first half of `operator()`: `mst`, the odd-degree lambda and `match`
   * on the by-reference list.  With the non-negative costs `fillMatrix`
   * produces, the start vertex 0 ends up with a live record towards every
   * other vertex.
   */
  method Multigraph(n: nat, am: Matrix) returns (adj: AdjList)
    requires 2 <= n == |am| && CostMatrix(am)
    ensures WellFormed(adj) && NoneRemoved(adj) && |adj| == n
    ensures |adj[0]| >= n - 1 && adj[0][0].v1 == 0 && Live(adj[0]) == adj[0]
    ensures forall k :: 0 <= k < n - 1 ==> adj[0][k].v2 == k + 1
  {
    assert RowNonNegative(am, 0) && CostsBelowIntMax(am);
    adj := Mst(n, am);
    adj := MatchStar(n, am, adj);
  }

  /** A walk from vertex 0 that reaches every neighbour of 0, when 0 sees all vertices, lists exactly 0..n-1. */
  lemma WalkCoversAll(n: nat, adj: AdjList, path: seq<int>)
    requires 2 <= n && |adj| == n && |adj[0]| >= n - 1 && Live(adj[0]) == adj[0]
    requires forall k :: 0 <= k < n - 1 ==> adj[0][k].v2 == k + 1
    requires VerticesIn(path, n) && path != [] && path[0] == 0
    requires forall e :: e in Live(adj[0]) ==> e.v2 in path
    ensures forall x :: x in path <==> 0 <= x < n
  {
    forall x | 0 <= x < n
      ensures x in path
    {
      if x > 0 {
        assert adj[0][x - 1] in Live(adj[0]);
      }
    }
  }

  /**
   * The middle of `operator()`: the Euler walk from the owner of the first
   * record of vertex 0, then `removeDuplicates` and `erase`.  The result
   * lists every vertex exactly once.
   */
  method Shortcut(n: nat, adj: AdjList) returns (kept: seq<int>)
    requires 4 <= n && WellFormed(adj) && |adj| == n
    requires |adj[0]| >= n - 1 && adj[0][0].v1 == 0 && Live(adj[0]) == adj[0]
    requires forall k :: 0 <= k < n - 1 ==> adj[0][k].v2 == k + 1
    ensures |kept| == n && multiset(kept) == multiset(Range(n)) && InRange(kept, n)
  {
    var start := adj[0][0].v1;
    ghost var visited;
    var path;
    path, visited := Euler(adj, start);
    WalkCoversAll(n, adj, path);
    var a := new int[|path|](k requires 0 <= k < |path| => path[k]);
    assert a[..] == path;
    var newLast := RemoveDuplicates(a);
    kept := a[..newLast];
    DedupDistinct(path);
    DedupMembers(path);
    PermutationOfRange(kept, n);
    assert forall k :: 0 <= k < |kept| ==> kept[k] in kept;
  }

  /**
   * `while (twoOpt(tour.path, adjMatrix, cost()));`: sweeps until a sweep
   * changes nothing.  Each changing sweep lowers the tour cost, which is
   * never negative, so the loop ends, and it ends on a 2-opt optimal tour.
   */
  method Improve(t: array<int>, am: Matrix)
    requires CostMatrix(am) && t.Length == |am| >= 1 && InRange(t[..], |am|)
    modifies t
    ensures multiset(t[..]) == multiset(old(t[..])) && InRange(t[..], |am|)
    ensures TwoOptOptimal(am, t[..])
  {
    var improved := true;
    while improved
      invariant multiset(t[..]) == multiset(old(t[..])) && InRange(t[..], |am|)
      invariant !improved ==> NoImprovingMove(am, t[..])
      decreases TourCost(am, t[..]) + (if improved then 1 else 0)
    {
      TourCostNonNegative(am, t[..]);
      var c := Cost(am, t[..], t.Length);
      improved := TwoOpt(t, am, c);
      TourCostNonNegative(am, t[..]);
    }
    LocalOptimum(am, t[..]);
  }

  /**
   * `TSP::operator()`.  On a matrix of the wrong size it returns the default
   * tour.  Otherwise the result visits every vertex exactly once, its cost is
   * the closed-tour cost, and no reversal `twoOpt` examines would shorten it.
   */
  method Solve(s: Solver, adjMatrix: Matrix) returns (tour: Tour)
    requires MinVertices <= s.n <= MaxVertices
    requires |adjMatrix| == s.n ==> CostMatrix(adjMatrix)
    ensures |adjMatrix| == 0 || |adjMatrix| != s.n ==> tour == DefaultTour
    ensures |adjMatrix| == s.n ==>
      |tour.path| == s.n && multiset(tour.path) == multiset(Range(s.n)) &&
      InRange(tour.path, s.n) && tour.cost == TourCost(adjMatrix, tour.path) &&
      TwoOptOptimal(adjMatrix, tour.path)
  {
    var n := s.n;
    if |adjMatrix| == 0 || |adjMatrix| != n {
      return DefaultTour;
    }
    var adj := Multigraph(n, adjMatrix);
    var kept := Shortcut(n, adj);
    var t := new int[|kept|](k requires 0 <= k < |kept| => kept[k]);
    assert t[..] == kept;
    Improve(t, adjMatrix);
    var cost := Cost(adjMatrix, t[..], n);
    tour := Tour(cost, t[..]);
  }
}
