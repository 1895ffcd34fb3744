/**
 * Shared vocabulary of the solver in tsp.h: the cost matrix, the graph node
 * (`TSP::Node`), adjacency lists, and sequence reversal (`std::reverse`).
 */
module TspTypes {
  import opened CppInt

  datatype Option<T> = None | Some(value: T)

  /** `std::vector<std::vector<int>>` used as `AdjMatrix`. */
  type Matrix = seq<seq<int>>

  /** Every row has as many entries as there are rows. */
  predicate IsSquare(am: Matrix) {
    forall r :: 0 <= r < |am| ==> |am[r]| == |am|
  }

  predicate Symmetric(am: Matrix)
    requires IsSquare(am)
  {
    forall r, c {:trigger am[r][c]} :: 0 <= r < |am| && 0 <= c < |am| ==> am[r][c] == am[c][r]
  }

  /** Every cost is strictly below INT_MAX, so a scan starting from INT_MAX always finds one. */
  predicate CostsBelowIntMax(am: Matrix)
    requires IsSquare(am)
  {
    forall r, c :: 0 <= r < |am| && 0 <= c < |am| ==> am[r][c] < IntMax
  }

  /** Every cost is a non-negative int strictly below INT_MAX. */
  predicate CostsInRange(am: Matrix)
    requires IsSquare(am)
  {
    forall r, c :: 0 <= r < |am| && 0 <= c < |am| ==> 0 <= am[r][c] < IntMax
  }

  /** The matrix the solver expects from its producer. */
  predicate CostMatrix(am: Matrix) {
    IsSquare(am) && Symmetric(am) && CostsInRange(am)
  }

  /**
   * `TSP::Node`: an edge record stored in the list of its owner `v1`,
   * pointing at `v2`, with the consumed flag used by `euler`.
   */
  datatype Edge = Edge(v1: nat, v2: nat, weight: int, removed: bool)

  /** `AdjList`: one ordered list of edge records per vertex. */
  type AdjList = seq<seq<Edge>>

  /** Every record points at a vertex of the graph. */
  predicate TargetsInRange(g: AdjList) {
    forall u, k :: 0 <= u < |g| && 0 <= k < |g[u]| ==> g[u][k].v2 < |g|
  }

  /** Every record is owned by the list it sits in and points into the graph. */
  predicate WellFormed(g: AdjList) {
    forall u, k :: 0 <= u < |g| && 0 <= k < |g[u]| ==> g[u][k].v1 == u && g[u][k].v2 < |g|
  }

  /** No record has been consumed yet. */
  predicate NoneRemoved(g: AdjList) {
    forall u, k :: 0 <= u < |g| && 0 <= k < |g[u]| ==> !g[u][k].removed
  }

  /** The graph with `n` empty lists, as `AdjList adjList(n)` builds it. */
  function EmptyGraph(n: nat): (g: AdjList)
    ensures |g| == n && forall u :: 0 <= u < n ==> g[u] == []
  {
    seq(n, _ => [])
  }

  /**
   * The two `emplace_back`s that record one logical edge u -- v of weight w:
   * first in u's list, then (mirrored) in v's list.
   */
  function AddEdge(g: AdjList, u: nat, v: nat, w: int): (r: AdjList)
    requires u < |g| && v < |g|
    ensures |r| == |g|
  {
    var g1 := g[u := g[u] + [Edge(u, v, w, false)]];
    g1[v := g1[v] + [Edge(v, u, w, false)]]
  }

  /** Total number of records in all lists. */
  function Entries(g: AdjList): nat {
    if g == [] then 0 else Entries(g[..|g| - 1]) + |g[|g| - 1]|
  }

  /** `std::reverse`. */
  function Reverse<T>(s: seq<T>): seq<T> {
    if s == [] then [] else [s[|s| - 1]] + Reverse(s[..|s| - 1])
  }

  lemma {:induction false} ReverseAt<T>(s: seq<T>)
    ensures |Reverse(s)| == |s|
    ensures forall k :: 0 <= k < |s| ==> Reverse(s)[k] == s[|s| - 1 - k]
  {
    if s != [] {
      ReverseAt(s[..|s| - 1]);
    }
  }

  lemma {:induction false} ReverseMultiset<T>(s: seq<T>)
    ensures multiset(Reverse(s)) == multiset(s)
  {
    if s != [] {
      ReverseMultiset(s[..|s| - 1]);
      assert s == s[..|s| - 1] + [s[|s| - 1]];
    }
  }

  /** The vertices 0..n-1 in order. */
  function Range(n: nat): (r: seq<int>)
    ensures |r| == n && forall k :: 0 <= k < n ==> r[k] == k
  {
    seq(n, k => k)
  }
}
