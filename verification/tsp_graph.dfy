/**
 * tsp.h, graph construction: `TSP::mst`, the odd-degree lambda inside
 * `operator()`, and `TSP::match`.
 *
 * As written, `mst` never marks a vertex as visited and `key[0] = 0` is never
 * overwritten, so `min_element` picks vertex 0 on every pass; relaxation
 * compares against `(int)key[j]`, which is -1 for an untouched key.  With a
 * non-negative row 0 nothing is ever relaxed and the "tree" is the star
 * around vertex 0.  `match` marks its chosen partner through a heap copy, so
 * pair k always joins odd[k] to the first cheapest of odd[k+1..].
 */
module TspGraph {
  import opened CppInt
  import opened TspTypes

  /** `std::min_element` as an index: the first position holding the least value. */
  function FirstMin(s: seq<int>): (r: nat)
    requires |s| > 0
    ensures r < |s|
    ensures forall k :: 0 <= k < |s| ==> s[r] <= s[k]
    ensures forall k :: 0 <= k < r ==> s[r] < s[k]
  {
    if |s| == 1 then 0
    else
      var r := FirstMin(s[..|s| - 1]);
      if s[|s| - 1] < s[r] then |s| - 1 else r
  }

  /** Every entry of row r is non-negative. */
  predicate RowNonNegative(am: Matrix, r: nat)
    requires IsSquare(am) && r < |am|
  {
    forall c :: 0 <= c < |am| ==> am[r][c] >= 0
  }

  predicate ParentsInRange(parent: seq<nat>, n: nat) {
    |parent| == n && forall i :: 0 <= i < n ==> parent[i] < n
  }

  /**
   * The list `mst` emits for a parent array: for i = 1..k in turn, the edge
   * i -- parent[i] of weight am[i][parent[i]], first in i's list, then in
   * parent[i]'s.
   */
  function TreeGraph(am: Matrix, parent: seq<nat>, k: nat): (g: AdjList)
    requires IsSquare(am) && ParentsInRange(parent, |am|) && k < |am|
    ensures |g| == |am|
  {
    if k == 0 then EmptyGraph(|am|)
    else AddEdge(TreeGraph(am, parent, k - 1), k, parent[k], am[k][parent[k]])
  }

  /** The star around vertex 0 after the first k spokes. */
  function StarGraph(am: Matrix, k: nat): (g: AdjList)
    requires IsSquare(am) && k < |am|
    ensures |g| == |am|
  {
    seq(|am|, v requires 0 <= v < |am| =>
      if v == 0 then seq(k, i requires 0 <= i < k => Edge(0, i + 1, am[i + 1][0], false))
      else if v <= k then [Edge(v, 0, am[v][0], false)]
      else [])
  }

  /** A tree whose parents are all 0 is the star around 0. */
  lemma {:induction false} ZeroParentsMakeStar(am: Matrix, parent: seq<nat>, k: nat)
    requires IsSquare(am) && ParentsInRange(parent, |am|) && k < |am|
    requires forall i :: 0 <= i < |am| ==> parent[i] == 0
    ensures TreeGraph(am, parent, k) == StarGraph(am, k)
  {
    if k > 0 {
      ZeroParentsMakeStar(am, parent, k - 1);
      var prev := StarGraph(am, k - 1);
      var next := StarGraph(am, k);
      var g := AddEdge(prev, k, 0, am[k][0]);
      assert g[0] == prev[0] + [Edge(0, k, am[k][0], false)];
      assert next[0] == prev[0] + [Edge(0, k, am[k][0], false)];
      assert g[k] == [Edge(k, 0, am[k][0], false)] == next[k];
      forall v | 0 < v < |am| && v != k
        ensures g[v] == next[v]
      {
        assert g[v] == prev[v];
      }
      assert forall v :: 0 <= v < |am| ==> g[v] == next[v];
      assert TreeGraph(am, parent, k) == g == next;
    } else {
      var star := StarGraph(am, 0);
      assert forall v :: 0 <= v < |am| ==> star[v] == [];
      assert TreeGraph(am, parent, 0) == EmptyGraph(|am|) == star;
    }
  }

  /** The star records every spoke in both lists and points into the graph. */
  lemma StarWellFormed(am: Matrix, k: nat)
    requires IsSquare(am) && k < |am|
    ensures WellFormed(StarGraph(am, k)) && NoneRemoved(StarGraph(am, k))
    ensures |StarGraph(am, k)[0]| == k
    ensures forall i :: 0 <= i < k ==> StarGraph(am, k)[0][i] == Edge(0, i + 1, am[i + 1][0], false)
  {
  }

  /** Each emitted edge adds one record to each of its two endpoints' lists. */
  lemma {:induction false} AddEdgeEntries(g: AdjList, u: nat, v: nat, w: int)
    requires u < |g| && v < |g|
    ensures Entries(AddEdge(g, u, v, w)) == Entries(g) + 2
  {
    var g1 := g[u := g[u] + [Edge(u, v, w, false)]];
    EntriesUpdate(g, u, g[u] + [Edge(u, v, w, false)]);
    EntriesUpdate(g1, v, g1[v] + [Edge(v, u, w, false)]);
  }

  /** Adding an edge only appends records, so old records stay a prefix of each list. */
  lemma AddEdgeExtends(g: AdjList, u: nat, v: nat, w: int)
    requires u < |g| && v < |g|
    ensures forall x :: 0 <= x < |g| ==> |g[x]| <= |AddEdge(g, u, v, w)[x]| && AddEdge(g, u, v, w)[x][..|g[x]|] == g[x]
    ensures WellFormed(g) ==> WellFormed(AddEdge(g, u, v, w))
    ensures NoneRemoved(g) ==> NoneRemoved(AddEdge(g, u, v, w))
  {
    var r := AddEdge(g, u, v, w);
    forall x | 0 <= x < |g|
      ensures |g[x]| <= |r[x]| && r[x][..|g[x]|] == g[x]
      ensures forall k :: |g[x]| <= k < |r[x]| ==> r[x][k].v1 == x && r[x][k].v2 < |g| && !r[x][k].removed
    {
    }
  }

  lemma {:induction false} EntriesUpdate(g: AdjList, u: nat, l: seq<Edge>)
    requires u < |g|
    ensures Entries(g[u := l]) == Entries(g) - |g[u]| + |l|
  {
    var h := g[u := l];
    if u == |g| - 1 {
      assert h[..|h| - 1] == g[..|g| - 1];
    } else {
      EntriesUpdate(g[..|g| - 1], u, l);
      assert h[..|h| - 1] == g[..|g| - 1][u := l];
    }
  }

  lemma {:induction false} EmptyGraphEntries(n: nat)
    ensures Entries(EmptyGraph(n)) == 0
  {
    if n > 0 {
      EmptyGraphEntries(n - 1);
      assert EmptyGraph(n)[..n - 1] == EmptyGraph(n - 1);
    }
  }

  /** `mst` emits exactly one edge per vertex 1..k: 2k records in all. */
  lemma {:induction false} TreeGraphEntries(am: Matrix, parent: seq<nat>, k: nat)
    requires IsSquare(am) && ParentsInRange(parent, |am|) && k < |am|
    ensures Entries(TreeGraph(am, parent, k)) == 2 * k
  {
    if k == 0 {
      EmptyGraphEntries(|am|);
    } else {
      TreeGraphEntries(am, parent, k - 1);
      AddEdgeEntries(TreeGraph(am, parent, k - 1), k, parent[k], am[k][parent[k]]);
    }
  }

  /** Keys and parents of `mst` after some passes of its first loop. */
  datatype MstState = MstState(key: seq<nat>, parent: seq<nat>)

  /** Key j after relaxing against the row of `min`, compared through `(int)key[j]`. */
  function RelaxedKey(am: Matrix, key: seq<nat>, min: nat, j: nat): nat
    requires IsSquare(am) && |key| == |am| && min < |am| && j < |am|
  {
    if am[min][j] < ToInt32(key[j]) then ToSize(am[min][j]) else key[j]
  }

  /** Parent j after relaxing against the row of `min`. */
  function RelaxedParent(am: Matrix, key: seq<nat>, par: seq<nat>, min: nat, j: nat): nat
    requires IsSquare(am) && |key| == |par| == |am| && min < |am| && j < |am|
  {
    if am[min][j] < ToInt32(key[j]) then min else par[j]
  }

  /** One pass of the first loop of `mst`: pick the least key, relax every entry against its row. */
  function MstPass(am: Matrix, s: MstState): (r: MstState)
    requires IsSquare(am) && |am| >= 1 && |s.key| == |s.parent| == |am|
    ensures |r.key| == |r.parent| == |am|
    ensures ParentsInRange(s.parent, |am|) ==> ParentsInRange(r.parent, |am|)
  {
    var min := FirstMin(s.key);
    MstState(seq(|am|, j requires 0 <= j < |am| => RelaxedKey(am, s.key, min, j)),
             seq(|am|, j requires 0 <= j < |am| => RelaxedParent(am, s.key, s.parent, min, j)))
  }

  /** The keys and parents after i passes, from key[0] = 0, every other key `SIZE_MAX` and all parents 0. */
  function MstPasses(am: Matrix, i: nat): (s: MstState)
    requires IsSquare(am) && |am| >= 1
    ensures |s.key| == |am| && ParentsInRange(s.parent, |am|)
  {
    if i == 0 then MstState(seq(|am|, j => if j == 0 then 0 else SizeMax), seq(|am|, j => 0))
    else MstPass(am, MstPasses(am, i - 1))
  }

  /** The parent array `mst` hands to its second loop: the state after n passes. */
  function MstParents(am: Matrix): (parent: seq<nat>)
    requires IsSquare(am) && |am| >= 1
    ensures ParentsInRange(parent, |am|)
  {
    MstPasses(am, |am|).parent
  }

  /** Keys and parents as `mst` leaves them when the costs from vertex 0 are non-negative. */
  predicate StarKeys(s: MstState) {
    |s.key| >= 1 && s.key[0] == 0 && (forall j :: 1 <= j < |s.key| ==> s.key[j] == SizeMax) &&
    (forall j :: 0 <= j < |s.parent| ==> s.parent[j] == 0)
  }

  /**
   * With a non-negative row 0 every pass picks vertex 0 (its key 0 is never
   * beaten) and relaxes nothing: 0 is not below `(int)0`, and no cost is
   * below `(int)SIZE_MAX` = -1.
   */
  lemma {:induction false} MstPassesStar(am: Matrix, i: nat)
    requires IsSquare(am) && |am| >= 1 && RowNonNegative(am, 0)
    ensures StarKeys(MstPasses(am, i))
  {
    if i > 0 {
      MstPassesStar(am, i - 1);
      var s := MstPasses(am, i - 1);
      var min := FirstMin(s.key);
      assert min == 0;
      SizeMaxAsInt();
      var r := MstPasses(am, i);
      forall j | 0 <= j < |am|
        ensures r.key[j] == s.key[j] && r.parent[j] == 0
      {
        assert am[0][j] >= 0;
      }
    }
  }

  /** With a non-negative row 0 every parent `mst` computes is vertex 0. */
  lemma MstParentsZero(am: Matrix)
    requires IsSquare(am) && |am| >= 1 && RowNonNegative(am, 0)
    ensures forall i :: 0 <= i < |am| ==> MstParents(am)[i] == 0
  {
    MstPassesStar(am, |am|);
  }

  /**
   * The inner loop of `mst`: relax every key against the row of `min`, the
   * key cast to int as in the source.
   */
  method Relax(am: Matrix, key: array<nat>, par: array<nat>, min: nat)
    requires IsSquare(am) && key.Length == par.Length == |am| && key != par && min < |am|
    modifies key, par
    ensures forall j :: 0 <= j < key.Length ==>
      if am[min][j] < ToInt32(old(key[j])) then key[j] == ToSize(am[min][j]) && par[j] == min
      else key[j] == old(key[j]) && par[j] == old(par[j])
    ensures key[..] == seq(|am|, j requires 0 <= j < |am| => RelaxedKey(am, old(key[..]), min, j))
    ensures par[..] == seq(|am|, j requires 0 <= j < |am| => RelaxedParent(am, old(key[..]), old(par[..]), min, j))
  {
    for j := 0 to key.Length
      invariant forall j' :: 0 <= j' < j ==>
        if am[min][j'] < ToInt32(old(key[j'])) then key[j'] == ToSize(am[min][j']) && par[j'] == min
        else key[j'] == old(key[j']) && par[j'] == old(par[j'])
      invariant forall j' :: j <= j' < key.Length ==> key[j'] == old(key[j']) && par[j'] == old(par[j'])
    {
      if am[min][j] < ToInt32(key[j]) {
        key[j] := ToSize(am[min][j]);
        par[j] := min;
      }
    }
  }

  /** The second loop of `mst`: record edge i -- parent[i] in both lists. */
  method TreeEdges(am: Matrix, par: array<nat>) returns (adjList: AdjList)
    requires IsSquare(am) && 1 <= par.Length == |am| && ParentsInRange(par[..], |am|)
    ensures adjList == TreeGraph(am, par[..], |am| - 1)
  {
    var n := par.Length;
    adjList := EmptyGraph(n);
    for i := 1 to n
      invariant adjList == TreeGraph(am, par[..], i - 1)
    {
      var v2 := par[i];
      adjList := adjList[i := adjList[i] + [Edge(i, v2, am[i][v2], false)]];
      adjList := adjList[v2 := adjList[v2] + [Edge(v2, i, am[i][v2], false)]];
    }
  }

  /** The key and parent arrays hold the state after i passes. */
  predicate Passed(am: Matrix, key: seq<nat>, par: seq<nat>, i: nat)
    requires IsSquare(am) && |am| >= 1
  {
    MstState(key, par) == MstPasses(am, i)
  }

  /** After n passes the parent array is the one `mst` hands to its second loop. */
  lemma PassedParents(am: Matrix, key: seq<nat>, par: seq<nat>)
    requires IsSquare(am) && |am| >= 1 && Passed(am, key, par, |am|)
    ensures par == MstParents(am)
  {
  }

  /** The arrays as `mst` initialises them hold the state after no pass. */
  lemma StartPassed(am: Matrix, key: seq<nat>, par: seq<nat>)
    requires IsSquare(am) && |am| >= 1 && |key| == |par| == |am|
    requires key[0] == 0 && (forall j :: 1 <= j < |key| ==> key[j] == SizeMax)
    requires forall j :: 0 <= j < |par| ==> par[j] == 0
    ensures Passed(am, key, par, 0)
  {
  }

  /** One pass of the first loop of `mst`. */
  method MstStep(am: Matrix, key: array<nat>, par: array<nat>, ghost i: nat)
    requires IsSquare(am) && |am| >= 1 && key != par && Passed(am, key[..], par[..], i)
    modifies key, par
    ensures Passed(am, key[..], par[..], i + 1)
  {
    var min := FirstMin(key[..]);
    Relax(am, key, par, min);
  }

  /** The first loop of `mst`: n passes of `min_element` and relaxation. */
  method MstKeys(n: nat, am: Matrix) returns (key: array<nat>, par: array<nat>)
    requires 1 <= n == |am| && IsSquare(am)
    ensures par.Length == n && Passed(am, key[..], par[..], n)
  {
    key := new nat[n](_ => SizeMax);
    par := new nat[n](_ => 0);
    key[0] := 0;
    par[0] := 0;
    StartPassed(am, key[..], par[..]);
    for i := 0 to n
      invariant Passed(am, key[..], par[..], i)
    {
      MstStep(am, key, par, i);
    }
  }

  /**
   * `TSP::mst`: the key/parent loop as written (`min_element` over the keys,
   * relaxation against the key cast to int), then the second loop that
   * records edge i -- parent[i] in both lists.
   */
  method Mst(n: nat, am: Matrix) returns (adjList: AdjList)
    requires 1 <= n == |am| && IsSquare(am)
    ensures adjList == TreeGraph(am, MstParents(am), n - 1)
    ensures RowNonNegative(am, 0) ==> adjList == StarGraph(am, n - 1)
  {
    var key, par := MstKeys(n, am);
    PassedParents(am, key[..], par[..]);
    adjList := TreeEdges(am, par);
    if RowNonNegative(am, 0) {
      MstParentsZero(am);
      ZeroParentsMakeStar(am, par[..], n - 1);
    }
  }

  /** Number of vertices of odd degree in g. */
  function OddCount(g: AdjList): nat {
    if g == [] then 0
    else OddCount(g[..|g| - 1]) + (if |g[|g| - 1]| % 2 == 1 then 1 else 0)
  }

  /** Handshake: the number of odd-degree vertices has the parity of the record count. */
  lemma {:induction false} OddCountParity(g: AdjList)
    ensures OddCount(g) % 2 == Entries(g) % 2
  {
    if g != [] {
      OddCountParity(g[..|g| - 1]);
    }
  }

  /** In the tree `mst` emits, the number of odd-degree vertices is even. */
  lemma TreeOddCountEven(am: Matrix, parent: seq<nat>, k: nat)
    requires IsSquare(am) && ParentsInRange(parent, |am|) && k < |am|
    ensures OddCount(TreeGraph(am, parent, k)) % 2 == 0
  {
    TreeGraphEntries(am, parent, k);
    OddCountParity(TreeGraph(am, parent, k));
  }

  /** The lambda in `operator()` that lists the odd-degree vertices in ascending order. */
  method OddVertices(adj: AdjList) returns (odds: seq<int>)
    ensures forall v :: v in odds <==> 0 <= v < |adj| && |adj[v]| % 2 == 1
    ensures forall p, q :: 0 <= p < q < |odds| ==> odds[p] < odds[q]
    ensures |odds| == OddCount(adj) && VerticesOf(odds, |adj|)
  {
    odds := [];
    for i := 0 to |adj|
      invariant forall v :: v in odds <==> 0 <= v < i && |adj[v]| % 2 == 1
      invariant forall p, q :: 0 <= p < q < |odds| ==> odds[p] < odds[q]
      invariant forall p :: 0 <= p < |odds| ==> 0 <= odds[p] < i
      invariant |odds| == OddCount(adj[..i])
    {
      assert adj[..i + 1][..i] == adj[..i];
      if |adj[i]| % 2 == 1 {
        odds := odds + [i];
      }
    }
    assert adj[..|adj|] == adj;
  }

  /** Every entry of the list names a vertex of an n-vertex graph. */
  predicate VerticesOf(odd: seq<int>, n: nat) {
    forall p :: 0 <= p < |odd| ==> 0 <= odd[p] < n
  }

  /** Position, among odd[k+1..], of the first cheapest partner for odd[k]. */
  function NearestPos(am: Matrix, odd: seq<int>, k: nat): (p: nat)
    requires IsSquare(am) && VerticesOf(odd, |am|) && k + 1 < |odd|
    ensures k < p < |odd|
  {
    k + 1 + FirstMin(PartnerCosts(am, odd, k))
  }

  /** The costs from odd[k] to odd[k+1..], in list order. */
  function PartnerCosts(am: Matrix, odd: seq<int>, k: nat): (costs: seq<int>)
    requires IsSquare(am) && VerticesOf(odd, |am|) && k + 1 < |odd|
    ensures |costs| == |odd| - k - 1
  {
    seq(|odd| - k - 1, j requires 0 <= j < |odd| - k - 1 => am[odd[k]][odd[k + 1 + j]])
  }

  /** `NearestPos` is the first cheapest partner in odd[k+1..]. */
  lemma NearestPosIsFirstMin(am: Matrix, odd: seq<int>, k: nat)
    requires IsSquare(am) && VerticesOf(odd, |am|) && k + 1 < |odd|
    ensures forall j :: k < j < |odd| ==> am[odd[k]][odd[NearestPos(am, odd, k)]] <= am[odd[k]][odd[j]]
    ensures forall j :: k < j < NearestPos(am, odd, k) ==> am[odd[k]][odd[NearestPos(am, odd, k)]] < am[odd[k]][odd[j]]
  {
    var costs := PartnerCosts(am, odd, k);
    assert forall j :: k < j < |odd| ==> costs[j - k - 1] == am[odd[k]][odd[j]];
  }

  /**
   * The graph after the first k passes of `match`: pass k joins odd[k] to
   * its nearest partner in odd[k+1..] with a mirrored edge.
   */
  function Matched(g: AdjList, am: Matrix, odd: seq<int>, k: nat): (r: AdjList)
    requires IsSquare(am) && |g| == |am| && VerticesOf(odd, |am|) && 2 * k <= |odd|
    ensures |r| == |g|
  {
    if k == 0 then g else MatchStep(Matched(g, am, odd, k - 1), am, odd, k - 1)
  }

  /** Pass k of `match`: join odd[k] to its nearest partner with a mirrored edge. */
  function MatchStep(g: AdjList, am: Matrix, odd: seq<int>, k: nat): (r: AdjList)
    requires IsSquare(am) && |g| == |am| && VerticesOf(odd, |am|) && k + 1 < |odd|
    ensures |r| == |g|
  {
    var p := NearestPos(am, odd, k);
    AddEdge(g, odd[k], odd[p], am[odd[k]][odd[p]])
  }

  /** `match` adds exactly one mirrored pair of records per pass. */
  lemma {:induction false} MatchedEntries(g: AdjList, am: Matrix, odd: seq<int>, k: nat)
    requires IsSquare(am) && |g| == |am| && VerticesOf(odd, |am|) && 2 * k <= |odd|
    ensures Entries(Matched(g, am, odd, k)) == Entries(g) + 2 * k
  {
    if k > 0 {
      MatchedEntries(g, am, odd, k - 1);
      var p := NearestPos(am, odd, k - 1);
      AddEdgeEntries(Matched(g, am, odd, k - 1), odd[k - 1], odd[p], am[odd[k - 1]][odd[p]]);
    }
  }

  /** `match` only appends: every list keeps its old records as a prefix, and stays well formed. */
  lemma {:induction false} MatchedExtends(g: AdjList, am: Matrix, odd: seq<int>, k: nat)
    requires IsSquare(am) && |g| == |am| && VerticesOf(odd, |am|) && 2 * k <= |odd|
    ensures forall u :: 0 <= u < |g| ==>
      |g[u]| <= |Matched(g, am, odd, k)[u]| && Matched(g, am, odd, k)[u][..|g[u]|] == g[u]
    ensures WellFormed(g) ==> WellFormed(Matched(g, am, odd, k))
    ensures NoneRemoved(g) ==> NoneRemoved(Matched(g, am, odd, k))
  {
    if k > 0 {
      MatchedExtends(g, am, odd, k - 1);
      var h := Matched(g, am, odd, k - 1);
      var p := NearestPos(am, odd, k - 1);
      AddEdgeExtends(h, odd[k - 1], odd[p], am[odd[k - 1]][odd[p]]);
      forall u | 0 <= u < |g|
        ensures Matched(g, am, odd, k)[u][..|g[u]|] == g[u]
      {
        assert Matched(g, am, odd, k)[u][..|g[u]|] == Matched(g, am, odd, k)[u][..|h[u]|][..|g[u]|];
      }
    }
  }

  /**
   * The partner chosen in one pass is not marked, so it can be paired again
   * while another odd vertex stays unpaired: with odd = [0, 1, 2, 3], vertex 1
   * is the nearest for 0 and then pairs with 2; vertex 3 gets no edge.
   */
  lemma MatchCanLeaveOddVertexUnpaired()
    ensures
      var am := [[0, 1, 5, 5], [1, 0, 1, 5], [5, 1, 0, 5], [5, 5, 5, 0]];
      var r := Matched(EmptyGraph(4), am, [0, 1, 2, 3], 2);
      |r[1]| == 2 && r[3] == []
  {
    var am := [[0, 1, 5, 5], [1, 0, 1, 5], [5, 1, 0, 5], [5, 5, 5, 0]];
    var odd := [0, 1, 2, 3];
    var p0 := NearestPos(am, odd, 0);
    NearestPosIsFirstMin(am, odd, 0);
    assert am[odd[0]][odd[1]] == 1 && odd[p0] == p0;
    assert p0 == 1;
    var p1 := NearestPos(am, odd, 1);
    NearestPosIsFirstMin(am, odd, 1);
    assert am[odd[1]][odd[2]] == 1 && odd[p1] == p1;
    assert p1 == 2;
  }

  /** `std::unique_ptr<int>`: the heap cell `nearestVertPtr` owns. */
  class Box {
    var value: int

    constructor (v: int)
      ensures value == v
    {
      value := v;
    }
  }

  /**
   * The `while (currVertex == -1)` loop of `match`: advances `index` to the
   * first entry that is not the -1 sentinel.
   */
  method SkipMatched(odd: seq<int>, index: nat) returns (next: nat, currVertex: int)
    requires index < |odd|
    requires exists p :: index <= p < |odd| && odd[p] != -1
    ensures index <= next < |odd| && currVertex == odd[next] && currVertex != -1
    ensures forall p :: index <= p < next ==> odd[p] == -1
  {
    next := index;
    currVertex := odd[next];
    while currVertex == -1
      invariant index <= next < |odd| && currVertex == odd[next]
      invariant forall p :: index <= p < next ==> odd[p] == -1
      invariant exists p :: next <= p < |odd| && odd[p] != -1
      decreases |odd| - next
    {
      next := next + 1;
      currVertex := odd[next];
    }
  }

  /** Position j is still a candidate partner in the pass at `index`. */
  predicate Candidate(odd: seq<int>, index: nat, j: int) {
    0 <= j < |odd| && odd[j] != -1 && j != index
  }

  /**
   * The scan of `match` for the cheapest candidate (strict `<`, starting
   * from INT_MAX).  Each improvement allocates a fresh `Box` holding the
   * candidate, as `std::make_unique<int>(*j)` does.
   */
  method FindNearest(odd: seq<int>, index: nat, currVertex: nat, am: Matrix)
    returns (length: int, nearestVert: int, nearestVertPtr: Box?, ghost pos: int)
    requires IsSquare(am) && currVertex < |am|
    requires forall p :: 0 <= p < |odd| ==> odd[p] == -1 || 0 <= odd[p] < |am|
    ensures pos == -1 ==>
      length == IntMax && nearestVert == -1 && nearestVertPtr == null &&
      forall j :: Candidate(odd, index, j) ==> am[currVertex][odd[j]] >= IntMax
    ensures pos != -1 ==>
      Candidate(odd, index, pos) && nearestVert == odd[pos] &&
      length == am[currVertex][odd[pos]] < IntMax &&
      nearestVertPtr != null && fresh(nearestVertPtr) && nearestVertPtr.value == odd[pos] &&
      (forall j :: Candidate(odd, index, j) ==> am[currVertex][odd[j]] >= length) &&
      (forall j :: Candidate(odd, index, j) && j < pos ==> am[currVertex][odd[j]] > length)
  {
    length := IntMax;
    nearestVert := -1;
    nearestVertPtr := null;
    pos := -1;
    for j := 0 to |odd|
      invariant pos == -1 ==>
        length == IntMax && nearestVert == -1 && nearestVertPtr == null &&
        forall j' :: Candidate(odd, index, j') && j' < j ==> am[currVertex][odd[j']] >= IntMax
      invariant pos != -1 ==>
        Candidate(odd, index, pos) && pos < j && nearestVert == odd[pos] &&
        length == am[currVertex][odd[pos]] < IntMax &&
        nearestVertPtr != null && fresh(nearestVertPtr) && nearestVertPtr.value == odd[pos] &&
        (forall j' :: Candidate(odd, index, j') && j' < j ==> am[currVertex][odd[j']] >= length) &&
        (forall j' :: Candidate(odd, index, j') && j' < pos ==> am[currVertex][odd[j']] > length)
    {
      if odd[j] != -1 && index != j && am[currVertex][odd[j]] < length {
        length := am[currVertex][odd[j]];
        nearestVert := odd[j];
        nearestVertPtr := new Box(odd[j]);
        pos := j;
      }
    }
  }

  /**
   * In pass i the candidates are exactly positions i+1.. of the original
   * list, so the first cheapest candidate the scan finds is `NearestPos`.
   */
  lemma ScanFindsNearest(am: Matrix, oddVertices: seq<int>, odd: seq<int>, i: nat, pos: int)
    requires IsSquare(am) && VerticesOf(oddVertices, |am|) && i + 1 < |oddVertices|
    requires |odd| == |oddVertices|
    requires forall p :: 0 <= p < i ==> odd[p] == -1
    requires forall p :: i <= p < |odd| ==> odd[p] == oddVertices[p]
    requires Candidate(odd, i, pos)
    requires forall j :: Candidate(odd, i, j) ==> am[odd[i]][odd[j]] >= am[odd[i]][odd[pos]]
    requires forall j :: Candidate(odd, i, j) && j < pos ==> am[odd[i]][odd[j]] > am[odd[i]][odd[pos]]
    ensures pos == NearestPos(am, oddVertices, i)
  {
    var q := NearestPos(am, oddVertices, i);
    NearestPosIsFirstMin(am, oddVertices, i);
    assert Candidate(odd, i, q);
    assert i < pos;
  }

  /** The working copy of the odd list after i passes: the first i entries cleared to -1. */
  function Cleared(oddVertices: seq<int>, i: nat): (odd: seq<int>)
    ensures |odd| == |oddVertices|
    ensures forall p :: 0 <= p < |odd| ==> odd[p] == if p < i then -1 else oddVertices[p]
  {
    seq(|oddVertices|, p requires 0 <= p < |oddVertices| => if p < i then -1 else oddVertices[p])
  }

  /**
   * One pass of `match`: skip the cleared entries, find the nearest remaining
   * candidate, clear the current entry and write -1 into the heap copy of the
   * partner, then record the mirrored edge.
   */
  method MatchPass(g: AdjList, odd: seq<int>, ghost oddVertices: seq<int>, index: nat, am: Matrix)
    returns (g': AdjList, odd': seq<int>, index': nat)
    requires IsSquare(am) && |g| == |am| && VerticesOf(oddVertices, |am|) && CostsBelowIntMax(am)
    requires index + 1 < |oddVertices| && odd == Cleared(oddVertices, index)
    ensures index' == index + 1 && odd' == Cleared(oddVertices, index')
    ensures g' == MatchStep(g, am, oddVertices, index)
  {
    var currVertex;
    ghost var i := index;
    assert odd[i] == oddVertices[i] >= 0;
    index', currVertex := SkipMatched(odd, index);
    assert index' == i;
    var length, nearestVert, nearestVertPtr, pos := FindNearest(odd, index', currVertex, am);
    assert Candidate(odd, i, i + 1);
    assert pos != -1;
    ScanFindsNearest(am, oddVertices, odd, i, pos);
    odd' := odd[index' := -1];
    nearestVertPtr.value := -1;
    g' := g[currVertex := g[currVertex] + [Edge(currVertex, nearestVert, length, false)]];
    g' := g'[nearestVert := g'[nearestVert] + [Edge(nearestVert, currVertex, length, false)]];
    index' := index' + 1;
    assert forall p :: 0 <= p < |odd'| ==> odd'[p] == Cleared(oddVertices, index')[p];
  }

  /** The state of `match` after i passes. */
  predicate Matching(graph: AdjList, am: Matrix, oddVertices: seq<int>, i: nat,
                     g: AdjList, odd: seq<int>, index: nat)
    requires IsSquare(am) && |graph| == |am| && VerticesOf(oddVertices, |am|) && 2 * i <= |oddVertices|
  {
    index == i && odd == Cleared(oddVertices, i) && g == Matched(graph, am, oddVertices, i)
  }

  /** One pass of `match` moves from the state after i passes to the state after i + 1. */
  method MatchNext(ghost graph: AdjList, g: AdjList, odd: seq<int>, ghost oddVertices: seq<int>,
                   index: nat, am: Matrix, ghost i: nat)
    returns (g': AdjList, odd': seq<int>, index': nat)
    requires IsSquare(am) && |graph| == |am| && VerticesOf(oddVertices, |am|) && CostsBelowIntMax(am)
    requires 2 * (i + 1) <= |oddVertices| && Matching(graph, am, oddVertices, i, g, odd, index)
    ensures Matching(graph, am, oddVertices, i + 1, g', odd', index')
  {
    g', odd', index' := MatchPass(g, odd, oddVertices, index, am);
  }

  /**
   * `TSP::match` on its by-value copy of the odd list.  Each pass clears
   * `oddVertices[index]` and writes -1 through `nearestVertPtr`, which points
   * at the heap copy, so the chosen partner stays in the list.
   */
  method Match(graph: AdjList, oddVertices: seq<int>, am: Matrix) returns (g: AdjList)
    requires IsSquare(am) && |graph| == |am| && VerticesOf(oddVertices, |am|)
    requires CostsBelowIntMax(am)
    ensures g == Matched(graph, am, oddVertices, |oddVertices| / 2)
  {
    g := graph;
    var odd := oddVertices;
    var index: nat := 0;
    assert forall p :: 0 <= p < |odd| ==> odd[p] == Cleared(oddVertices, 0)[p];
    for i := 0 to |odd| / 2
      invariant Matching(graph, am, oddVertices, i, g, odd, index)
    {
      g, odd, index := MatchNext(graph, g, odd, oddVertices, index, am, i);
    }
  }
}
