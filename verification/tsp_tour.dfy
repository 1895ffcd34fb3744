/**
 * tsp.h, tour improvement: the cost lambda of `operator()`, the in-place
 * segment reversal of `TSP::twoOpt`, and `twoOpt` itself.
 *
 * A tour is a sequence of vertices read as a closed cycle: its cost is the
 * sum of the edges between neighbours plus the closing edge from the last
 * vertex back to the first.
 */
module TspTour {
  import opened TspTypes

  /** Every vertex of t is a row of an n-vertex matrix. */
  predicate InRange(t: seq<int>, n: nat) {
    forall k :: 0 <= k < |t| ==> 0 <= t[k] < n
  }

  /** Sum of the edges between neighbouring vertices of t (the open path). */
  function PathCost(am: Matrix, t: seq<int>): int
    requires IsSquare(am) && InRange(t, |am|)
  {
    if |t| <= 1 then 0
    else PathCost(am, t[..|t| - 1]) + am[t[|t| - 2]][t[|t| - 1]]
  }

  /** Cost of t read as a closed cycle. */
  function TourCost(am: Matrix, t: seq<int>): int
    requires IsSquare(am) && InRange(t, |am|) && |t| >= 1
  {
    am[t[0]][t[|t| - 1]] + PathCost(am, t)
  }

  /** The pairs `twoOpt` examines: i < j, except the pair that spans the whole tour. */
  predicate ValidMove(m: nat, i: nat, j: nat) {
    i < j < m && !(i == 0 && j == m - 1)
  }

  /** The tour after `twoOpt` reverses positions i..j. */
  function TwoOptMove(t: seq<int>, i: nat, j: nat): seq<int>
    requires i <= j < |t|
  {
    t[..i] + Reverse(t[i..j + 1]) + t[j + 1..]
  }

  /**
   * `newDist - bestDist` in `twoOpt`: the two edges the reversal adds minus
   * the two it removes, written for the three cases the source distinguishes.
   */
  function MoveDelta(am: Matrix, t: seq<int>, i: nat, j: nat): int
    requires IsSquare(am) && InRange(t, |am|) && ValidMove(|t|, i, j)
  {
    var m := |t|;
    if i == 0 then
      (am[t[i]][t[j + 1]] + am[t[j]][t[m - 1]]) - (am[t[j]][t[j + 1]] + am[t[i]][t[m - 1]])
    else if j == m - 1 then
      (am[t[j]][t[i - 1]] + am[t[i]][t[0]]) - (am[t[i]][t[i - 1]] + am[t[j]][t[0]])
    else
      (am[t[j]][t[i - 1]] + am[t[i]][t[j + 1]]) - (am[t[i]][t[i - 1]] + am[t[j]][t[j + 1]])
  }

  /** No pair `twoOpt` examines would shorten the tour. */
  predicate NoImprovingMove(am: Matrix, t: seq<int>)
    requires IsSquare(am) && InRange(t, |am|)
  {
    forall i, j :: 0 <= i < j < |t| && ValidMove(|t|, i, j) ==> MoveDelta(am, t, i, j) >= 0
  }

  /** Joining two paths adds the edge between the end of one and the start of the other. */
  lemma {:induction false} PathCostConcat(am: Matrix, a: seq<int>, b: seq<int>)
    requires IsSquare(am) && InRange(a, |am|) && InRange(b, |am|) && a != [] && b != []
    ensures InRange(a + b, |am|)
    ensures PathCost(am, a + b) == PathCost(am, a) + am[a[|a| - 1]][b[0]] + PathCost(am, b)
  {
    var ab := a + b;
    if |b| == 1 {
      assert ab[..|ab| - 1] == a;
    } else {
      var b' := b[..|b| - 1];
      PathCostConcat(am, a, b');
      assert ab[..|ab| - 1] == a + b';
    }
  }

  /** On a symmetric matrix a path costs the same walked backwards. */
  lemma {:induction false} PathCostReverse(am: Matrix, s: seq<int>)
    requires IsSquare(am) && Symmetric(am) && InRange(s, |am|)
    ensures InRange(Reverse(s), |am|)
    ensures PathCost(am, Reverse(s)) == PathCost(am, s)
  {
    ReverseAt(s);
    if |s| == 1 {
      assert Reverse(s) == [s[0]];
    } else if |s| > 1 {
      var init := s[..|s| - 1];
      PathCostReverse(am, init);
      ReverseAt(init);
      assert Reverse(s) == [s[|s| - 1]] + Reverse(init);
      PathCostConcat(am, [s[|s| - 1]], Reverse(init));
    }
  }

  /** Position by position, a 2-opt move mirrors the piece i..j and keeps the rest. */
  lemma TwoOptMoveAt(t: seq<int>, i: nat, j: nat)
    requires i <= j < |t|
    ensures |TwoOptMove(t, i, j)| == |t|
    ensures forall k :: 0 <= k < |t| ==> TwoOptMove(t, i, j)[k] == if k < i || j < k then t[k] else t[i + j - k]
  {
    var s := t[i..j + 1];
    ReverseAt(s);
    var r := TwoOptMove(t, i, j);
    forall k | 0 <= k < |r|
      ensures r[k] == if k < i || j < k then t[k] else t[i + j - k]
    {
      if k < i {
        assert r[k] == t[k];
      } else if k <= j {
        assert r[k] == s[j - k];
      } else {
        assert r[k] == t[k];
      }
    }
  }

  /** A 2-opt move keeps the length of the tour, its vertices in range, and moves its ends as expected. */
  lemma TwoOptMoveShape(t: seq<int>, i: nat, j: nat, n: nat)
    requires i <= j < |t| && InRange(t, n)
    ensures |TwoOptMove(t, i, j)| == |t|
    ensures InRange(TwoOptMove(t, i, j), n)
    ensures TwoOptMove(t, i, j)[0] == if i == 0 then t[j] else t[0]
    ensures TwoOptMove(t, i, j)[|t| - 1] == if j == |t| - 1 then t[i] else t[|t| - 1]
  {
    TwoOptMoveAt(t, i, j);
    var r := TwoOptMove(t, i, j);
    forall k | 0 <= k < |r|
      ensures 0 <= r[k] < n
    {
      if k < i || j < k {
        assert r[k] == t[k];
      } else {
        assert r[k] == t[i + j - k];
      }
    }
  }

  /** A 2-opt move only reorders the tour. */
  lemma TwoOptMovePermutes(t: seq<int>, i: nat, j: nat)
    requires i <= j < |t|
    ensures multiset(TwoOptMove(t, i, j)) == multiset(t)
  {
    var s := t[i..j + 1];
    ReverseMultiset(s);
    assert t == t[..i] + s + t[j + 1..];
  }

  /** Cost of a path made of three non-empty pieces. */
  lemma {:induction false} PathCostSplit3(am: Matrix, a: seq<int>, s: seq<int>, b: seq<int>)
    requires IsSquare(am) && InRange(a, |am|) && InRange(s, |am|) && InRange(b, |am|)
    requires a != [] && s != [] && b != []
    ensures InRange(a + s + b, |am|)
    ensures PathCost(am, a + s + b) ==
      PathCost(am, a) + am[a[|a| - 1]][s[0]] + PathCost(am, s) + am[s[|s| - 1]][b[0]] + PathCost(am, b)
  {
    var c := a + s;
    PathCostConcat(am, a, s);
    assert c[|c| - 1] == s[|s| - 1];
    PathCostConcat(am, c, b);
  }

  /** Reversing the leading piece of a path replaces the edge that leaves it. */
  lemma {:induction false} ReverseFrontCost(am: Matrix, s: seq<int>, b: seq<int>)
    requires IsSquare(am) && Symmetric(am) && InRange(s, |am|) && InRange(b, |am|)
    requires s != [] && b != []
    ensures InRange(s + b, |am|) && InRange(Reverse(s) + b, |am|)
    ensures PathCost(am, Reverse(s) + b) == PathCost(am, s + b) - am[s[|s| - 1]][b[0]] + am[s[0]][b[0]]
  {
    var r := Reverse(s);
    ReverseAt(s);
    PathCostReverse(am, s);
    PathCostConcat(am, s, b);
    PathCostConcat(am, r, b);
  }

  /** Reversing the trailing piece of a path replaces the edge that enters it. */
  lemma {:induction false} ReverseBackCost(am: Matrix, a: seq<int>, s: seq<int>)
    requires IsSquare(am) && Symmetric(am) && InRange(a, |am|) && InRange(s, |am|)
    requires a != [] && s != []
    ensures InRange(a + s, |am|) && InRange(a + Reverse(s), |am|)
    ensures PathCost(am, a + Reverse(s)) == PathCost(am, a + s) - am[a[|a| - 1]][s[0]] + am[a[|a| - 1]][s[|s| - 1]]
  {
    var r := Reverse(s);
    ReverseAt(s);
    PathCostReverse(am, s);
    PathCostConcat(am, a, s);
    PathCostConcat(am, a, r);
  }

  /**
   * Reversing the middle piece of a path replaces the two edges joining it to
   * its neighbours and keeps everything else.
   */
  lemma {:induction false} ReverseMiddleCost(am: Matrix, a: seq<int>, s: seq<int>, b: seq<int>)
    requires IsSquare(am) && Symmetric(am) && InRange(a, |am|) && InRange(s, |am|) && InRange(b, |am|)
    requires a != [] && s != [] && b != []
    ensures InRange(a + s + b, |am|) && InRange(a + Reverse(s) + b, |am|)
    ensures PathCost(am, a + Reverse(s) + b) ==
      PathCost(am, a + s + b) - am[a[|a| - 1]][s[0]] - am[s[|s| - 1]][b[0]]
        + am[a[|a| - 1]][s[|s| - 1]] + am[s[0]][b[0]]
  {
    var r := Reverse(s);
    ReverseAt(s);
    PathCostReverse(am, s);
    PathCostSplit3(am, a, s, b);
    PathCostSplit3(am, a, r, b);
    assert r[0] == s[|s| - 1] && r[|r| - 1] == s[0];
  }

  lemma {:induction false} MiddleMoveCost(am: Matrix, t: seq<int>, i: nat, j: nat)
    requires IsSquare(am) && Symmetric(am) && InRange(t, |am|) && 0 < i <= j < |t| - 1
    ensures InRange(TwoOptMove(t, i, j), |am|)
    ensures PathCost(am, TwoOptMove(t, i, j)) == PathCost(am, t)
      + am[t[i - 1]][t[j]] - am[t[i - 1]][t[i]] + am[t[i]][t[j + 1]] - am[t[j]][t[j + 1]]
  {
    var a, s, b := t[..i], t[i..j + 1], t[j + 1..];
    assert t == a + s + b;
    assert TwoOptMove(t, i, j) == a + Reverse(s) + b;
    assert a[|a| - 1] == t[i - 1] && s[0] == t[i] && s[|s| - 1] == t[j] && b[0] == t[j + 1];
    ReverseMiddleCost(am, a, s, b);
  }

  lemma {:induction false} BackMoveCost(am: Matrix, t: seq<int>, i: nat)
    requires IsSquare(am) && Symmetric(am) && InRange(t, |am|) && 0 < i < |t|
    ensures InRange(TwoOptMove(t, i, |t| - 1), |am|)
    ensures PathCost(am, TwoOptMove(t, i, |t| - 1)) == PathCost(am, t)
      + am[t[i - 1]][t[|t| - 1]] - am[t[i - 1]][t[i]]
  {
    var a, s := t[..i], t[i..];
    assert t == a + s;
    assert t[i..|t| - 1 + 1] == s && t[|t| - 1 + 1..] == [];
    assert TwoOptMove(t, i, |t| - 1) == a + Reverse(s);
    ReverseBackCost(am, a, s);
    assert a[|a| - 1] == t[i - 1] && s[0] == t[i] && s[|s| - 1] == t[|t| - 1];
  }

  lemma {:induction false} FrontMoveCost(am: Matrix, t: seq<int>, j: nat)
    requires IsSquare(am) && Symmetric(am) && InRange(t, |am|) && j < |t| - 1
    ensures InRange(TwoOptMove(t, 0, j), |am|)
    ensures PathCost(am, TwoOptMove(t, 0, j)) == PathCost(am, t)
      + am[t[0]][t[j + 1]] - am[t[j]][t[j + 1]]
  {
    var s, b := t[..j + 1], t[j + 1..];
    assert t == s + b;
    assert t[..0] == [] && t[0..j + 1] == s;
    assert TwoOptMove(t, 0, j) == Reverse(s) + b;
    ReverseFrontCost(am, s, b);
    assert s[0] == t[0] && s[|s| - 1] == t[j] && b[0] == t[j + 1];
  }

  lemma {:induction false} WholeMoveCost(am: Matrix, t: seq<int>)
    requires IsSquare(am) && Symmetric(am) && InRange(t, |am|) && |t| > 0
    ensures InRange(TwoOptMove(t, 0, |t| - 1), |am|)
    ensures PathCost(am, TwoOptMove(t, 0, |t| - 1)) == PathCost(am, t)
  {
    assert t[..0] == [] && t[0..|t|] == t && t[|t|..] == [];
    assert TwoOptMove(t, 0, |t| - 1) == Reverse(t);
    PathCostReverse(am, t);
  }

  /** The open-path cost after a 2-opt move: the edges entering and leaving the reversed piece change. */
  lemma {:induction false} TwoOptPathCost(am: Matrix, t: seq<int>, i: nat, j: nat)
    requires IsSquare(am) && Symmetric(am) && InRange(t, |am|) && i <= j < |t|
    ensures InRange(TwoOptMove(t, i, j), |am|)
    ensures PathCost(am, TwoOptMove(t, i, j)) == PathCost(am, t)
      + (if i > 0 then am[t[i - 1]][t[j]] - am[t[i - 1]][t[i]] else 0)
      + (if j < |t| - 1 then am[t[i]][t[j + 1]] - am[t[j]][t[j + 1]] else 0)
  {
    if i > 0 && j < |t| - 1 {
      MiddleMoveCost(am, t, i, j);
    } else if i > 0 {
      BackMoveCost(am, t, i);
    } else if j < |t| - 1 {
      FrontMoveCost(am, t, j);
    } else {
      WholeMoveCost(am, t);
    }
  }

  /**
   * On a symmetric matrix `MoveDelta` is exactly the change in tour cost the
   * reversal of positions i..j causes.
   */
  lemma MoveDeltaCorrect(am: Matrix, t: seq<int>, i: nat, j: nat)
    requires IsSquare(am) && Symmetric(am) && InRange(t, |am|) && ValidMove(|t|, i, j)
    ensures InRange(TwoOptMove(t, i, j), |am|) && |TwoOptMove(t, i, j)| == |t|
    ensures TourCost(am, TwoOptMove(t, i, j)) == TourCost(am, t) + MoveDelta(am, t, i, j)
  {
    TwoOptMoveShape(t, i, j, |am|);
    TwoOptPathCost(am, t, i, j);
    var m := |t|;
    if i == 0 {
      assert am[t[j]][t[m - 1]] == am[t[m - 1]][t[j]];
    } else if j == m - 1 {
      assert am[t[i]][t[i - 1]] == am[t[i - 1]][t[i]] && am[t[j]][t[i - 1]] == am[t[i - 1]][t[j]];
      assert am[t[i]][t[0]] == am[t[0]][t[i]] && am[t[j]][t[0]] == am[t[0]][t[j]];
    } else {
      assert am[t[i]][t[i - 1]] == am[t[i - 1]][t[i]] && am[t[j]][t[i - 1]] == am[t[i - 1]][t[j]];
    }
  }

  /** With non-negative costs every tour costs at least 0. */
  lemma {:induction false} PathCostNonNegative(am: Matrix, t: seq<int>)
    requires IsSquare(am) && CostsInRange(am) && InRange(t, |am|)
    ensures PathCost(am, t) >= 0
  {
    if |t| > 1 {
      PathCostNonNegative(am, t[..|t| - 1]);
    }
  }

  lemma TourCostNonNegative(am: Matrix, t: seq<int>)
    requires IsSquare(am) && CostsInRange(am) && InRange(t, |am|) && |t| >= 1
    ensures TourCost(am, t) >= 0
  {
    PathCostNonNegative(am, t);
  }

  /** No reversal `twoOpt` examines yields a cheaper closed tour. */
  predicate TwoOptOptimal(am: Matrix, t: seq<int>)
    requires IsSquare(am) && InRange(t, |am|) && |t| >= 1
  {
    forall i, j :: 0 <= i < j < |t| && ValidMove(|t|, i, j) ==>
      InRange(TwoOptMove(t, i, j), |am|) && |TwoOptMove(t, i, j)| == |t| &&
      TourCost(am, TwoOptMove(t, i, j)) >= TourCost(am, t)
  }

  /**
   * A tour `twoOpt` leaves unchanged is 2-opt optimal: on a symmetric matrix
   * no reversal it examines yields a cheaper tour.
   */
  lemma LocalOptimum(am: Matrix, t: seq<int>)
    requires IsSquare(am) && Symmetric(am) && InRange(t, |am|) && |t| >= 1 && NoImprovingMove(am, t)
    ensures TwoOptOptimal(am, t)
  {
    forall i, j | 0 <= i < j < |t| && ValidMove(|t|, i, j)
      ensures InRange(TwoOptMove(t, i, j), |am|) && |TwoOptMove(t, i, j)| == |t|
      ensures TourCost(am, TwoOptMove(t, i, j)) >= TourCost(am, t)
    {
      MoveDeltaCorrect(am, t, i, j);
    }
  }

  /** The `iter_swap` loop of `twoOpt`: mirrors a[i..j] in place and leaves the rest alone. */
  method SwapInward(a: array<int>, i: nat, j: nat)
    requires i < j < a.Length
    modifies a
    ensures forall k :: 0 <= k < a.Length ==> a[k] == if k < i || j < k then old(a[k]) else old(a[i + j - k])
  {
    ghost var t := a[..];
    var it1, it2 := i, j;
    while it1 < it2
      invariant i <= it1 && it2 <= j && it1 + it2 == i + j && it1 <= it2 + 1
      invariant forall k :: 0 <= k < a.Length && (k < i || j < k) ==> a[k] == t[k]
      invariant forall k :: i <= k < it1 ==> a[k] == t[i + j - k]
      invariant forall k :: it2 < k <= j ==> a[k] == t[i + j - k]
      invariant forall k :: it1 <= k <= it2 ==> a[k] == t[k]
      decreases it2 - it1
    {
      a[it1], a[it2] := a[it2], a[it1];
      it1, it2 := it1 + 1, it2 - 1;
    }
  }

  /** The reversal step of `twoOpt`: the array becomes the 2-opt move of its old contents. */
  method ReverseRange(a: array<int>, i: nat, j: nat)
    requires i < j < a.Length
    modifies a
    ensures a[..] == TwoOptMove(old(a[..]), i, j)
  {
    ghost var t := a[..];
    SwapInward(a, i, j);
    TwoOptMoveAt(t, i, j);
    assert forall k :: 0 <= k < a.Length ==> a[k] == TwoOptMove(t, i, j)[k];
  }

  /** The values `twoOpt` carries from pair to pair: the tour, `bestDist` and `repeat`. */
  datatype SweepState = SweepState(tour: seq<int>, best: int, repeat: bool)

  /**
   * Examining pair (i, j): the corner pair is skipped; otherwise, when
   * `newDist` beats `bestDist` (that is, the delta is negative), positions
   * i..j are reversed, the delta is added to `bestDist` and `repeat` is set.
   * The tour keeps its length and vertices, `bestDist` never rises, `repeat` is set
   * exactly when it was or `bestDist` fell, and if `bestDist` stays put
   * nothing changes.
   */
  function ExamineStep(am: Matrix, s: SweepState, i: nat, j: nat): (r: SweepState)
    requires IsSquare(am) && InRange(s.tour, |am|) && i < j < |s.tour|
    ensures |r.tour| == |s.tour| && InRange(r.tour, |am|)
    ensures r.best <= s.best && r.repeat == (s.repeat || r.best < s.best)
    ensures r.best == s.best ==> r == s
  {
    if !ValidMove(|s.tour|, i, j) || MoveDelta(am, s.tour, i, j) >= 0 then s
    else
      TwoOptMoveShape(s.tour, i, j, |am|);
      SweepState(TwoOptMove(s.tour, i, j), s.best + MoveDelta(am, s.tour, i, j), true)
  }

  /** The state after examining pairs (i, i + 1) .. (i, j - 1) from s, with the same guarantees. */
  function RowSwept(am: Matrix, s: SweepState, i: nat, j: nat): (r: SweepState)
    requires IsSquare(am) && InRange(s.tour, |am|) && i < j <= |s.tour|
    ensures |r.tour| == |s.tour| && InRange(r.tour, |am|)
    ensures r.best <= s.best && r.repeat == (s.repeat || r.best < s.best)
    ensures r.best == s.best ==> r == s
    decreases j
  {
    if j == i + 1 then s else ExamineStep(am, RowSwept(am, s, i, j - 1), i, j - 1)
  }

  /**
   * The state after rows 0 .. i - 1 of a sweep of tour t0 from `bestDist`:
   * `repeat` is set exactly when `bestDist` fell, and otherwise the tour is t0.
   */
  function Swept(am: Matrix, t0: seq<int>, bestDist: int, i: nat): (r: SweepState)
    requires IsSquare(am) && InRange(t0, |am|) && i < |t0|
    ensures |r.tour| == |t0| && InRange(r.tour, |am|)
    ensures r.best <= bestDist && r.repeat == (r.best < bestDist)
    ensures r.best == bestDist ==> r == SweepState(t0, bestDist, false)
  {
    if i == 0 then SweepState(t0, bestDist, false)
    else RowSwept(am, Swept(am, t0, bestDist, i - 1), i - 1, |t0|)
  }

  /** Examining a pair only reorders the tour. */
  lemma ExamineStepPermutes(am: Matrix, s: SweepState, i: nat, j: nat)
    requires IsSquare(am) && InRange(s.tour, |am|) && i < j < |s.tour|
    ensures multiset(ExamineStep(am, s, i, j).tour) == multiset(s.tour)
  {
    if ValidMove(|s.tour|, i, j) && MoveDelta(am, s.tour, i, j) < 0 {
      TwoOptMovePermutes(s.tour, i, j);
    }
  }

  /** On a symmetric matrix, examining a pair lowers `bestDist` by exactly what the tour cost falls. */
  lemma ExamineStepCost(am: Matrix, s: SweepState, i: nat, j: nat)
    requires IsSquare(am) && Symmetric(am) && InRange(s.tour, |am|) && i < j < |s.tour|
    ensures var r := ExamineStep(am, s, i, j);
      r.best - TourCost(am, r.tour) == s.best - TourCost(am, s.tour)
  {
    if ValidMove(|s.tour|, i, j) && MoveDelta(am, s.tour, i, j) < 0 {
      MoveDeltaCorrect(am, s.tour, i, j);
    }
  }

  /** Every pair (k, j') with k < i that `twoOpt` examines has a non-negative delta on t. */
  predicate RowsChecked(am: Matrix, t: seq<int>, i: nat)
    requires IsSquare(am) && InRange(t, |am|)
  {
    forall k, j' :: 0 <= k < i && k < j' < |t| && ValidMove(|t|, k, j') ==> MoveDelta(am, t, k, j') >= 0
  }

  /** A row that leaves `bestDist` alone found no improving pair. */
  lemma {:induction false} RowSweptUnchanged(am: Matrix, s: SweepState, i: nat, j: nat)
    requires IsSquare(am) && InRange(s.tour, |am|) && i < j <= |s.tour|
    requires RowSwept(am, s, i, j).best == s.best
    ensures forall j' :: i < j' < j && ValidMove(|s.tour|, i, j') ==> MoveDelta(am, s.tour, i, j') >= 0
    decreases j
  {
    if j > i + 1 {
      var m := RowSwept(am, s, i, j - 1);
      assert m == s;
      RowSweptUnchanged(am, s, i, j - 1);
    }
  }

  /** One more unchanged row extends `RowsChecked`. */
  lemma RowsCheckedNext(am: Matrix, t0: seq<int>, bestDist: int, i: nat)
    requires IsSquare(am) && InRange(t0, |am|) && 0 < i < |t0| && RowsChecked(am, t0, i - 1)
    requires RowSwept(am, SweepState(t0, bestDist, false), i - 1, |t0|).best == bestDist
    ensures RowsChecked(am, t0, i)
  {
    RowSweptUnchanged(am, SweepState(t0, bestDist, false), i - 1, |t0|);
  }

  /** A sweep that leaves `bestDist` alone found no improving pair in the rows it went through. */
  lemma {:induction false} SweptUnchanged(am: Matrix, t0: seq<int>, bestDist: int, i: nat)
    requires IsSquare(am) && InRange(t0, |am|) && i < |t0|
    requires Swept(am, t0, bestDist, i).best == bestDist
    ensures RowsChecked(am, t0, i)
  {
    if i > 0 {
      assert Swept(am, t0, bestDist, i - 1) == SweepState(t0, bestDist, false);
      SweptUnchanged(am, t0, bestDist, i - 1);
      RowsCheckedNext(am, t0, bestDist, i);
    }
  }

  /**
   * The body of the inner loop of `twoOpt`: examine pair (i, j); when it
   * beats `bestDist`, reverse tour[i..j] in place and take the new distance.
   */
  method Examine(tour: array<int>, am: Matrix, best: int, repeat: bool, i: nat, j: nat)
    returns (best': int, repeat': bool)
    requires IsSquare(am) && i < j < tour.Length && InRange(tour[..], |am|)
    modifies tour
    ensures SweepState(tour[..], best', repeat') == ExamineStep(am, SweepState(old(tour[..]), best, repeat), i, j)
    ensures ValidMove(tour.Length, i, j) && MoveDelta(am, old(tour[..]), i, j) < 0 ==>
      tour[..] == TwoOptMove(old(tour[..]), i, j) && best' == best + MoveDelta(am, old(tour[..]), i, j) && repeat'
    ensures !(ValidMove(tour.Length, i, j) && MoveDelta(am, old(tour[..]), i, j) < 0) ==>
      tour[..] == old(tour[..]) && best' == best && repeat' == repeat
    ensures multiset(tour[..]) == multiset(old(tour[..]))
    ensures Symmetric(am) ==> best' - TourCost(am, tour[..]) == best - TourCost(am, old(tour[..]))
  {
    ExamineStepPermutes(am, SweepState(tour[..], best, repeat), i, j);
    if Symmetric(am) {
      ExamineStepCost(am, SweepState(tour[..], best, repeat), i, j);
    }
    best', repeat' := best, repeat;
    if i == 0 && j == tour.Length - 1 {
      return;
    }
    var newDist := best + MoveDelta(am, tour[..], i, j);
    if newDist < best {
      best' := newDist;
      ReverseRange(tour, i, j);
      repeat' := true;
    }
  }

  /** The inner loop of `twoOpt`: row i of the sweep, pairs (i, i + 1) .. (i, n - 1). */
  method SweepRow(tour: array<int>, am: Matrix, best: int, repeat: bool, i: nat)
    returns (best': int, repeat': bool)
    requires IsSquare(am) && i + 1 < tour.Length && InRange(tour[..], |am|)
    modifies tour
    ensures SweepState(tour[..], best', repeat') == RowSwept(am, SweepState(old(tour[..]), best, repeat), i, tour.Length)
    ensures multiset(tour[..]) == multiset(old(tour[..]))
    ensures Symmetric(am) ==> best' - TourCost(am, tour[..]) == best - TourCost(am, old(tour[..]))
  {
    ghost var row := SweepState(tour[..], best, repeat);
    best', repeat' := best, repeat;
    for j := i + 1 to tour.Length
      invariant InRange(tour[..], |am|)
      invariant SweepState(tour[..], best', repeat') == RowSwept(am, row, i, j)
      invariant multiset(tour[..]) == multiset(row.tour)
      invariant Symmetric(am) ==> best' - TourCost(am, tour[..]) == best - TourCost(am, row.tour)
    {
      best', repeat' := Examine(tour, am, best', repeat', i, j);
    }
  }

  /**
   * `TSP::twoOpt`: one sweep over the pairs (i, j), applying every reversal
   * whose `newDist` beats the running `bestDist`.  The tour it leaves is the
   * one `Swept` describes; it reports whether it changed the tour; on a
   * symmetric matrix that happens exactly when the tour got cheaper, and
   * when it did not, no examined move would help.
   */
  method TwoOpt(tour: array<int>, am: Matrix, bestDist: int) returns (repeat: bool)
    requires IsSquare(am) && tour.Length >= 1 && InRange(tour[..], |am|)
    modifies tour
    ensures tour[..] == Swept(am, old(tour[..]), bestDist, tour.Length - 1).tour
    ensures repeat == Swept(am, old(tour[..]), bestDist, tour.Length - 1).repeat
    ensures multiset(tour[..]) == multiset(old(tour[..]))
    ensures InRange(tour[..], |am|)
    ensures !repeat ==> tour[..] == old(tour[..]) && NoImprovingMove(am, tour[..])
    ensures Symmetric(am) ==> (repeat <==> TourCost(am, tour[..]) < TourCost(am, old(tour[..])))
  {
    ghost var t0 := tour[..];
    var m := tour.Length;
    var best := bestDist;
    repeat := false;
    for i := 0 to m - 1
      invariant InRange(tour[..], |am|)
      invariant SweepState(tour[..], best, repeat) == Swept(am, t0, bestDist, i)
      invariant multiset(tour[..]) == multiset(t0)
      invariant Symmetric(am) ==> best - TourCost(am, tour[..]) == bestDist - TourCost(am, t0)
    {
      best, repeat := SweepRow(tour, am, best, repeat, i);
    }
    if !repeat {
      SweptUnchanged(am, t0, bestDist, m - 1);
    }
  }

  /**
   * The cost lambda of `operator()`: the edge from the first vertex to
   * vertex n-1 of the path, plus every edge between neighbours.  When the
   * path holds exactly n vertices that is the closed-tour cost.
   */
  method Cost(am: Matrix, path: seq<int>, n: nat) returns (d: int)
    requires IsSquare(am) && InRange(path, |am|) && 1 <= n <= |path|
    ensures d == am[path[0]][path[n - 1]] + PathCost(am, path)
    ensures n == |path| ==> d == TourCost(am, path)
  {
    d := am[path[0]][path[n - 1]];
    for k := 0 to |path| - 1
      invariant d == am[path[0]][path[n - 1]] + PathCost(am, path[..k + 1])
    {
      assert path[..k + 2][..k + 1] == path[..k + 1];
      d := d + am[path[k]][path[k + 1]];
    }
    assert path[..|path|] == path;
  }
}
