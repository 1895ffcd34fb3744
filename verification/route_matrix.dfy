/**
 * main.cpp: `fillMatrix`, which fills the cost matrix from pairwise
 * distances scaled by the global `scaleFactor`, and the loop in `main` that
 * retries it with a doubled factor while the distances round down to zero.
 *
 * The distance `(int)(rhumbline(...) * scaleFactor)` is the parameter
 * `dist(r, c, scale)` and the coordinate-equality test is `samePoint(r, c)`;
 * both are only consulted for r < c, as in the source. The global
 * `scaleFactor` only ever doubles from 1.0, so it is the whole number `scale`,
 * passed in and returned.
 */
module RouteMatrix {
  import opened CppInt
  import opened TspTypes

  /** `fillMatrix`'s return status. */
  datatype Status = Fail | Success | Retry

  /** `MAX_SCALE_FACTOR`. */
  const MaxScaleFactor: nat := 64

  function Min(x: int, y: int): int { if x <= y then x else y }
  function Max(x: int, y: int): int { if x <= y then y else x }

  /** Cell pair (a, b), a <= b, comes before (r0, c0) in the row-by-row scan. */
  predicate Before(a: int, b: int, r0: int, c0: int) {
    a < r0 || (a == r0 && b < c0)
  }

  /** The value the scan stores in cell (x, y): zero on the diagonal, else the pair's distance. */
  function Entry(dist: (nat, nat, nat) -> int, scale: nat, x: nat, y: nat): int {
    if x == y then 0 else dist(Min(x, y), Max(x, y), scale)
  }

  /**
   * `fillMatrix`: scans the pairs r <= c row by row, writing 0 on the
   * diagonal and d into both (r, c) and (c, r). At the first pair whose d is
   * not positive it stops: FAIL for identical coordinates, otherwise it
   * doubles the factor and answers RETRY, or FAIL once the factor exceeds 64.
   * The ghost results name the pair where the scan stopped (n, n on SUCCESS).
   */
  method FillMatrix(n: nat, dist: (nat, nat, nat) -> int, samePoint: (nat, nat) -> bool,
                    am: array2<int>, scale: nat)
    returns (status: Status, scale': nat, ghost stopRow: nat, ghost stopCol: nat)
    requires am.Length0 == n && am.Length1 == n
    modifies am
    ensures status == Success <==> stopRow == n
    ensures status == Success ==> scale' == scale && stopCol == n
    ensures status != Success ==> stopRow < stopCol < n && dist(stopRow, stopCol, scale) <= 0
    ensures status != Success && samePoint(stopRow, stopCol) ==> status == Fail && scale' == scale
    ensures status != Success && !samePoint(stopRow, stopCol) ==>
      scale' == 2 * scale && (status == Fail <==> scale' > MaxScaleFactor)
    ensures forall a, b :: 0 <= a < b < n && Before(a, b, stopRow, stopCol) ==> dist(a, b, scale) > 0
    ensures forall x, y :: 0 <= x < n && 0 <= y < n ==>
      am[x, y] == if Before(Min(x, y), Max(x, y), stopRow, stopCol) then Entry(dist, scale, x, y) else old(am[x, y])
  {
    var r := 0;
    while r < n
      invariant r <= n
      invariant forall a, b :: 0 <= a < b < n && Before(a, b, r, r) ==> dist(a, b, scale) > 0
      invariant forall x, y :: 0 <= x < n && 0 <= y < n ==>
        am[x, y] == if Before(Min(x, y), Max(x, y), r, r) then Entry(dist, scale, x, y) else old(am[x, y])
    {
      var c := r;
      while c < n
        invariant r <= c <= n
        invariant forall a, b :: 0 <= a < b < n && Before(a, b, r, c) ==> dist(a, b, scale) > 0
        invariant forall x, y :: 0 <= x < n && 0 <= y < n ==>
          am[x, y] == if Before(Min(x, y), Max(x, y), r, c) then Entry(dist, scale, x, y) else old(am[x, y])
      {
        if r != c {
          var d := dist(r, c, scale);
          if d <= 0 {
            stopRow, stopCol := r, c;
            if samePoint(r, c) {
              return Fail, scale, stopRow, stopCol;
            }
            scale' := 2 * scale;
            if scale' > MaxScaleFactor {
              return Fail, scale', stopRow, stopCol;
            }
            return Retry, scale', stopRow, stopCol;
          }
          am[r, c] := d;
          am[c, r] := d;
        } else {
          am[r, c] := 0;
        }
        c := c + 1;
      }
      r := r + 1;
    }
    return Success, scale, n, n;
  }

  /** 2^k: the factor after k doublings of 1.0. */
  function Pow2(k: nat): (r: nat)
    ensures r >= 1
  {
    if k == 0 then 1 else 2 * Pow2(k - 1)
  }

  /** Seven doublings of 1.0 exceed `MAX_SCALE_FACTOR`. */
  lemma {:induction false} Pow2Exceeds(k: nat)
    requires Pow2(k) <= MaxScaleFactor
    ensures k <= 6
  {
    if k > 6 {
      Pow2Grows(7, k);
    }
  }

  /** Pow2 is monotonic. */
  lemma {:induction false} Pow2Grows(j: nat, k: nat)
    requires j <= k
    ensures Pow2(j) <= Pow2(k)
  {
    if j < k {
      Pow2Grows(j, k - 1);
    }
  }

  /**
   * The loop in `main`: starting from a factor of 1.0, call `fillMatrix`
   * until it stops asking for a retry. At most six retries happen, so the
   * loop ends; on SUCCESS the matrix holds the distances at the final factor,
   * all positive off the diagonal.
   */
  method BuildMatrix(n: nat, dist: (nat, nat, nat) -> int, samePoint: (nat, nat) -> bool, am: array2<int>)
    returns (status: Status, scale: nat, ghost retries: nat)
    requires am.Length0 == n && am.Length1 == n
    modifies am
    ensures status != Retry
    ensures retries <= 6
    ensures status == Success ==> scale == Pow2(retries)
    ensures status == Success ==> forall a, b :: 0 <= a < b < n ==> dist(a, b, scale) > 0
    ensures status == Success ==> forall x, y :: 0 <= x < n && 0 <= y < n ==> am[x, y] == Entry(dist, scale, x, y)
    ensures status == Success ==> forall x, y :: 0 <= x < n && 0 <= y < n ==> am[x, y] == am[y, x]
    ensures status == Success ==> forall x :: 0 <= x < n ==> am[x, x] == 0
    ensures status == Success ==> forall x, y :: 0 <= x < n && 0 <= y < n && x != y ==> am[x, y] > 0
  {
    ghost var stopRow, stopCol;
    retries := 0;
    status, scale, stopRow, stopCol := FillMatrix(n, dist, samePoint, am, 1);
    while status == Retry
      invariant status == Retry ==> scale == Pow2(retries + 1) <= MaxScaleFactor
      invariant status == Success ==> scale == Pow2(retries) && stopRow == n && stopCol == n
      invariant status == Success ==> forall a, b :: 0 <= a < b < n && Before(a, b, stopRow, stopCol) ==> dist(a, b, scale) > 0
      invariant status == Success ==> forall x, y :: 0 <= x < n && 0 <= y < n ==>
        am[x, y] == if Before(Min(x, y), Max(x, y), stopRow, stopCol) then Entry(dist, scale, x, y) else old(am[x, y])
      invariant retries <= 6
      decreases 2 * MaxScaleFactor - scale + (if status == Retry then 1 else 0)
    {
      Pow2Exceeds(retries + 1);
      retries := retries + 1;
      status, scale, stopRow, stopCol := FillMatrix(n, dist, samePoint, am, scale);
    }
  }

  /** The filled matrix as the value the solver receives. */
  function Filled(n: nat, dist: (nat, nat, nat) -> int, scale: nat): (m: Matrix)
    ensures |m| == n && forall x :: 0 <= x < n ==> |m[x]| == n
  {
    seq(n, (x: int) requires 0 <= x => seq(n, (y: int) requires 0 <= y => Entry(dist, scale, x, y)))
  }

  /**
   * A successful fill is a valid input for the solver, once the scaled
   * distances fit below INT_MAX.
   */
  lemma FilledIsCostMatrix(n: nat, dist: (nat, nat, nat) -> int, scale: nat)
    requires forall a, b :: 0 <= a < b < n ==> 0 < dist(a, b, scale) < IntMax
    ensures CostMatrix(Filled(n, dist, scale))
  {
    var m := Filled(n, dist, scale);
    forall x, y | 0 <= x < n && 0 <= y < n
      ensures m[x][y] == m[y][x] && 0 <= m[x][y] < IntMax
    {
      assert m[x][y] == Entry(dist, scale, x, y);
      assert m[y][x] == Entry(dist, scale, y, x);
    }
  }
}
