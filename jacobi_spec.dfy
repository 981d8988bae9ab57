/** Specification of one Jacobi iteration and of the solve loop's stopping rule
    (jacobi.c, function `run`). The matrix is stored as the C code stores it: a
    flat, row-major sequence of n*n values, element (row, col) at row*n + col.
    Floating point is replaced by `real`. */
module JacobiSpec {

  /** Element (row, col) of an n-by-n row-major matrix lies inside the buffer. */
  lemma IndexInRange(n: nat, row: nat, col: nat)
    requires row < n && col < n
    ensures row * n + col < n * n
  {
    var k: nat := n - (row + 1);
    assert n * n == row * n + n + k * n by {
      assert n == row + 1 + k;
    }
    assert k * n >= 0;
  }

  /** Where element (row, col) is stored: row*n + col. */
  function Idx(n: nat, row: nat, col: nat): (i: nat)
    requires row < n && col < n
    ensures i < n * n
  {
    IndexInRange(n, row, col);
    row * n + col
  }

  function Entry(A: seq<real>, n: nat, row: nat, col: nat): real
    requires |A| == n * n && row < n && col < n
  {
    A[Idx(n, row, col)]
  }

  /** The shapes `run` relies on: A is n-by-n, b and x have n entries. */
  predicate Shaped(A: seq<real>, b: seq<real>, x: seq<real>, n: nat)
  {
    |A| == n * n && |b| == n && |x| == n
  }

  /** Every diagonal entry is non-zero, so the division of a row update is defined. */
  predicate DiagNonZero(A: seq<real>, n: nat)
    requires |A| == n * n
  {
    forall r :: 0 <= r < n ==> Entry(A, n, r, r) != 0.0
  }

  /** A[row][0]*x[0] + ... + A[row][k-1]*x[k-1] with the diagonal term left out. */
  function OffDiagSum(A: seq<real>, n: nat, x: seq<real>, row: nat, k: nat): real
    requires |A| == n * n && |x| == n && row < n && k <= n
  {
    if k == 0 then 0.0
    else OffDiagSum(A, n, x, row, k - 1)
         + (if k - 1 == row then 0.0 else Entry(A, n, row, k - 1) * x[k - 1])
  }

  /** A[row][0]*x[0] + ... + A[row][k-1]*x[k-1]: with k == n, the left-hand side
      of equation `row` of A x = b. */
  function RowDot(A: seq<real>, n: nat, x: seq<real>, row: nat, k: nat): real
    requires |A| == n * n && |x| == n && row < n && k <= n
  {
    if k == 0 then 0.0
    else RowDot(A, n, x, row, k - 1) + Entry(A, n, row, k - 1) * x[k - 1]
  }

  /** x solves A x = b exactly. */
  predicate Solves(A: seq<real>, b: seq<real>, x: seq<real>, n: nat)
    requires Shaped(A, b, x, n)
  {
    forall r :: 0 <= r < n ==> RowDot(A, n, x, r, n) == b[r]
  }

  /** The new value of unknown `row` computed from the previous iterate x. */
  function JacobiRow(A: seq<real>, b: seq<real>, x: seq<real>, n: nat, row: nat): real
    requires Shaped(A, b, x, n) && DiagNonZero(A, n) && row < n
  {
    (b[row] - OffDiagSum(A, n, x, row, n)) / Entry(A, n, row, row)
  }

  /** One Jacobi iteration: every row is updated from the previous iterate only. */
  function JacobiStep(A: seq<real>, b: seq<real>, x: seq<real>, n: nat): (y: seq<real>)
    requires Shaped(A, b, x, n) && DiagNonZero(A, n)
    ensures |y| == n
  {
    seq(n, row requires 0 <= row < n => JacobiRow(A, b, x, n, row))
  }

  /** The k-th iterate from the initial vector x0. */
  function Iterate(A: seq<real>, b: seq<real>, x0: seq<real>, n: nat, k: nat): (x: seq<real>)
    requires Shaped(A, b, x0, n) && DiagNonZero(A, n)
    ensures |x| == n
  {
    if k == 0 then x0 else JacobiStep(A, b, Iterate(A, b, x0, n, k - 1), n)
  }

  /** (u[0]-v[0])^2 + ... + (u[k-1]-v[k-1])^2. */
  function SumSquares(u: seq<real>, v: seq<real>, k: nat): real
    requires k <= |u| && k <= |v|
  {
    if k == 0 then 0.0
    else SumSquares(u, v, k - 1) + Square(u[k - 1] - v[k - 1])
  }

  function Square(d: real): real
  {
    d * d
  }

  /** The squared Euclidean distance between two successive iterates. */
  function SquaredChange(xold: seq<real>, xnew: seq<real>): real
    requires |xold| == |xnew|
  {
    SumSquares(xold, xnew, |xold|)
  }

  /** `sqrt(sqdiff) > threshold`, stated without a square root. */
  predicate AboveThreshold(sqdiff: real, threshold: real)
  {
    threshold < 0.0 || sqdiff > threshold * threshold
  }

  /** The loop condition of `run` once iteration k has been performed. */
  predicate Continues(A: seq<real>, b: seq<real>, x0: seq<real>, n: nat,
                      maxIterations: int, threshold: real, k: nat)
    requires Shaped(A, b, x0, n) && DiagNonZero(A, n) && k >= 1
  {
    k < maxIterations
    && AboveThreshold(SquaredChange(Iterate(A, b, x0, n, k - 1), Iterate(A, b, x0, n, k)), threshold)
  }

  /** Leaving out the diagonal term is the full row product minus that term. */
  lemma {:induction false} OffDiagSumIsRowDotMinusDiag(A: seq<real>, n: nat, x: seq<real>, row: nat, k: nat)
    requires |A| == n * n && |x| == n && row < n && k <= n
    ensures OffDiagSum(A, n, x, row, k)
            == RowDot(A, n, x, row, k) - (if row < k then Entry(A, n, row, row) * x[row] else 0.0)
  {
    if k > 0 {
      OffDiagSumIsRowDotMinusDiag(A, n, x, row, k - 1);
    }
  }

  /** The change a Jacobi step makes to unknown `row` is the residual of equation
      `row` at the old iterate, divided by the diagonal entry. */
  lemma StepIsScaledResidual(A: seq<real>, b: seq<real>, x: seq<real>, n: nat, row: nat)
    requires Shaped(A, b, x, n) && DiagNonZero(A, n) && row < n
    ensures JacobiStep(A, b, x, n)[row] - x[row]
            == (b[row] - RowDot(A, n, x, row, n)) / Entry(A, n, row, row)
  {
    OffDiagSumIsRowDotMinusDiag(A, n, x, row, n);
    UpdateMinusOld(b[row], RowDot(A, n, x, row, n), OffDiagSum(A, n, x, row, n), x[row], Entry(A, n, row, row));
  }

  /** An iterate is a fixed point of the Jacobi step exactly when it solves A x = b. */
  lemma FixedPointIffSolves(A: seq<real>, b: seq<real>, x: seq<real>, n: nat)
    requires Shaped(A, b, x, n) && DiagNonZero(A, n)
    ensures JacobiStep(A, b, x, n) == x <==> Solves(A, b, x, n)
  {
    var y := JacobiStep(A, b, x, n);
    forall r | 0 <= r < n
      ensures y[r] == x[r] <==> RowDot(A, n, x, r, n) == b[r]
    {
      StepIsScaledResidual(A, b, x, n, r);
      DivZero(b[r] - RowDot(A, n, x, r, n), Entry(A, n, r, r));
    }
    if Solves(A, b, x, n) {
      assert y == x;
    }
  }

  lemma MulPositive(p: real, q: real)
    requires p > 0.0 && q > 0.0
    ensures p * q > 0.0
  {
  }

  /** A square is never negative, and it is zero only when its root is. */
  lemma SquareSign(d: real)
    ensures Square(d) >= 0.0
    ensures Square(d) == 0.0 <==> d == 0.0
  {
    if d > 0.0 {
      calc {
        Square(d);
        d * d;
      > { MulPositive(d, d); }
        0.0;
      }
    } else if d < 0.0 {
      calc {
        Square(d);
        d * d;
        (-d) * (-d);
      > { MulPositive(-d, -d); }
        0.0;
      }
    }
  }

  lemma DivShift(p: real, q: real, d: real)
    requires d != 0.0
    ensures (p + d * q) / d == p / d + q
  {
  }

  /** The row update (rhs - off) / d minus the old value xr, where the
      off-diagonal sum is the full sum minus d*xr. */
  lemma UpdateMinusOld(rhs: real, dot: real, off: real, xr: real, d: real)
    requires d != 0.0 && off == dot - d * xr
    ensures (rhs - off) / d - xr == (rhs - dot) / d
  {
    assert rhs - off == (rhs - dot) + d * xr;
    DivShift(rhs - dot, xr, d);
  }

  lemma DivZero(p: real, d: real)
    requires d != 0.0
    ensures p / d == 0.0 <==> p == 0.0
  {
  }

  /** A sum of squares is never negative, and it is zero exactly when the two
      prefixes are equal. */
  lemma {:induction false} SumSquaresZeroIff(u: seq<real>, v: seq<real>, k: nat)
    requires k <= |u| && k <= |v|
    ensures SumSquares(u, v, k) >= 0.0
    ensures SumSquares(u, v, k) == 0.0 <==> u[..k] == v[..k]
  {
    if k > 0 {
      SumSquaresZeroIff(u, v, k - 1);
      SquareSign(u[k - 1] - v[k - 1]);
      assert u[..k] == u[..k - 1] + [u[k - 1]];
      assert v[..k] == v[..k - 1] + [v[k - 1]];
      if u[..k] == v[..k] {
        assert u[..k - 1] == u[..k][..k - 1] == v[..k][..k - 1] == v[..k - 1];
        assert u[k - 1] == u[..k][k - 1] == v[..k][k - 1] == v[k - 1];
      }
    }
  }

  /** For a norm r >= 0, `r > threshold` holds exactly when the square-free test
      holds of r*r, whatever the sign of the threshold. */
  lemma ThresholdTestMatchesNorm(norm: real, threshold: real)
    requires norm >= 0.0
    ensures norm > threshold <==> AboveThreshold(norm * norm, threshold)
  {
    if threshold >= 0.0 {
      if norm > threshold {
        assert norm * norm > threshold * norm >= threshold * threshold;
      } else {
        assert norm * norm <= threshold * norm <= threshold * threshold;
      }
    }
  }

  /** With a zero threshold, stopping before the cap means the last two iterates
      are equal, and the final iterate solves A x = b exactly. */
  lemma ExactStopSolves(A: seq<real>, b: seq<real>, x0: seq<real>, n: nat, maxIterations: int, itr: nat)
    requires Shaped(A, b, x0, n) && DiagNonZero(A, n)
    requires 1 <= itr < maxIterations
    requires !Continues(A, b, x0, n, maxIterations, 0.0, itr)
    ensures Iterate(A, b, x0, n, itr) == Iterate(A, b, x0, n, itr - 1)
    ensures Solves(A, b, Iterate(A, b, x0, n, itr), n)
  {
    var prev := Iterate(A, b, x0, n, itr - 1);
    var last := Iterate(A, b, x0, n, itr);
    SumSquaresZeroIff(prev, last, n);
    assert prev[..n] == prev && last[..n] == last;
    assert last == prev;
    FixedPointIffSolves(A, b, prev, n);
  }

  /** Starting from an exact solution, the first step does not move and the loop
      stops after one iteration for any non-negative threshold. */
  lemma SolutionStopsAfterOneStep(A: seq<real>, b: seq<real>, x0: seq<real>, n: nat,
                                  maxIterations: int, threshold: real)
    requires Shaped(A, b, x0, n) && DiagNonZero(A, n)
    requires Solves(A, b, x0, n) && threshold >= 0.0
    ensures Iterate(A, b, x0, n, 1) == x0
    ensures !Continues(A, b, x0, n, maxIterations, threshold, 1)
  {
    FixedPointIffSolves(A, b, x0, n);
    assert Iterate(A, b, x0, n, 1) == JacobiStep(A, b, x0, n);
    SumSquaresZeroIff(x0, x0, n);
  }
}
