/** The solve loop of jacobi.c (`run`) over arrays: the row pass fills the
    scratch buffer in place, the two buffers swap roles by exchanging
    references, and a do-while loop repeats until the iteration cap or the
    convergence threshold stops it. The OpenMP row loop is modelled by a
    sequential pass and by a pass over an arbitrary schedule of rows. */
module JacobiSolver {
  import opened JacobiSpec

  /** The new value of unknown `row`: the dot product over the columns below the
      diagonal, then over those above it, the diagonal skipped. */
  method UpdatedEntry(A: array<real>, b: array<real>, x: array<real>, n: nat, row: nat)
    returns (v: real)
    requires A.Length == n * n && b.Length == n && x.Length == n && row < n
    requires DiagNonZero(A[..], n)
    ensures v == JacobiRow(A[..], b[..], x[..], n, row)
  {
    ghost var As, xs := A[..], x[..];
    var dot := 0.0;
    var col := 0;
    while col < row
      invariant col <= row
      invariant dot == OffDiagSum(As, n, xs, row, col)
    {
      dot := dot + A[Idx(n, row, col)] * x[col];
      col := col + 1;
    }
    col := row + 1;
    while col < n
      invariant row + 1 <= col <= n
      invariant dot == OffDiagSum(As, n, xs, row, col)
    {
      dot := dot + A[Idx(n, row, col)] * x[col];
      col := col + 1;
    }
    v := (b[row] - dot) / A[Idx(n, row, row)];
  }

  /** One row pass: reads x, A and b only, and writes each row of xtmp once. */
  method RowPass(A: array<real>, b: array<real>, x: array<real>, xtmp: array<real>, n: nat)
    requires A.Length == n * n && b.Length == n && x.Length == n && xtmp.Length == n
    requires xtmp != x && xtmp != A && xtmp != b
    requires DiagNonZero(A[..], n)
    modifies xtmp
    ensures xtmp[..] == JacobiStep(A[..], b[..], x[..], n)
  {
    var row := 0;
    while row < n
      invariant row <= n
      invariant forall r :: 0 <= r < row ==> xtmp[r] == JacobiRow(A[..], b[..], x[..], n, r)
    {
      var v := UpdatedEntry(A, b, x, n, row);
      xtmp[row] := v;
      row := row + 1;
    }
  }

  /** The row pass with rows taken in any order, each possibly more than once, as
      a parallel loop may hand them to its threads: the result does not depend on
      the schedule, because no row reads what another row writes. */
  method RowPassScheduled(A: array<real>, b: array<real>, x: array<real>, xtmp: array<real>, n: nat,
                          schedule: seq<nat>)
    requires A.Length == n * n && b.Length == n && x.Length == n && xtmp.Length == n
    requires xtmp != x && xtmp != A && xtmp != b
    requires DiagNonZero(A[..], n)
    requires forall i :: 0 <= i < |schedule| ==> schedule[i] < n
    requires forall r :: 0 <= r < n ==> r in schedule
    modifies xtmp
    ensures xtmp[..] == JacobiStep(A[..], b[..], x[..], n)
  {
    var i := 0;
    while i < |schedule|
      invariant i <= |schedule|
      invariant forall r :: 0 <= r < n && r in schedule[..i] ==> xtmp[r] == JacobiRow(A[..], b[..], x[..], n, r)
    {
      var row := schedule[i];
      var v := UpdatedEntry(A, b, x, n, row);
      xtmp[row] := v;
      assert schedule[..i + 1] == schedule[..i] + [row];
      i := i + 1;
    }
    assert schedule[..i] == schedule;
  }

  /** The convergence measure: the sum of the squared differences between the
      previous iterate (xold) and the new one (xnew). */
  method SquaredDifference(xold: array<real>, xnew: array<real>, n: nat) returns (sqdiff: real)
    requires xold.Length == n && xnew.Length == n
    ensures sqdiff == SquaredChange(xold[..], xnew[..])
  {
    sqdiff := 0.0;
    var row := 0;
    while row < n
      invariant row <= n
      invariant sqdiff == SumSquares(xold[..], xnew[..], row)
    {
      var diff := xold[row] - xnew[row];
      sqdiff := sqdiff + diff * diff;
      row := row + 1;
    }
  }

  /** The Jacobi solve. Returns the number of iterations performed. Iterate k is
      the k-th Jacobi step from the caller's initial x; the buffers only swap
      roles, so the caller's x holds the final iterate when the count is even and
      the caller's xtmp holds it when the count is odd. */
  method Run(A: array<real>, b: array<real>, x: array<real>, xtmp: array<real>, n: nat,
             maxIterations: int, threshold: real)
    returns (itr: nat)
    requires A.Length == n * n && b.Length == n && x.Length == n && xtmp.Length == n
    requires x != xtmp && x != A && x != b && xtmp != A && xtmp != b
    requires DiagNonZero(A[..], n)
    modifies x, xtmp
    ensures 1 <= itr
    ensures maxIterations >= 1 ==> itr <= maxIterations
    ensures maxIterations <= 1 ==> itr == 1
    ensures forall k :: 1 <= k < itr ==> Continues(A[..], b[..], old(x[..]), n, maxIterations, threshold, k)
    ensures !Continues(A[..], b[..], old(x[..]), n, maxIterations, threshold, itr)
    ensures itr < maxIterations ==>
              !AboveThreshold(SquaredChange(Iterate(A[..], b[..], old(x[..]), n, itr - 1),
                                            Iterate(A[..], b[..], old(x[..]), n, itr)), threshold)
    ensures itr % 2 == 0 ==> x[..] == Iterate(A[..], b[..], old(x[..]), n, itr)
                             && xtmp[..] == Iterate(A[..], b[..], old(x[..]), n, itr - 1)
    ensures itr % 2 == 1 ==> xtmp[..] == Iterate(A[..], b[..], old(x[..]), n, itr)
                             && x[..] == Iterate(A[..], b[..], old(x[..]), n, itr - 1)
  {
    ghost var As, bs, x0 := A[..], b[..], x[..];
    var cur, next := x, xtmp;
    itr := 0;
    while true
      invariant A[..] == As && b[..] == bs
      invariant itr % 2 == 0 ==> cur == x && next == xtmp
      invariant itr % 2 == 1 ==> cur == xtmp && next == x
      invariant cur[..] == Iterate(As, bs, x0, n, itr)
      invariant forall k :: 1 <= k <= itr ==> Continues(As, bs, x0, n, maxIterations, threshold, k)
      decreases maxIterations - itr
    {
      RowPass(A, b, cur, next, n);
      cur, next := next, cur;
      var sqdiff := SquaredDifference(next, cur, n);
      itr := itr + 1;
      if !(itr < maxIterations && AboveThreshold(sqdiff, threshold)) {
        break;
      }
    }
    if itr >= 2 {
      assert Continues(As, bs, x0, n, maxIterations, threshold, 1);
      assert Continues(As, bs, x0, n, maxIterations, threshold, itr - 1);
    }
  }

  /** `main` warns that the solution did not converge exactly when the count
      equals the iteration cap. */
  predicate WarnsNonConvergence(itr: int, maxIterations: int)
  {
    itr == maxIterations
  }

  /** What the absence of the warning says about a run, given what Run
      guarantees: with a cap of at least one, the loop stopped before the cap,
      and the last step moved the iterate by at most the threshold. */
  lemma WarningMeaning(A: seq<real>, b: seq<real>, x0: seq<real>, n: nat,
                       maxIterations: int, threshold: real, itr: nat)
    requires Shaped(A, b, x0, n) && DiagNonZero(A, n)
    requires 1 <= itr
    requires forall k :: 1 <= k < itr ==> Continues(A, b, x0, n, maxIterations, threshold, k)
    requires !Continues(A, b, x0, n, maxIterations, threshold, itr)
    ensures maxIterations >= 1 && !WarnsNonConvergence(itr, maxIterations) ==>
              itr < maxIterations
              && threshold >= 0.0
              && SquaredChange(Iterate(A, b, x0, n, itr - 1), Iterate(A, b, x0, n, itr))
                 <= threshold * threshold
  {
    if itr > 1 {
      assert Continues(A, b, x0, n, maxIterations, threshold, itr - 1);
    }
  }

  /** The warning does not mean the iterate moved: with a cap of one, a run
      that starts from an exact solution performs one iteration, changes
      nothing, and is still reported as not converged. */
  lemma WarningDespiteExactSolution(A: seq<real>, b: seq<real>, x0: seq<real>, n: nat,
                                    threshold: real, itr: nat)
    requires Shaped(A, b, x0, n) && DiagNonZero(A, n)
    requires Solves(A, b, x0, n) && threshold >= 0.0
    requires 1 <= itr
    requires forall k :: 1 <= k < itr ==> Continues(A, b, x0, n, 1, threshold, k)
    requires !Continues(A, b, x0, n, 1, threshold, itr)
    ensures itr == 1 && WarnsNonConvergence(itr, 1)
    ensures Iterate(A, b, x0, n, itr) == x0
    ensures SquaredChange(Iterate(A, b, x0, n, itr - 1), Iterate(A, b, x0, n, itr)) == 0.0
  {
    if itr > 1 {
      assert Continues(A, b, x0, n, 1, threshold, 1);
    }
    SolutionStopsAfterOneStep(A, b, x0, n, 1, threshold);
    SumSquaresZeroIff(x0, x0, n);
  }
}
