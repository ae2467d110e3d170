/** The perspective correction of the detected canvas: the component that keeps the source quad
    (the corners of the normalized frame) and the destination quad (the detected canvas corners),
    builds the 8×8 system of the four correspondences and solves it by Gaussian elimination with
    partial pivoting and back substitution. */
module Perspective {
  import opened LinearSystem
  import opened Homography

  /** The singularity threshold of the projection. The source compares pivots with the smallest
      positive double; over exact reals its counterpart is zero, so a pivot is accepted exactly
      when it is nonzero. */
  const PivotThreshold: real := 0.0

  /** The destination quad: corner k is (points[2k] / width, points[2k+1] / height). */
  function NormalizedCorners(points: seq<real>, videoWidth: int, videoHeight: int): (corners: seq<Point>)
    requires |points| >= 8 && videoWidth != 0 && videoHeight != 0
    ensures |corners| == 4
    ensures forall k :: 0 <= k < 4 ==>
      corners[k] == Point(points[2 * k] / videoWidth as real, points[2 * k + 1] / videoHeight as real)
  {
    var w, h := videoWidth as real, videoHeight as real;
    [Point(points[0] / w, points[1] / h), Point(points[2] / w, points[3] / h),
     Point(points[4] / w, points[5] / h), Point(points[6] / w, points[7] / h)]
  }

  class PerspectiveProjection {
    var srcPts: seq<Point>
    var dstPts: seq<Point>

    /** Both point lists start empty. */
    constructor ()
      ensures srcPts == [] && dstPts == []
    {
      srcPts := [];
      dstPts := [];
    }

    /** Replaces the source quad by the corners of the normalized frame. */
    method InitializeMatrix()
      modifies this
      ensures srcPts == UnitSquare && dstPts == old(dstPts)
    {
      srcPts := [];
      srcPts := srcPts + [Point(0.0, 0.0)];
      srcPts := srcPts + [Point(1.0, 0.0)];
      srcPts := srcPts + [Point(0.0, 1.0)];
      srcPts := srcPts + [Point(1.0, 1.0)];
    }

    /** Replaces the destination quad by the detected corners divided by the frame size and
        solves for the transform sending the source quad onto it. The result is a transform
        exactly when the system is nonsingular. The transform then satisfies the four
        correspondences multiplied out by their denominators, and it sends every source corner
        whose denominator is nonzero onto its destination corner. */
    method GetMatrix(points: array<real>, videoWidth: int, videoHeight: int) returns (m: SolveResult)
      requires points.Length >= 8 && videoWidth != 0 && videoHeight != 0 && |srcPts| >= 4
      modifies this
      ensures srcPts == old(srcPts)
      ensures dstPts == NormalizedCorners(points[..], videoWidth, videoHeight)
      ensures m.Solved? <==> Nonsingular(SystemMatrix(srcPts, dstPts))
      ensures m.Solved? ==>
        |m.coefficients| == 8 && forall k :: 0 <= k < 4 ==> MapsLinear(m.coefficients, srcPts[k], dstPts[k])
      ensures m.Solved? ==> forall k :: 0 <= k < 4 && Denominator(m.coefficients, srcPts[k]) != 0.0 ==>
        Project(m.coefficients, srcPts[k]) == dstPts[k]
    {
      var w, h := videoWidth as real, videoHeight as real;
      ghost var corners := NormalizedCorners(points[..], videoWidth, videoHeight);
      dstPts := [];
      dstPts := dstPts + [Point(points[0] / w, points[1] / h)];
      dstPts := dstPts + [Point(points[2] / w, points[3] / h)];
      dstPts := dstPts + [Point(points[4] / w, points[5] / h)];
      dstPts := dstPts + [Point(points[6] / w, points[7] / h)];
      assert dstPts == corners;
      m := GenerateMatrix(srcPts, dstPts);
      if m.Solved? {
        SystemEncodesCorrespondences(srcPts, dstPts, m.coefficients);
        forall k | 0 <= k < 4 && Denominator(m.coefficients, srcPts[k]) != 0.0
          ensures Project(m.coefficients, srcPts[k]) == dstPts[k]
        {
          ProjectMapsExactly(m.coefficients, srcPts[k], dstPts[k]);
        }
      }
    }

    /** Builds the system of the four correspondences and solves it: a solution is returned
        exactly when the system is nonsingular, and it is then a solution of the system, so it
        sends every source corner with a nonzero denominator onto its destination. */
    static method GenerateMatrix(src: seq<Point>, dst: seq<Point>) returns (m: SolveResult)
      requires |src| >= 4 && |dst| >= 4
      ensures m.Solved? <==> Nonsingular(SystemMatrix(src, dst))
      ensures m.Solved? ==>
        |m.coefficients| == 8 && Solves(SystemMatrix(src, dst), SystemRhs(src, dst), m.coefficients)
      ensures m.Solved? ==> forall k :: 0 <= k < 4 && Denominator(m.coefficients, src[k]) != 0.0 ==>
        Project(m.coefficients, src[k]) == dst[k]
    {
      var A, B := BuildSystem(src, dst);
      m := GaussianElimination(A, B, PivotThreshold);
      if m.Solved? {
        SystemEncodesCorrespondences(src, dst, m.coefficients);
        forall k | 0 <= k < 4 && Denominator(m.coefficients, src[k]) != 0.0
          ensures Project(m.coefficients, src[k]) == dst[k]
        {
          ProjectMapsExactly(m.coefficients, src[k], dst[k]);
        }
      }
    }

    /** Fills fresh 8×8 and 8-element arrays with the system of the four correspondences: row i
        is the x equation and row i + 4 the y equation of correspondence i. */
    static method BuildSystem(src: seq<Point>, dst: seq<Point>) returns (A: array2<real>, B: array<real>)
      requires |src| >= 4 && |dst| >= 4
      ensures fresh(A) && fresh(B) && A.Length0 == A.Length1 == B.Length == 8
      ensures Mat(A) == SystemMatrix(src, dst) && B[..] == SystemRhs(src, dst)
    {
      A := new real[8, 8];
      B := new real[8];
      for i := 0 to 4
        invariant forall k, j :: 0 <= k < i && 0 <= j < 8 ==>
          A[k, j] == XRow(src[k], dst[k])[j] && A[k + 4, j] == YRow(src[k], dst[k])[j]
        invariant forall k :: 0 <= k < i ==> B[k] == dst[k].x && B[k + 4] == dst[k].y
      {
        FillCorrespondence(A, B, i, src[i], dst[i]);
      }
      MatrixExtensionality(Mat(A), SystemMatrix(src, dst));
    }

    /** Writes rows i and i + 4 of A and entries i and i + 4 of B: the equations of the
        correspondence s -> d. */
    static method FillCorrespondence(A: array2<real>, B: array<real>, i: nat, s: Point, d: Point)
      requires A.Length0 == A.Length1 == B.Length == 8 && i < 4
      modifies A, B
      ensures forall c :: 0 <= c < 8 ==> A[i, c] == XRow(s, d)[c] && A[i + 4, c] == YRow(s, d)[c]
      ensures forall r, c :: 0 <= r < 8 && r != i && r != i + 4 && 0 <= c < 8 ==> A[r, c] == old(A[r, c])
      ensures B[..] == old(B[..])[i := d.x][i + 4 := d.y]
    {
      FillXEquation(A, B, i, s, d);
      FillYEquation(A, B, i, s, d);
    }

    /** Row i of A and entry i of B: the x equation of s -> d. */
    static method FillXEquation(A: array2<real>, B: array<real>, i: nat, s: Point, d: Point)
      requires A.Length0 == A.Length1 == B.Length == 8 && i < 4
      modifies A, B
      ensures forall c :: 0 <= c < 8 ==> A[i, c] == XRow(s, d)[c]
      ensures forall r, c :: 0 <= r < 8 && r != i && 0 <= c < 8 ==> A[r, c] == old(A[r, c])
      ensures B[..] == old(B[..])[i := d.x]
    {
      A[i, 0] := s.x;
      A[i, 1] := s.y;
      A[i, 2] := 1.0;
      A[i, 3], A[i, 4], A[i, 5] := 0.0, 0.0, 0.0;
      A[i, 6] := -s.x * d.x;
      A[i, 7] := -s.y * d.x;
      B[i] := d.x;
    }

    /** Row i + 4 of A and entry i + 4 of B: the y equation of s -> d. */
    static method FillYEquation(A: array2<real>, B: array<real>, i: nat, s: Point, d: Point)
      requires A.Length0 == A.Length1 == B.Length == 8 && i < 4
      modifies A, B
      ensures forall c :: 0 <= c < 8 ==> A[i + 4, c] == YRow(s, d)[c]
      ensures forall r, c :: 0 <= r < 8 && r != i + 4 && 0 <= c < 8 ==> A[r, c] == old(A[r, c])
      ensures B[..] == old(B[..])[i + 4 := d.y]
    {
      A[i + 4, 0], A[i + 4, 1], A[i + 4, 2] := 0.0, 0.0, 0.0;
      A[i + 4, 3] := s.x;
      A[i + 4, 4] := s.y;
      A[i + 4, 5] := 1.0;
      A[i + 4, 6] := -s.x * d.y;
      A[i + 4, 7] := -s.y * d.y;
      B[i + 4] := d.y;
    }

    /** Gaussian elimination with partial pivoting, in place, followed by back substitution.
        The arrays always hold a system with the same solutions and kernel as the original one.
        On success the result solves the original system, which is then nonsingular; on failure
        some column has no pivot larger than eps, and with eps = 0 the original system is
        singular. */
    static method GaussianElimination(A: array2<real>, B: array<real>, eps: real) returns (m: SolveResult)
      requires A.Length0 == B.Length && A.Length1 == B.Length && 0.0 <= eps
      modifies A, B
      ensures Equivalent(old(Mat(A)), old(B[..]), Mat(A), B[..])
      ensures m.Solved? ==>
        && |m.coefficients| == B.Length
        && Solves(old(Mat(A)), old(B[..]), m.coefficients)
        && Nonsingular(old(Mat(A)))
        && ReducedTo(Mat(A), B.Length) && PivotsAbove(Mat(A), B.Length, eps)
      ensures m.SingularMatrix? ==> exists p :: 0 <= p < B.Length &&
                                                ReducedTo(Mat(A), p) && PivotsAbove(Mat(A), p, eps) &&
                                                ColumnNegligible(Mat(A), p, eps)
      ensures m.SingularMatrix? && eps == 0.0 ==> !Nonsingular(old(Mat(A)))
    {
      var N := B.Length;
      ghost var M0, b0 := Mat(A), B[..];
      for p := 0 to N
        invariant Equivalent(M0, b0, Mat(A), B[..])
        invariant ReducedTo(Mat(A), p) && PivotsAbove(Mat(A), p, eps)
      {
        var max := FindPivot(A, p);
        ghost var M1, b1 := Mat(A), B[..];
        SwapPivotRow(A, B, p, max);
        SwapKeepsEquations(M1, b1, p, max);
        EquivalentTransitive(M0, b0, M1, b1, Mat(A), B[..]);
        if Abs(A[p, p]) <= eps {
          m := SingularMatrix;
          PivotRejectedIffColumnNegligible(M1, p, max, eps);
          if eps == 0.0 {
            VanishingColumnIsSingular(Mat(A), p);
            EquivalentKeepsNonsingular(M0, b0, Mat(A), B[..]);
          }
          return;
        }
        SwapKeepsReduction(M1, p, max, eps);
        ghost var M2, b2 := Mat(A), B[..];
        EliminateBelow(A, B, p);
        EliminateExtendsReduction(M2, p, eps);
        EliminateKeepsSolutions(M2, b2, p);
        EquivalentTransitive(M0, b0, M2, b2, Mat(A), B[..]);
      }
      assert PivotsAbove(Mat(A), N, 0.0);
      var x := BackSubstitute(A, B);
      m := Solved(x);
      TriangularNonsingular(Mat(A));
      EquivalentKeepsNonsingular(M0, b0, Mat(A), B[..]);
    }

    /** The row, from p down, whose entry in column p is largest in magnitude; the first such
        row on a tie. */
    static method FindPivot(A: array2<real>, p: nat) returns (max: nat)
      requires p < A.Length0 && p < A.Length1
      ensures p <= max < A.Length0
      ensures forall i :: p <= i < A.Length0 ==> Abs(A[i, p]) <= Abs(A[max, p])
      ensures forall i :: p <= i < max ==> Abs(A[i, p]) < Abs(A[max, p])
    {
      max := p;
      for i := p + 1 to A.Length0
        invariant p <= max < i
        invariant forall k :: p <= k < i ==> Abs(A[k, p]) <= Abs(A[max, p])
        invariant forall k :: p <= k < max ==> Abs(A[k, p]) < Abs(A[max, p])
      {
        if Abs(A[i, p]) > Abs(A[max, p]) {
          max := i;
        }
      }
    }

    /** Exchanges rows p and q of A, through a scratch row, and entries p and q of B. */
    static method SwapPivotRow(A: array2<real>, B: array<real>, p: nat, q: nat)
      requires A.Length0 == B.Length && p < B.Length && q < B.Length
      modifies A, B
      ensures Mat(A) == Swapped(old(Mat(A)), p, q) && B[..] == Swapped(old(B[..]), p, q)
    {
      var N := A.Length1;
      ghost var M0 := Mat(A);
      ghost var S, b0 := Swapped(M0, p, q), B[..];
      var temp := new real[N];
      for i := 0 to N
        modifies A, temp
        invariant forall r, c :: 0 <= r < A.Length0 && 0 <= c < N ==>
          A[r, c] == if c < i then S[r][c] else M0[r][c]
      {
        temp[i] := A[p, i];
        A[p, i] := A[q, i];
        A[q, i] := temp[i];
      }
      var t := B[p];
      B[p] := B[q];
      B[q] := t;
      assert forall k :: 0 <= k < B.Length ==> B[..][k] == Swapped(b0, p, q)[k];
      assert B[..] == Swapped(b0, p, q);
      MatrixExtensionality(Mat(A), S);
    }

    /** Subtracts, from every row below p, the multiple of row p that clears its entry in column
        p, and the same multiple of B[p] from its right-hand side. */
    static method EliminateBelow(A: array2<real>, B: array<real>, p: nat)
      requires A.Length0 == B.Length && A.Length1 == B.Length && p < B.Length && A[p, p] != 0.0
      modifies A, B
      ensures Mat(A) == EliminateMatrix(old(Mat(A)), p)
      ensures B[..] == EliminateRhs(old(Mat(A)), old(B[..]), p)
    {
      var N := B.Length;
      ghost var M0, b0 := Mat(A), B[..];
      ghost var E, e := EliminateMatrix(M0, p), EliminateRhs(M0, b0, p);
      for i := p + 1 to N
        invariant forall r :: 0 <= r < N ==> Mat(A)[r] == if p < r < i then E[r] else M0[r]
        invariant forall r :: p < r < i ==> B[r] == e[r]
        invariant forall r :: 0 <= r <= p || i <= r < N ==> B[r] == b0[r]
      {
        assert A[i, p] == M0[i][p] && A[p, p] == M0[p][p] by {
          assert Mat(A)[i] == M0[i] && Mat(A)[p] == M0[p];
        }
        var alpha := A[i, p] / A[p, p];
        var bi, bp := B[i], B[p];
        EliminationFactorAt(M0, b0, p, i, alpha, bi, bp);
        B[i] := bi - alpha * bp;
        SubtractScaledRow(A, i, p, alpha);
      }
      assert Mat(A) == E;
    }

    /** Row i of A minus alpha times row p, from column p on: the inner loop of the
        elimination. */
    static method SubtractScaledRow(A: array2<real>, i: nat, p: nat, alpha: real)
      requires p < i < A.Length0 && A.Length1 == A.Length0
      modifies A
      ensures Mat(A) == old(Mat(A))[i := EliminateRow(old(Mat(A))[i], old(Mat(A))[p], alpha, p)]
    {
      ghost var M0 := Mat(A);
      ghost var R := EliminateRow(M0[i], M0[p], alpha, p);
      for j := p to A.Length1
        invariant forall r, c :: 0 <= r < A.Length0 && r != i && 0 <= c < A.Length1 ==> A[r, c] == M0[r][c]
        invariant forall c :: 0 <= c < j ==> A[i, c] == R[c]
        invariant forall c :: j <= c < A.Length1 ==> A[i, c] == M0[i][c]
      {
        assert R[j] == M0[i][j] - alpha * M0[p][j];
        A[i, j] := A[i, j] - alpha * A[p, j];
      }
      MatrixExtensionality(Mat(A), M0[i := R]);
    }

    /** Solves an upper-triangular system with nonzero diagonal from the last row up. */
    static method BackSubstitute(A: array2<real>, B: array<real>) returns (x: seq<real>)
      requires A.Length0 == B.Length && A.Length1 == B.Length
      requires ReducedTo(Mat(A), B.Length) && PivotsAbove(Mat(A), B.Length, 0.0)
      ensures |x| == B.Length && Solves(Mat(A), B[..], x)
    {
      var N := B.Length;
      ghost var M, b := Mat(A), B[..];
      var X := new real[N](_ => 0.0);
      var i: int := N - 1;
      while i >= 0
        invariant -1 <= i < N
        invariant X[..] == BackSolve(M, b, Zeros(N), i + 1, N)
      {
        ghost var y := X[..];
        var sum := SumAfterDiagonal(A, X, i);
        ghost var v := (b[i] - SumRange(M[i], y, i + 1, N)) / M[i][i];
        assert (B[i] - sum) / A[i, i] == v by {
          assert B[i] == b[i] && A[i, i] == M[i][i];
        }
        X[i] := (B[i] - sum) / A[i, i];
        assert X[..] == y[i := v];
        BackSolveStep(M, b, Zeros(N), i, N, v);
        i := i - 1;
      }
      x := X[..];
      BackSolveSolves(M, b, Zeros(N), 0, N);
    }

    /** The known part of row i in back substitution: A[i, j] * X[j] summed over the columns
        after the diagonal. */
    static method SumAfterDiagonal(A: array2<real>, X: array<real>, i: nat) returns (sum: real)
      requires i < A.Length0 && A.Length1 == X.Length && i < X.Length
      ensures sum == SumRange(Mat(A)[i], X[..], i + 1, X.Length)
    {
      ghost var r, y := Mat(A)[i], X[..];
      sum := 0.0;
      for j := i + 1 to X.Length
        invariant sum == SumRange(r, y, i + 1, j)
      {
        assert A[i, j] == r[j] && X[j] == y[j];
        sum := sum + A[i, j] * X[j];
      }
    }
  }

  /** Swapping two rows from p down keeps the first p columns reduced with their pivots. */
  lemma SwapKeepsReduction(M: Matrix, p: nat, q: nat, eps: real)
    requires IsSquare(M, |M|) && p <= q < |M|
    requires ReducedTo(M, p) && PivotsAbove(M, p, eps)
    ensures ReducedTo(Swapped(M, p, q), p) && PivotsAbove(Swapped(M, p, q), p, eps)
  {
  }

  /** Eliminating below a pivot larger than eps extends the reduction by one column. */
  lemma EliminateExtendsReduction(M: Matrix, p: nat, eps: real)
    requires IsSquare(M, |M|) && p < |M| && 0.0 <= eps && Abs(M[p][p]) > eps
    requires ReducedTo(M, p) && PivotsAbove(M, p, eps)
    ensures ReducedTo(EliminateMatrix(M, p), p + 1) && PivotsAbove(EliminateMatrix(M, p), p + 1, eps)
  {
  }

  /** After swapping the pivot row p with the row q of largest magnitude in column p, the
      pivot is no larger than eps exactly when no entry of column p from row p down is larger
      than eps; the reduction of the first p columns is untouched either way. */
  lemma PivotRejectedIffColumnNegligible(M: Matrix, p: nat, q: nat, eps: real)
    requires IsSquare(M, |M|) && p <= q < |M|
    requires ReducedTo(M, p) && PivotsAbove(M, p, eps)
    requires forall i :: p <= i < |M| ==> Abs(M[i][p]) <= Abs(M[q][p])
    ensures Abs(Swapped(M, p, q)[p][p]) <= eps <==> ColumnNegligible(Swapped(M, p, q), p, eps)
    ensures ReducedTo(Swapped(M, p, q), p) && PivotsAbove(Swapped(M, p, q), p, eps)
  {
    var S := Swapped(M, p, q);
    if Abs(S[p][p]) <= eps {
      forall i | p <= i < |M| ensures Abs(S[i][p]) <= eps {
        if i == q {
          assert S[i] == M[p];
        } else if i != p {
          assert S[i] == M[i];
        }
      }
    }
  }
}
