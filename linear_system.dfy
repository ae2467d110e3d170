/** Exact linear algebra over the reals for the perspective solver: dot products, what it means
    for a vector to solve a system, the row operations Gaussian elimination performs, and back
    substitution. Everything here is a value; the array code in module Perspective is proved
    against these definitions. */
module LinearSystem {

  type Vector = seq<real>
  type Matrix = seq<seq<real>>

  /** The outcome of a solve: the coefficients, or the source's "singular or nearly singular" throw. */
  datatype SolveResult = Solved(coefficients: Vector) | SingularMatrix

  function Abs(x: real): real {
    if x < 0.0 then -x else x
  }

  ghost predicate IsSquare(M: Matrix, n: nat) {
    |M| == n && forall i :: 0 <= i < n ==> |M[i]| == n
  }

  function Zeros(n: nat): (z: Vector)
    ensures |z| == n && forall j :: 0 <= j < n ==> z[j] == 0.0
  {
    seq(n, _ => 0.0)
  }

  ghost predicate IsZero(x: Vector) {
    forall j :: 0 <= j < |x| ==> x[j] == 0.0
  }

  // ---------------------------------------------------------------------------------------------
  // Dot products

  /** u[lo]*x[lo] + ... + u[hi-1]*x[hi-1], accumulated left to right. */
  function SumRange(u: Vector, x: Vector, lo: nat, hi: nat): real
    requires lo <= hi <= |u| && hi <= |x|
    decreases hi - lo
  {
    if lo == hi then 0.0 else SumRange(u, x, lo, hi - 1) + u[hi - 1] * x[hi - 1]
  }

  function Dot(u: Vector, x: Vector): real
    requires |u| == |x|
  {
    SumRange(u, x, 0, |u|)
  }

  lemma {:induction false} SumRangeSplit(u: Vector, x: Vector, lo: nat, mid: nat, hi: nat)
    requires lo <= mid <= hi <= |u| && hi <= |x|
    ensures SumRange(u, x, lo, hi) == SumRange(u, x, lo, mid) + SumRange(u, x, mid, hi)
    decreases hi - mid
  {
    if mid < hi {
      SumRangeSplit(u, x, lo, mid, hi - 1);
    }
  }

  /** A sum depends only on the products over its range. */
  lemma {:induction false} SumRangeCongruent(u: Vector, x: Vector, v: Vector, y: Vector, lo: nat, hi: nat)
    requires lo <= hi <= |u| && hi <= |x| && hi <= |v| && hi <= |y|
    requires forall j :: lo <= j < hi ==> u[j] * x[j] == v[j] * y[j]
    ensures SumRange(u, x, lo, hi) == SumRange(v, y, lo, hi)
    decreases hi - lo
  {
    if lo < hi {
      SumRangeCongruent(u, x, v, y, lo, hi - 1);
    }
  }

  lemma {:induction false} SumRangeZero(u: Vector, x: Vector, lo: nat, hi: nat)
    requires lo <= hi <= |u| && hi <= |x|
    requires forall j :: lo <= j < hi ==> u[j] == 0.0 || x[j] == 0.0
    ensures SumRange(u, x, lo, hi) == 0.0
    decreases hi - lo
  {
    if lo < hi {
      SumRangeZero(u, x, lo, hi - 1);
    }
  }

  /** Linearity: if every product of the third pair is the first minus a times the second,
      so are the sums. Covers both a row combination and a difference of two vectors. */
  lemma {:induction false} SumRangeLinear(u1: Vector, x1: Vector, u2: Vector, x2: Vector,
                                          u3: Vector, x3: Vector, a: real, lo: nat, hi: nat)
    requires lo <= hi
    requires hi <= |u1| && hi <= |x1| && hi <= |u2| && hi <= |x2| && hi <= |u3| && hi <= |x3|
    requires forall j :: lo <= j < hi ==> u3[j] * x3[j] == u1[j] * x1[j] - a * (u2[j] * x2[j])
    ensures SumRange(u3, x3, lo, hi) == SumRange(u1, x1, lo, hi) - a * SumRange(u2, x2, lo, hi)
    decreases hi - lo
  {
    if lo < hi {
      SumRangeLinear(u1, x1, u2, x2, u3, x3, a, lo, hi - 1);
      var k := hi - 1;
      assert u3[k] * x3[k] == u1[k] * x1[k] - a * (u2[k] * x2[k]);
    }
  }

  // ---------------------------------------------------------------------------------------------
  // Systems and their solutions

  /** M x == t b row by row. With t = 1 this says that x solves the system; with t = 0 that x is
      in the kernel of M. */
  ghost predicate Satisfies(M: Matrix, b: Vector, x: Vector, t: real) {
    |b| == |M| && forall i :: 0 <= i < |M| ==> |M[i]| == |x| && Dot(M[i], x) == t * b[i]
  }

  ghost predicate Solves(M: Matrix, b: Vector, x: Vector) {
    Satisfies(M, b, x, 1.0)
  }

  ghost predicate InKernel(M: Matrix, x: Vector) {
    forall i :: 0 <= i < |M| ==> |M[i]| == |x| && Dot(M[i], x) == 0.0
  }

  /** Only the zero vector is mapped to zero: the system has at most one solution. */
  ghost predicate Nonsingular(M: Matrix) {
    forall x :: |x| == |M| && InKernel(M, x) ==> IsZero(x)
  }

  /** Two systems with the same solutions and the same kernel. */
  ghost predicate Equivalent(M0: Matrix, b0: Vector, M: Matrix, b: Vector) {
    forall x, t :: Satisfies(M0, b0, x, t) <==> Satisfies(M, b, x, t)
  }

  lemma EquivalentTransitive(M0: Matrix, b0: Vector, M1: Matrix, b1: Vector, M2: Matrix, b2: Vector)
    requires Equivalent(M0, b0, M1, b1) && Equivalent(M1, b1, M2, b2)
    ensures Equivalent(M0, b0, M2, b2)
  {
  }

  /** Equivalent systems have the same kernel, so one is nonsingular exactly when the other is. */
  lemma EquivalentKeepsNonsingular(M0: Matrix, b0: Vector, M: Matrix, b: Vector)
    requires Equivalent(M0, b0, M, b) && |b0| == |M0| && |b| == |M| && |M0| == |M|
    ensures Nonsingular(M0) <==> Nonsingular(M)
  {
    forall x ensures InKernel(M0, x) <==> InKernel(M, x) {
      KernelIsScaledZero(M0, b0, x);
      KernelIsScaledZero(M, b, x);
      assert Satisfies(M0, b0, x, 0.0) <==> Satisfies(M, b, x, 0.0);
    }
  }

  lemma KernelIsScaledZero(M: Matrix, b: Vector, x: Vector)
    requires |b| == |M|
    ensures Satisfies(M, b, x, 0.0) <==> InKernel(M, x)
  {
  }

  /** A nonsingular system has at most one solution. */
  lemma {:induction false} SolutionUnique(M: Matrix, b: Vector, x: Vector, y: Vector)
    requires Nonsingular(M) && |x| == |M| && |y| == |M|
    requires Solves(M, b, x) && Solves(M, b, y)
    ensures x == y
  {
    var d := seq(|x|, j requires 0 <= j < |x| => x[j] - y[j]);
    forall i | 0 <= i < |M|
      ensures |M[i]| == |d| && Dot(M[i], d) == 0.0
    {
      SumRangeLinear(M[i], x, M[i], y, M[i], d, 1.0, 0, |d|);
    }
    assert InKernel(M, d);
    assert forall j :: 0 <= j < |x| ==> x[j] == y[j] by {
      forall j | 0 <= j < |x| ensures x[j] == y[j] {
        assert d[j] == 0.0;
      }
    }
  }

  // ---------------------------------------------------------------------------------------------
  // Row operations

  /** The sequence with the entries at p and q exchanged. */
  function Swapped<T>(s: seq<T>, p: nat, q: nat): (r: seq<T>)
    requires p < |s| && q < |s|
    ensures |r| == |s| && r[p] == s[q] && r[q] == s[p]
    ensures forall k :: 0 <= k < |s| && k != p && k != q ==> r[k] == s[k]
  {
    s[p := s[q]][q := s[p]]
  }

  /** An exchange only reorders: the multiset of entries is the same. */
  lemma SwappedPermutes<T>(s: seq<T>, p: nat, q: nat)
    requires p < |s| && q < |s|
    ensures multiset(Swapped(s, p, q)) == multiset(s)
  {
    if p != q {
      var lo, hi := if p < q then p else q, if p < q then q else p;
      SwappedAsSlices(s, p, q, lo, hi);
      ExchangeKeepsMultiset(s[..lo], s[lo], s[lo + 1..hi], s[hi], s[hi + 1..]);
    }
  }

  /** The sequence and its exchange, cut at the two exchanged positions. */
  lemma SwappedAsSlices<T>(s: seq<T>, p: nat, q: nat, lo: nat, hi: nat)
    requires p < |s| && q < |s| && lo < hi && {lo, hi} == {p, q}
    ensures s == s[..lo] + [s[lo]] + s[lo + 1..hi] + [s[hi]] + s[hi + 1..]
    ensures Swapped(s, p, q) == s[..lo] + [s[hi]] + s[lo + 1..hi] + [s[lo]] + s[hi + 1..]
  {
  }

  lemma ExchangeKeepsMultiset<T>(a: seq<T>, x: T, m: seq<T>, y: T, z: seq<T>)
    ensures multiset(a + [x] + m + [y] + z) == multiset(a + [y] + m + [x] + z)
  {
    calc {
      multiset(a + [x] + m + [y] + z);
      multiset(a) + multiset{x} + multiset(m) + multiset{y} + multiset(z);
      multiset(a) + multiset{y} + multiset(m) + multiset{x} + multiset(z);
      multiset(a + [y] + m + [x] + z);
    }
  }

  /** The (row, right-hand side) pairs of a system. */
  function Equations(M: Matrix, b: Vector): (e: seq<(Vector, real)>)
    requires |b| == |M|
    ensures |e| == |M| && forall i :: 0 <= i < |M| ==> e[i] == (M[i], b[i])
  {
    seq(|M|, i requires 0 <= i < |M| => (M[i], b[i]))
  }

  /** Exchanging two rows of both sides keeps the multiset of equations and the solutions. */
  lemma SwapKeepsEquations(M: Matrix, b: Vector, p: nat, q: nat)
    requires |b| == |M| && p < |M| && q < |M|
    ensures multiset(Equations(Swapped(M, p, q), Swapped(b, p, q))) == multiset(Equations(M, b))
    ensures Equivalent(M, b, Swapped(M, p, q), Swapped(b, p, q))
  {
    assert Equations(Swapped(M, p, q), Swapped(b, p, q)) == Swapped(Equations(M, b), p, q);
    SwappedPermutes(Equations(M, b), p, q);
    var M', b' := Swapped(M, p, q), Swapped(b, p, q);
    assert Swapped(M', p, q) == M && Swapped(b', p, q) == b;
    forall x, t
      ensures Satisfies(M, b, x, t) <==> Satisfies(M', b', x, t)
    {
      if Satisfies(M, b, x, t) {
        SwapKeepsSatisfied(M, b, p, q, x, t);
      }
      if Satisfies(M', b', x, t) {
        SwapKeepsSatisfied(M', b', p, q, x, t);
      }
    }
  }

  lemma SwapKeepsSatisfied(M: Matrix, b: Vector, p: nat, q: nat, x: Vector, t: real)
    requires |b| == |M| && p < |M| && q < |M|
    requires Satisfies(M, b, x, t)
    ensures Satisfies(Swapped(M, p, q), Swapped(b, p, q), x, t)
  {
    var M', b' := Swapped(M, p, q), Swapped(b, p, q);
    forall i | 0 <= i < |M'| ensures |M'[i]| == |x| && Dot(M'[i], x) == t * b'[i] {
      var k := if i == p then q else if i == q then p else i;
      assert M'[i] == M[k] && b'[i] == b[k];
    }
  }

  /** The elimination step for pivot p: every row i below p loses M[i][p] / M[p][p] times row p,
      on columns p and beyond; columns before p and rows up to p are left as they are. */
  function EliminateMatrix(M: Matrix, p: nat): (E: Matrix)
    requires IsSquare(M, |M|) && p < |M| && M[p][p] != 0.0
    ensures IsSquare(E, |M|)
    ensures forall i :: 0 <= i <= p ==> E[i] == M[i]
    ensures forall i :: p < i < |M| ==> E[i][p] == 0.0
    ensures forall i, j :: p < i < |M| && 0 <= j < p ==> E[i][j] == M[i][j]
  {
    seq(|M|, i requires 0 <= i < |M| =>
      if i <= p then M[i] else EliminateRow(M[i], M[p], M[i][p] / M[p][p], p))
  }

  /** Row r minus a times row s, on columns p and beyond. */
  function EliminateRow(r: Vector, s: Vector, a: real, p: nat): (e: Vector)
    requires |r| == |s|
    ensures |e| == |r|
    ensures forall j :: 0 <= j < |r| ==> e[j] == if j < p then r[j] else r[j] - a * s[j]
  {
    seq(|r|, j requires 0 <= j < |r| => if j < p then r[j] else r[j] - a * s[j])
  }

  function EliminateRhs(M: Matrix, b: Vector, p: nat): (c: Vector)
    requires IsSquare(M, |M|) && |b| == |M| && p < |M| && M[p][p] != 0.0
    ensures |c| == |b| && forall i :: 0 <= i <= p ==> c[i] == b[i]
  {
    seq(|b|, i requires 0 <= i < |b| => if i <= p then b[i] else b[i] - M[i][p] / M[p][p] * b[p])
  }

  /** Row i below the pivot after elimination, in terms of the factor alpha of that row. */
  lemma EliminationFactorAt(M: Matrix, b: Vector, p: nat, i: nat, alpha: real, bi: real, bp: real)
    requires IsSquare(M, |M|) && |b| == |M| && p < i < |M| && M[p][p] != 0.0
    requires alpha == M[i][p] / M[p][p] && bi == b[i] && bp == b[p]
    ensures EliminateMatrix(M, p)[i] == EliminateRow(M[i], M[p], alpha, p)
    ensures EliminateRhs(M, b, p)[i] == bi - alpha * bp
  {
  }

  /** When row p is already zero left of column p, the elimination step is a sum of full row
      operations, so it keeps the solutions and the kernel. */
  lemma {:induction false} EliminateKeepsSolutions(M: Matrix, b: Vector, p: nat)
    requires IsSquare(M, |M|) && |b| == |M| && p < |M| && M[p][p] != 0.0
    requires forall j :: 0 <= j < p ==> M[p][j] == 0.0
    ensures Equivalent(M, b, EliminateMatrix(M, p), EliminateRhs(M, b, p))
  {
    forall x, t
      ensures Satisfies(M, b, x, t) <==> Satisfies(EliminateMatrix(M, p), EliminateRhs(M, b, p), x, t)
    {
      EliminateKeepsSolutionsAt(M, b, p, x, t);
    }
  }

  /** The elimination step for one candidate solution x and scale t. */
  lemma EliminateKeepsSolutionsAt(M: Matrix, b: Vector, p: nat, x: Vector, t: real)
    requires IsSquare(M, |M|) && |b| == |M| && p < |M| && M[p][p] != 0.0
    requires forall j :: 0 <= j < p ==> M[p][j] == 0.0
    ensures Satisfies(M, b, x, t) <==> Satisfies(EliminateMatrix(M, p), EliminateRhs(M, b, p), x, t)
  {
    var n := |M|;
    var E, c := EliminateMatrix(M, p), EliminateRhs(M, b, p);
    assert E[p] == M[p] && c[p] == b[p];
    if |x| != n || Dot(M[p], x) != t * b[p] {
      assert !Satisfies(M, b, x, t) && !Satisfies(E, c, x, t);
    } else {
      forall i | 0 <= i < n
        ensures Dot(M[i], x) == t * b[i] <==> Dot(E[i], x) == t * c[i]
      {
        if p < i {
          EliminatedRowKeepsEquation(M, b, p, x, t, i);
        }
      }
      SatisfiesRowwise(M, b, E, c, x, t);
    }
  }

  /** One row below the pivot: given the pivot equation, the eliminated row holds exactly when
      the original row does. */
  lemma EliminatedRowKeepsEquation(M: Matrix, b: Vector, p: nat, x: Vector, t: real, i: nat)
    requires IsSquare(M, |M|) && |b| == |M| && p < i < |M| && M[p][p] != 0.0
    requires forall j :: 0 <= j < p ==> M[p][j] == 0.0
    requires |x| == |M| && Dot(M[p], x) == t * b[p]
    ensures Dot(M[i], x) == t * b[i] <==> Dot(EliminateMatrix(M, p)[i], x) == t * EliminateRhs(M, b, p)[i]
  {
    var a := M[i][p] / M[p][p];
    EliminatedRowFacts(M, b, p, x, i, a);
    RowStepKeepsEquation(Dot(M[i], x), Dot(M[p], x), Dot(EliminateMatrix(M, p)[i], x), a, t,
                         b[i], b[p], EliminateRhs(M, b, p)[i]);
  }

  /** Row i below the pivot after elimination, as a combination of row i and the pivot row. */
  lemma EliminatedRowFacts(M: Matrix, b: Vector, p: nat, x: Vector, i: nat, a: real)
    requires IsSquare(M, |M|) && |b| == |M| && p < i < |M| && M[p][p] != 0.0
    requires forall j :: 0 <= j < p ==> M[p][j] == 0.0
    requires |x| == |M| && a == M[i][p] / M[p][p]
    ensures Dot(EliminateMatrix(M, p)[i], x) == Dot(M[i], x) - a * Dot(M[p], x)
    ensures EliminateRhs(M, b, p)[i] == b[i] - a * b[p]
  {
    assert EliminateMatrix(M, p)[i] == EliminateRow(M[i], M[p], a, p);
    EliminatedRowDot(M[i], M[p], x, a, p);
  }

  /** Two systems of the same shape whose rows hold for x and t together are satisfied together. */
  lemma SatisfiesRowwise(M: Matrix, b: Vector, M': Matrix, b': Vector, x: Vector, t: real)
    requires |M'| == |M| == |b| == |b'|
    requires forall i :: 0 <= i < |M| ==> |M[i]| == |M'[i]| == |x|
    requires forall i :: 0 <= i < |M| ==> (Dot(M[i], x) == t * b[i] <==> Dot(M'[i], x) == t * b'[i])
    ensures Satisfies(M, b, x, t) <==> Satisfies(M', b', x, t)
  {
  }

  /** Subtracting a times a satisfied equation keeps another equation exactly when it held. */
  lemma RowStepKeepsEquation(di: real, dp: real, de: real, a: real, t: real, bi: real, bp: real, ci: real)
    requires de == di - a * dp && dp == t * bp && ci == bi - a * bp
    ensures di == t * bi <==> de == t * ci
  {
    assert t * ci == t * bi - a * (t * bp);
  }

  lemma EliminatedRowDot(r: Vector, s: Vector, x: Vector, a: real, p: nat)
    requires |r| == |s| == |x| && p <= |r|
    requires forall j :: 0 <= j < p ==> s[j] == 0.0
    ensures Dot(EliminateRow(r, s, a, p), x) == Dot(r, x) - a * Dot(s, x)
  {
    var e := EliminateRow(r, s, a, p);
    forall j | 0 <= j < |r| ensures e[j] * x[j] == r[j] * x[j] - a * (s[j] * x[j]) {
      assert e[j] == r[j] - a * s[j];
    }
    SumRangeLinear(r, x, s, x, e, x, a, 0, |r|);
  }

  // ---------------------------------------------------------------------------------------------
  // Triangular systems

  /** Columns 0..p-1 are zero below the diagonal. */
  ghost predicate ReducedTo(M: Matrix, p: nat) {
    forall i, j :: 0 <= j < p && j < i < |M| ==> j < |M[i]| && M[i][j] == 0.0
  }

  /** The pivots of columns 0..p-1 are larger than eps in magnitude. */
  ghost predicate PivotsAbove(M: Matrix, p: nat, eps: real) {
    forall j :: 0 <= j < p ==> j < |M| && j < |M[j]| && Abs(M[j][j]) > eps
  }

  /** Column p, from row p down, has no entry larger than eps in magnitude. */
  ghost predicate ColumnNegligible(M: Matrix, p: nat, eps: real) {
    forall i :: p <= i < |M| ==> p < |M[i]| && Abs(M[i][p]) <= eps
  }

  /** Back substitution over rows hi-1 down to lo, starting from x0: each entry is the right-hand
      side minus the already known part of its row, over the diagonal entry. */
  function BackSolve(M: Matrix, b: Vector, x0: Vector, lo: nat, hi: nat): (x: Vector)
    requires IsSquare(M, |x0|) && |b| == |x0| && lo <= hi <= |x0|
    requires forall k :: lo <= k < hi ==> M[k][k] != 0.0
    ensures |x| == |x0|
    decreases hi - lo
  {
    if lo == hi then x0
    else
      var y := BackSolve(M, b, x0, lo + 1, hi);
      y[lo := (b[lo] - SumRange(M[lo], y, lo + 1, |y|)) / M[lo][lo]]
  }

  /** One step of back substitution: row lo is solved for its diagonal unknown, given the
      unknowns after it. */
  lemma BackSolveStep(M: Matrix, b: Vector, x0: Vector, lo: nat, hi: nat, v: real)
    requires IsSquare(M, |x0|) && |b| == |x0| && lo < hi <= |x0|
    requires forall k :: lo <= k < hi ==> M[k][k] != 0.0
    requires v == (b[lo] - SumRange(M[lo], BackSolve(M, b, x0, lo + 1, hi), lo + 1, |x0|)) / M[lo][lo]
    ensures BackSolve(M, b, x0, lo, hi) == BackSolve(M, b, x0, lo + 1, hi)[lo := v]
  {
  }

  /** Back substitution solves every row it fills in, as long as those rows are zero left of the
      diagonal, and leaves the other entries of x0 alone. */
  lemma {:induction false} BackSolveSolves(M: Matrix, b: Vector, x0: Vector, lo: nat, hi: nat)
    requires IsSquare(M, |x0|) && |b| == |x0| && lo <= hi <= |x0|
    requires forall k :: lo <= k < hi ==> M[k][k] != 0.0
    requires forall k, j :: lo <= k < hi && 0 <= j < k ==> M[k][j] == 0.0
    ensures forall j :: 0 <= j < |x0| && !(lo <= j < hi) ==> BackSolve(M, b, x0, lo, hi)[j] == x0[j]
    ensures forall k :: lo <= k < hi ==> Dot(M[k], BackSolve(M, b, x0, lo, hi)) == b[k]
    decreases hi - lo
  {
    if lo < hi {
      var n := |x0|;
      BackSolveSolves(M, b, x0, lo + 1, hi);
      var y := BackSolve(M, b, x0, lo + 1, hi);
      var v := Quotient(b[lo] - SumRange(M[lo], y, lo + 1, n), M[lo][lo]);
      var x := y[lo := v];
      assert x == BackSolve(M, b, x0, lo, hi);
      forall k | lo < k < hi ensures Dot(M[k], x) == b[k] {
        RowIgnoresZeroColumn(M[k], y, lo, v);
      }
      SumRangeCongruent(M[lo], x, M[lo], y, lo + 1, n);
      PivotRowHolds(M[lo], x, lo, b[lo]);
    }
  }

  /** Changing an entry of x that meets a zero coefficient does not change the dot product. */
  lemma RowIgnoresZeroColumn(r: Vector, y: Vector, lo: nat, v: real)
    requires |r| == |y| && lo < |r| && r[lo] == 0.0
    ensures Dot(r, y[lo := v]) == Dot(r, y)
  {
    SumRangeCongruent(r, y[lo := v], r, y, 0, |r|);
  }

  /** A row zero left of its nonzero diagonal entry holds when that entry of x balances the
      rest of the row. */
  lemma PivotRowHolds(r: Vector, x: Vector, lo: nat, t: real)
    requires |r| == |x| && lo < |r|
    requires forall j :: 0 <= j < lo ==> r[j] == 0.0
    requires r[lo] * x[lo] == t - SumRange(r, x, lo + 1, |x|)
    ensures Dot(r, x) == t
  {
    SumRangeSplit(r, x, 0, lo + 1, |r|);
    SumRangeZero(r, x, 0, lo);
  }

  /** c / a, with the fact that multiplying it back by a gives c. */
  lemma Quotient(c: real, a: real) returns (v: real)
    requires a != 0.0
    ensures v == c / a && a * v == c
  {
    v := c / a;
  }

  /** If column p has nothing but zeros from row p down, in a matrix that is reduced up to p with
      nonzero pivots, the matrix has a nonzero kernel vector: x[p] = 1, zeros after p, and the
      entries before p found by back substitution. */
  lemma {:induction false} VanishingColumnIsSingular(M: Matrix, p: nat)
    requires IsSquare(M, |M|) && p < |M|
    requires ReducedTo(M, p) && PivotsAbove(M, p, 0.0) && ColumnNegligible(M, p, 0.0)
    ensures !Nonsingular(M)
  {
    var n := |M|;
    var x0 := Zeros(n)[p := 1.0];
    var x := BackSolve(M, Zeros(n), x0, 0, p);
    BackSolveSolves(M, Zeros(n), x0, 0, p);
    forall i | p <= i < n ensures Dot(M[i], x) == 0.0 {
      SumRangeZero(M[i], x, 0, n);
    }
    assert InKernel(M, x);
    assert x[p] == 1.0;
  }

  /** A reduced matrix with nonzero pivots in every column maps only zero to zero. */
  lemma TriangularNonsingular(M: Matrix)
    requires IsSquare(M, |M|) && ReducedTo(M, |M|) && PivotsAbove(M, |M|, 0.0)
    ensures Nonsingular(M)
  {
    forall x | |x| == |M| && InKernel(M, x) ensures IsZero(x) {
      TriangularKernelZeroFrom(M, x, 0);
    }
  }

  /** In the kernel of a reduced matrix with nonzero pivots, entries k.. are zero, by descending
      induction: row k reads pivot * x[k] plus entries already known to be zero. */
  lemma {:induction false} TriangularKernelZeroFrom(M: Matrix, x: Vector, k: nat)
    requires IsSquare(M, |M|) && ReducedTo(M, |M|) && PivotsAbove(M, |M|, 0.0)
    requires |x| == |M| && InKernel(M, x) && k <= |M|
    ensures forall j :: k <= j < |M| ==> x[j] == 0.0
    decreases |M| - k
  {
    var n := |M|;
    if k < n {
      TriangularKernelZeroFrom(M, x, k + 1);
      SumRangeSplit(M[k], x, 0, k, n);
      SumRangeSplit(M[k], x, k, k + 1, n);
      SumRangeZero(M[k], x, 0, k);
      SumRangeZero(M[k], x, k + 1, n);
      assert M[k][k] * x[k] == 0.0 && M[k][k] != 0.0;
    }
  }

  // ---------------------------------------------------------------------------------------------
  // Arrays

  /** The rows of a two-dimensional array. */
  ghost function Mat(A: array2<real>): (M: Matrix)
    reads A
    ensures |M| == A.Length0
    ensures forall i :: 0 <= i < A.Length0 ==> |M[i]| == A.Length1
    ensures forall i, j :: 0 <= i < A.Length0 && 0 <= j < A.Length1 ==> M[i][j] == A[i, j]
  {
    seq(A.Length0, i requires 0 <= i < A.Length0 reads A =>
      seq(A.Length1, j requires 0 <= j < A.Length1 reads A => A[i, j]))
  }

  lemma MatrixExtensionality(M: Matrix, M': Matrix)
    requires |M| == |M'| && forall i :: 0 <= i < |M| ==> |M[i]| == |M'[i]|
    requires forall i, j :: 0 <= i < |M| && 0 <= j < |M[i]| ==> M[i][j] == M'[i][j]
    ensures M == M'
  {
    forall i | 0 <= i < |M| ensures M[i] == M'[i] {
    }
  }
}
