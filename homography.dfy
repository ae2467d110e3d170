/** The four-point perspective transform as a linear system: the layout of the 8×8 matrix and
    its right-hand side (the layout OpenCV's getPerspectiveTransform uses), what a solution of it
    means for the four correspondences, and the default calibration (unit square onto itself). */
module Homography {
  import opened LinearSystem

  datatype Point = Point(x: real, y: real)

  /** The source quad: the corners of the normalized frame, top-left, top-right, bottom-left,
      bottom-right. Lemmas about it take it as a parameter U with `requires U == UnitSquare`
      rather than naming the constant: the verifier then expands the literal only where a proof
      needs it, which keeps those proofs within bounds. */
  const UnitSquare: seq<Point> := [Point(0.0, 0.0), Point(1.0, 0.0), Point(0.0, 1.0), Point(1.0, 1.0)]

  /** c0..c7 of the identity transform [[1,0,0],[0,1,0],[0,0,1]]. */
  const IdentityCoefficients: Vector := [1.0, 0.0, 0.0, 0.0, 1.0, 0.0, 0.0, 0.0]

  /** Row i of the system: the x equation of correspondence s -> d. */
  function XRow(s: Point, d: Point): Vector {
    [s.x, s.y, 1.0, 0.0, 0.0, 0.0, -s.x * d.x, -s.y * d.x]
  }

  /** Row i + 4 of the system: the y equation of correspondence s -> d. */
  function YRow(s: Point, d: Point): Vector {
    [0.0, 0.0, 0.0, s.x, s.y, 1.0, -s.x * d.y, -s.y * d.y]
  }

  function SystemMatrix(src: seq<Point>, dst: seq<Point>): Matrix
    requires |src| >= 4 && |dst| >= 4
  {
    [XRow(src[0], dst[0]), XRow(src[1], dst[1]), XRow(src[2], dst[2]), XRow(src[3], dst[3]),
     YRow(src[0], dst[0]), YRow(src[1], dst[1]), YRow(src[2], dst[2]), YRow(src[3], dst[3])]
  }

  function SystemRhs(src: seq<Point>, dst: seq<Point>): Vector
    requires |src| >= 4 && |dst| >= 4
  {
    [dst[0].x, dst[1].x, dst[2].x, dst[3].x, dst[0].y, dst[1].y, dst[2].y, dst[3].y]
  }

  /** The denominator c6*x + c7*y + 1 of the transform at s. */
  function Denominator(c: Vector, s: Point): real
    requires |c| == 8
  {
    c[6] * s.x + c[7] * s.y + 1.0
  }

  /** The transform with coefficients c sends s to d, multiplied out by the denominator. */
  ghost predicate MapsLinear(c: Vector, s: Point, d: Point)
    requires |c| == 8
  {
    && c[0] * s.x + c[1] * s.y + c[2] == d.x * Denominator(c, s)
    && c[3] * s.x + c[4] * s.y + c[5] == d.y * Denominator(c, s)
  }

  /** The homogeneous transform [[c0,c1,c2],[c3,c4,c5],[c6,c7,1]] applied to s. */
  function Project(c: Vector, s: Point): Point
    requires |c| == 8 && Denominator(c, s) != 0.0
  {
    Point((c[0] * s.x + c[1] * s.y + c[2]) / Denominator(c, s),
          (c[3] * s.x + c[4] * s.y + c[5]) / Denominator(c, s))
  }

  /** Where the denominator is nonzero, the multiplied-out equations say exactly that the
      transform sends s to d. */
  lemma ProjectMapsExactly(c: Vector, s: Point, d: Point)
    requires |c| == 8 && Denominator(c, s) != 0.0
    ensures MapsLinear(c, s, d) <==> Project(c, s) == d
  {
    var w := Denominator(c, s);
    if Project(c, s) == d {
      assert d.x * w == c[0] * s.x + c[1] * s.y + c[2];
      assert d.y * w == c[3] * s.x + c[4] * s.y + c[5];
    }
  }

  lemma Dot8(u: Vector, x: Vector)
    requires |u| == 8 && |x| == 8
    ensures Dot(u, x) == u[0] * x[0] + u[1] * x[1] + u[2] * x[2] + u[3] * x[3]
                       + u[4] * x[4] + u[5] * x[5] + u[6] * x[6] + u[7] * x[7]
  {
    assert SumRange(u, x, 0, 1) == u[0] * x[0];
    assert SumRange(u, x, 0, 2) == SumRange(u, x, 0, 1) + u[1] * x[1];
    assert SumRange(u, x, 0, 3) == SumRange(u, x, 0, 2) + u[2] * x[2];
    assert SumRange(u, x, 0, 4) == SumRange(u, x, 0, 3) + u[3] * x[3];
    assert SumRange(u, x, 0, 5) == SumRange(u, x, 0, 4) + u[4] * x[4];
    assert SumRange(u, x, 0, 6) == SumRange(u, x, 0, 5) + u[5] * x[5];
    assert SumRange(u, x, 0, 7) == SumRange(u, x, 0, 6) + u[6] * x[6];
  }

  lemma XRowDot(s: Point, d: Point, c: Vector)
    requires |c| == 8
    ensures Dot(XRow(s, d), c) == c[0] * s.x + c[1] * s.y + c[2] - d.x * (c[6] * s.x + c[7] * s.y)
  {
    var u := XRow(s, d);
    Dot8(u, c);
    assert u[0] * c[0] + u[1] * c[1] + u[2] * c[2] == c[0] * s.x + c[1] * s.y + c[2];
    assert u[3] * c[3] + u[4] * c[4] + u[5] * c[5] == 0.0;
    assert u[6] * c[6] + u[7] * c[7] == -(d.x * (c[6] * s.x + c[7] * s.y));
  }

  lemma YRowDot(s: Point, d: Point, c: Vector)
    requires |c| == 8
    ensures Dot(YRow(s, d), c) == c[3] * s.x + c[4] * s.y + c[5] - d.y * (c[6] * s.x + c[7] * s.y)
  {
    var u := YRow(s, d);
    Dot8(u, c);
    assert u[0] * c[0] + u[1] * c[1] + u[2] * c[2] == 0.0;
    assert u[3] * c[3] + u[4] * c[4] + u[5] * c[5] == c[3] * s.x + c[4] * s.y + c[5];
    assert u[6] * c[6] + u[7] * c[7] == -(d.y * (c[6] * s.x + c[7] * s.y));
  }

  /** Rows i and i + 4 hold together exactly when correspondence i holds multiplied out by its
      denominator. */
  lemma CorrespondenceRows(c: Vector, s: Point, d: Point)
    requires |c| == 8
    ensures (Dot(XRow(s, d), c) == d.x && Dot(YRow(s, d), c) == d.y) <==> MapsLinear(c, s, d)
  {
    XRowDot(s, d, c);
    YRowDot(s, d, c);
    var w := Denominator(c, s);
    assert d.x * w == d.x + d.x * (c[6] * s.x + c[7] * s.y);
    assert d.y * w == d.y + d.y * (c[6] * s.x + c[7] * s.y);
  }

  /** A vector solves the system built from four correspondences exactly when the four
      correspondences hold multiplied out by their denominators. Where a denominator is nonzero
      that says the transform sends the corner onto its destination (ProjectMapsExactly); where
      it is zero, the corner is sent to no point at all. */
  lemma SystemEncodesCorrespondences(src: seq<Point>, dst: seq<Point>, c: Vector)
    requires |src| >= 4 && |dst| >= 4 && |c| == 8
    ensures Solves(SystemMatrix(src, dst), SystemRhs(src, dst), c)
        <==> forall i :: 0 <= i < 4 ==> MapsLinear(c, src[i], dst[i])
  {
    var M, b := SystemMatrix(src, dst), SystemRhs(src, dst);
    SolvesRowByRow(M, b, c);
    CorrespondenceRows(c, src[0], dst[0]);
    CorrespondenceRows(c, src[1], dst[1]);
    CorrespondenceRows(c, src[2], dst[2]);
    CorrespondenceRows(c, src[3], dst[3]);
    assert (forall i :: 0 <= i < 4 ==> MapsLinear(c, src[i], dst[i]))
       <==> (MapsLinear(c, src[0], dst[0]) && MapsLinear(c, src[1], dst[1]) &&
             MapsLinear(c, src[2], dst[2]) && MapsLinear(c, src[3], dst[3]));
  }

  lemma SolvesRowByRow(M: Matrix, b: Vector, c: Vector)
    requires |M| == 8 && |b| == 8 && |c| == 8 && forall i :: 0 <= i < 8 ==> |M[i]| == 8
    ensures Solves(M, b, c) <==>
      && Dot(M[0], c) == b[0] && Dot(M[1], c) == b[1] && Dot(M[2], c) == b[2] && Dot(M[3], c) == b[3]
      && Dot(M[4], c) == b[4] && Dot(M[5], c) == b[5] && Dot(M[6], c) == b[6] && Dot(M[7], c) == b[7]
  {
    if && Dot(M[0], c) == b[0] && Dot(M[1], c) == b[1] && Dot(M[2], c) == b[2] && Dot(M[3], c) == b[3]
       && Dot(M[4], c) == b[4] && Dot(M[5], c) == b[5] && Dot(M[6], c) == b[6] && Dot(M[7], c) == b[7]
    {
      forall i | 0 <= i < 8 ensures Dot(M[i], c) == 1.0 * b[i] {
        assert i in {0, 1, 2, 3, 4, 5, 6, 7};
      }
    }
  }

  lemma KernelRowByRow(M: Matrix, x: Vector)
    requires |M| == 8 && |x| == 8 && forall i :: 0 <= i < 8 ==> |M[i]| == 8
    ensures InKernel(M, x) <==>
      && Dot(M[0], x) == 0.0 && Dot(M[1], x) == 0.0 && Dot(M[2], x) == 0.0 && Dot(M[3], x) == 0.0
      && Dot(M[4], x) == 0.0 && Dot(M[5], x) == 0.0 && Dot(M[6], x) == 0.0 && Dot(M[7], x) == 0.0
  {
    if && Dot(M[0], x) == 0.0 && Dot(M[1], x) == 0.0 && Dot(M[2], x) == 0.0 && Dot(M[3], x) == 0.0
       && Dot(M[4], x) == 0.0 && Dot(M[5], x) == 0.0 && Dot(M[6], x) == 0.0 && Dot(M[7], x) == 0.0
    {
      forall i | 0 <= i < 8 ensures Dot(M[i], x) == 0.0 {
        assert i in {0, 1, 2, 3, 4, 5, 6, 7};
      }
    }
  }

  /** The rows of the default calibration system, applied to x. */
  lemma UnitSquareRows(U: seq<Point>, M: Matrix, x: Vector)
    requires U == UnitSquare && M == SystemMatrix(U, U) && |x| == 8
    ensures && Dot(M[0], x) == x[2]
            && Dot(M[1], x) == x[0] + x[2] - x[6]
            && Dot(M[2], x) == x[1] + x[2]
            && Dot(M[3], x) == x[0] + x[1] + x[2] - x[6] - x[7]
            && Dot(M[4], x) == x[5]
            && Dot(M[5], x) == x[3] + x[5]
            && Dot(M[6], x) == x[4] + x[5] - x[7]
            && Dot(M[7], x) == x[3] + x[4] + x[5] - x[6] - x[7]
  {
    assert U[0].x == 0.0 && U[0].y == 0.0 && U[1].x == 1.0 && U[1].y == 0.0;
    assert U[2].x == 0.0 && U[2].y == 1.0 && U[3].x == 1.0 && U[3].y == 1.0;
    XRowDot(U[0], U[0], x);
    XRowDot(U[1], U[1], x);
    XRowDot(U[2], U[2], x);
    XRowDot(U[3], U[3], x);
    YRowDot(U[0], U[0], x);
    YRowDot(U[1], U[1], x);
    YRowDot(U[2], U[2], x);
    YRowDot(U[3], U[3], x);
  }

  /** The default calibration system (unit square onto itself) has only the zero kernel vector. */
  lemma UnitSquareNonsingular(U: seq<Point>)
    requires U == UnitSquare
    ensures Nonsingular(SystemMatrix(U, U))
  {
    var M := SystemMatrix(U, U);
    forall x | |x| == |M| && InKernel(M, x) ensures IsZero(x) {
      UnitSquareRows(U, M, x);
      assert Dot(M[0], x) == 0.0 && Dot(M[1], x) == 0.0 && Dot(M[2], x) == 0.0 && Dot(M[3], x) == 0.0;
      assert Dot(M[4], x) == 0.0 && Dot(M[5], x) == 0.0 && Dot(M[6], x) == 0.0 && Dot(M[7], x) == 0.0;
    }
  }

  /** The default calibration system is solved by the identity transform and by nothing else. */
  lemma UnitSquareSolvedOnlyByIdentity(U: seq<Point>, c: Vector)
    requires U == UnitSquare && |c| == 8
    ensures Solves(SystemMatrix(U, U), SystemRhs(U, U), c) <==> c == IdentityCoefficients
  {
    var M, b := SystemMatrix(U, U), SystemRhs(U, U);
    var id := IdentityCoefficients;
    forall i | 0 <= i < 4 ensures MapsLinear(id, U[i], U[i]) {
    }
    SystemEncodesCorrespondences(U, U, id);
    if Solves(M, b, c) {
      UnitSquareNonsingular(U);
      SolutionUnique(M, b, c, id);
    }
  }

  /** Four detected corners that all coincide give a singular system, whatever the source quad:
      every transform that keeps the denominator and sends the plane onto the one point d,
      such as [d.x,0,0, d.y,0,0, 1,0], is a nonzero kernel vector. */
  lemma CoincidentDestinationsSingular(src: seq<Point>, dst: seq<Point>)
    requires |src| >= 4 && |dst| >= 4
    requires dst[1] == dst[0] && dst[2] == dst[0] && dst[3] == dst[0]
    ensures !Nonsingular(SystemMatrix(src, dst))
  {
    var d := dst[0];
    var x := [d.x, 0.0, 0.0, d.y, 0.0, 0.0, 1.0, 0.0];
    var M := SystemMatrix(src, dst);
    forall i | 0 <= i < 8 ensures |M[i]| == |x| && Dot(M[i], x) == 0.0 {
      if i < 4 {
        assert M[i] == XRow(src[i], d);
        XRowDot(src[i], d, x);
      } else {
        assert M[i] == YRow(src[i - 4], d);
        YRowDot(src[i - 4], d, x);
      }
    }
    assert !IsZero(x) by { assert x[6] == 1.0; }
  }

  /** Twice the signed area of the triangle p, q, r: zero exactly when the three points lie on
      one line (coincident points included). */
  function Cross(p: Point, q: Point, r: Point): real {
    (p.x - r.x) * (q.y - r.y) - (q.x - r.x) * (p.y - r.y)
  }

  /** The rows of the system of the unit square onto dst, applied to x. The corner (0,0) takes
      dst[0] out of the matrix: rows 0 and 4 are x2 and x5 whatever dst[0] is. */
  lemma UnitSquareOntoRows(U: seq<Point>, dst: seq<Point>, M: Matrix, x: Vector)
    requires U == UnitSquare && |dst| >= 4 && M == SystemMatrix(U, dst) && |x| == 8
    ensures && Dot(M[0], x) == x[2]
            && Dot(M[1], x) == x[0] + x[2] - dst[1].x * x[6]
            && Dot(M[2], x) == x[1] + x[2] - dst[2].x * x[7]
            && Dot(M[3], x) == x[0] + x[1] + x[2] - dst[3].x * (x[6] + x[7])
            && Dot(M[4], x) == x[5]
            && Dot(M[5], x) == x[3] + x[5] - dst[1].y * x[6]
            && Dot(M[6], x) == x[4] + x[5] - dst[2].y * x[7]
            && Dot(M[7], x) == x[3] + x[4] + x[5] - dst[3].y * (x[6] + x[7])
  {
    assert U[0].x == 0.0 && U[0].y == 0.0 && U[1].x == 1.0 && U[1].y == 0.0;
    assert U[2].x == 0.0 && U[2].y == 1.0 && U[3].x == 1.0 && U[3].y == 1.0;
    XRowDot(U[0], dst[0], x);
    XRowDot(U[1], dst[1], x);
    XRowDot(U[2], dst[2], x);
    XRowDot(U[3], dst[3], x);
    YRowDot(U[0], dst[0], x);
    YRowDot(U[1], dst[1], x);
    YRowDot(U[2], dst[2], x);
    YRowDot(U[3], dst[3], x);
  }

  /** Two homogeneous equations s·u + t·v == 0 with a nonzero determinant have only the zero
      solution. */
  lemma PairOnlyZero(u: Point, v: Point, s: real, t: real)
    requires s * u.x + t * v.x == 0.0 && s * u.y + t * v.y == 0.0
    requires u.x * v.y - v.x * u.y != 0.0
    ensures s == 0.0 && t == 0.0
  {
    assert s * (u.x * v.y - v.x * u.y) == v.y * (s * u.x + t * v.x) - v.x * (s * u.y + t * v.y);
    assert t * (u.x * v.y - v.x * u.y) == u.x * (s * u.y + t * v.y) - u.y * (s * u.x + t * v.x);
  }

  /** With a zero determinant, s·u + t·v == 0 has a nonzero solution. */
  lemma PairWhenParallel(u: Point, v: Point) returns (s: real, t: real)
    requires u.x * v.y - v.x * u.y == 0.0
    ensures s * u.x + t * v.x == 0.0 && s * u.y + t * v.y == 0.0 && (s != 0.0 || t != 0.0)
  {
    if v.x != 0.0 || u.x != 0.0 {
      s, t := v.x, -u.x;
    } else if v.y != 0.0 || u.y != 0.0 {
      s, t := v.y, -u.y;
    } else {
      s, t := 1.0, 0.0;
    }
  }

  /** The kernel of the system of the unit square onto p0, p1, p2, p3, written out: x2 and x5
      vanish, corners 1 and 2 fix x0, x3 and x1, x4 by x6 and x7, and corner 3 ties x6 to x7. */
  ghost predicate UnitSquareKernelEquations(x: Vector, p1: Point, p2: Point, p3: Point)
    requires |x| == 8
  {
    && x[2] == 0.0 && x[5] == 0.0
    && x[0] == p1.x * x[6] && x[3] == p1.y * x[6]
    && x[1] == p2.x * x[7] && x[4] == p2.y * x[7]
    && x[0] + x[1] == p3.x * (x[6] + x[7]) && x[3] + x[4] == p3.y * (x[6] + x[7])
  }

  /** With the unit square as source quad, x is in the kernel exactly when the kernel equations
      hold. */
  lemma UnitSquareOntoKernel(U: seq<Point>, dst: seq<Point>, x: Vector)
    requires U == UnitSquare && |dst| >= 4 && |x| == 8
    ensures InKernel(SystemMatrix(U, dst), x) <==> UnitSquareKernelEquations(x, dst[1], dst[2], dst[3])
  {
    var M := SystemMatrix(U, dst);
    UnitSquareOntoRows(U, dst, M, x);
    KernelFromRows(M, x, dst[1], dst[2], dst[3]);
  }

  /** Any 8×8 matrix whose rows act on x as those of the unit square onto p0, p1, p2, p3 has x in
      its kernel exactly when the kernel equations hold. */
  lemma KernelFromRows(M: Matrix, x: Vector, p1: Point, p2: Point, p3: Point)
    requires |M| == 8 && |x| == 8 && forall i :: 0 <= i < 8 ==> |M[i]| == 8
    requires && Dot(M[0], x) == x[2]
             && Dot(M[1], x) == x[0] + x[2] - p1.x * x[6]
             && Dot(M[2], x) == x[1] + x[2] - p2.x * x[7]
             && Dot(M[3], x) == x[0] + x[1] + x[2] - p3.x * (x[6] + x[7])
             && Dot(M[4], x) == x[5]
             && Dot(M[5], x) == x[3] + x[5] - p1.y * x[6]
             && Dot(M[6], x) == x[4] + x[5] - p2.y * x[7]
             && Dot(M[7], x) == x[3] + x[4] + x[5] - p3.y * (x[6] + x[7])
    ensures InKernel(M, x) <==> UnitSquareKernelEquations(x, p1, p2, p3)
  {
    KernelRowByRow(M, x);
    RowValuesVanish(x, p1, p2, p3, Dot(M[0], x), Dot(M[1], x), Dot(M[2], x), Dot(M[3], x),
                    Dot(M[4], x), Dot(M[5], x), Dot(M[6], x), Dot(M[7], x));
  }

  /** The eight row values of UnitSquareOntoRows all vanish exactly when the kernel equations
      hold. */
  lemma RowValuesVanish(x: Vector, p1: Point, p2: Point, p3: Point,
                        r0: real, r1: real, r2: real, r3: real, r4: real, r5: real, r6: real, r7: real)
    requires |x| == 8
    requires && r0 == x[2]
             && r1 == x[0] + x[2] - p1.x * x[6]
             && r2 == x[1] + x[2] - p2.x * x[7]
             && r3 == x[0] + x[1] + x[2] - p3.x * (x[6] + x[7])
             && r4 == x[5]
             && r5 == x[3] + x[5] - p1.y * x[6]
             && r6 == x[4] + x[5] - p2.y * x[7]
             && r7 == x[3] + x[4] + x[5] - p3.y * (x[6] + x[7])
    ensures (&& r0 == 0.0 && r1 == 0.0 && r2 == 0.0 && r3 == 0.0
             && r4 == 0.0 && r5 == 0.0 && r6 == 0.0 && r7 == 0.0)
        <==> UnitSquareKernelEquations(x, p1, p2, p3)
  {
  }

  /** With the unit square as source quad and corners 1, 2, 3 not on one line, a kernel vector
      is zero. */
  lemma UnitSquareOntoKernelZero(U: seq<Point>, dst: seq<Point>, x: Vector)
    requires U == UnitSquare && |dst| >= 4 && Cross(dst[1], dst[2], dst[3]) != 0.0
    requires |x| == 8 && InKernel(SystemMatrix(U, dst), x)
    ensures IsZero(x)
  {
    UnitSquareOntoKernel(U, dst, x);
    var p1, p2, p3 := dst[1], dst[2], dst[3];
    var s, t := x[6], x[7];
    var u := Point(p1.x - p3.x, p1.y - p3.y);
    var v := Point(p2.x - p3.x, p2.y - p3.y);
    assert s * u.x + t * v.x == p1.x * s + p2.x * t - p3.x * (s + t);
    assert s * u.y + t * v.y == p1.y * s + p2.y * t - p3.y * (s + t);
    PairOnlyZero(u, v, s, t);
  }

  /** With the unit square as source quad and corners 1, 2, 3 on one line, the system has a
      nonzero kernel vector. */
  lemma UnitSquareOntoKernelWitness(U: seq<Point>, dst: seq<Point>)
    requires U == UnitSquare && |dst| >= 4 && Cross(dst[1], dst[2], dst[3]) == 0.0
    ensures !Nonsingular(SystemMatrix(U, dst))
  {
    var p1, p2, p3 := dst[1], dst[2], dst[3];
    var u := Point(p1.x - p3.x, p1.y - p3.y);
    var v := Point(p2.x - p3.x, p2.y - p3.y);
    var s, t := PairWhenParallel(u, v);
    assert p1.x * s + p2.x * t == p3.x * (s + t) + (s * u.x + t * v.x);
    assert p1.y * s + p2.y * t == p3.y * (s + t) + (s * u.y + t * v.y);
    var x := [p1.x * s, p2.x * t, 0.0, p1.y * s, p2.y * t, 0.0, s, t];
    assert UnitSquareKernelEquations(x, p1, p2, p3);
    UnitSquareOntoKernel(U, dst, x);
    assert !IsZero(x) by {
      if s != 0.0 {
        assert x[6] != 0.0;
      } else {
        assert x[7] != 0.0;
      }
    }
  }

  /** With the unit square as source quad, the system is nonsingular exactly when destination
      corners 1, 2 and 3 do not lie on one line. Corner 0 does not enter the matrix at all. */
  lemma UnitSquareOntoNonsingularIff(U: seq<Point>, dst: seq<Point>)
    requires U == UnitSquare && |dst| >= 4
    ensures Nonsingular(SystemMatrix(U, dst)) <==> Cross(dst[1], dst[2], dst[3]) != 0.0
  {
    if Cross(dst[1], dst[2], dst[3]) != 0.0 {
      var M := SystemMatrix(U, dst);
      forall x | |x| == |M| && InKernel(M, x) ensures IsZero(x) {
        UnitSquareOntoKernelZero(U, dst, x);
      }
    } else {
      UnitSquareOntoKernelWitness(U, dst);
    }
  }

  /** Three points on one line a·x + b·y + c = 0 have a zero cross product. */
  lemma OnLineCrossZero(p: Point, q: Point, r: Point, a: real, b: real, c: real)
    requires a != 0.0 || b != 0.0
    requires a * p.x + b * p.y + c == 0.0 && a * q.x + b * q.y + c == 0.0 && a * r.x + b * r.y + c == 0.0
    ensures Cross(p, q, r) == 0.0
  {
    var u := Point(p.x - r.x, p.y - r.y);
    var v := Point(q.x - r.x, q.y - r.y);
    assert a * u.x + b * u.y == 0.0 && a * v.x + b * v.y == 0.0;
    assert a * Cross(p, q, r) == v.y * (a * u.x + b * u.y) - u.y * (a * v.x + b * v.y);
    assert b * Cross(p, q, r) == u.x * (a * v.x + b * v.y) - v.x * (a * u.x + b * u.y);
  }

  /** Four destination corners on one line a·x + b·y + c = 0 make the system of the unit square
      onto them singular. */
  lemma CollinearDestinationsSingular(U: seq<Point>, dst: seq<Point>, a: real, b: real, c: real)
    requires U == UnitSquare && |dst| >= 4 && (a != 0.0 || b != 0.0)
    requires forall k :: 0 <= k < 4 ==> a * dst[k].x + b * dst[k].y + c == 0.0
    ensures !Nonsingular(SystemMatrix(U, dst))
  {
    OnLineCrossZero(dst[1], dst[2], dst[3], a, b, c);
    UnitSquareOntoNonsingularIff(U, dst);
  }

  /** What a solution of the system of the unit square onto dst says, corner by corner: the four
      denominators are 1, 1 + c6, 1 + c7 and 1 + c6 + c7, and those of corners 1 and 2 combine
      the sides d1 - d3 and d2 - d3 into d0 - d3. */
  lemma UnitSquareOntoEquations(U: seq<Point>, dst: seq<Point>, c: Vector)
    requires U == UnitSquare && |dst| >= 4 && |c| == 8
    requires Solves(SystemMatrix(U, dst), SystemRhs(U, dst), c)
    ensures && Denominator(c, U[0]) == 1.0
            && Denominator(c, U[1]) == c[6] + 1.0
            && Denominator(c, U[2]) == c[7] + 1.0
            && Denominator(c, U[3]) == c[6] + c[7] + 1.0
    ensures (c[6] + 1.0) * (dst[1].x - dst[3].x) + (c[7] + 1.0) * (dst[2].x - dst[3].x) == dst[0].x - dst[3].x
    ensures (c[6] + 1.0) * (dst[1].y - dst[3].y) + (c[7] + 1.0) * (dst[2].y - dst[3].y) == dst[0].y - dst[3].y
  {
    SystemEncodesCorrespondences(U, dst, c);
    assert U[0].x == 0.0 && U[0].y == 0.0 && U[1].x == 1.0 && U[1].y == 0.0;
    assert U[2].x == 0.0 && U[2].y == 1.0 && U[3].x == 1.0 && U[3].y == 1.0;
    assert MapsLinear(c, U[0], dst[0]) && MapsLinear(c, U[1], dst[1]);
    assert MapsLinear(c, U[2], dst[2]) && MapsLinear(c, U[3], dst[3]);
  }

  /** Cramer's rule for a·u + b·v == w. */
  lemma Cramer(u: Point, v: Point, w: Point, a: real, b: real)
    requires a * u.x + b * v.x == w.x && a * u.y + b * v.y == w.y
    ensures a * (u.x * v.y - v.x * u.y) == w.x * v.y - v.x * w.y
    ensures b * (u.x * v.y - v.x * u.y) == u.x * w.y - w.x * u.y
  {
    assert a * (u.x * v.y - v.x * u.y) == v.y * (a * u.x + b * v.x) - v.x * (a * u.y + b * v.y);
    assert b * (u.x * v.y - v.x * u.y) == u.x * (a * u.y + b * v.y) - u.y * (a * u.x + b * v.x);
  }

  /** The signed areas of the four triangles of four points cancel out. */
  lemma CrossOfFour(p0: Point, p1: Point, p2: Point, p3: Point)
    ensures Cross(p0, p2, p3) - Cross(p0, p1, p3) - Cross(p1, p2, p3) == -Cross(p0, p1, p2)
  {
  }

  /** The denominators of a solution of the system of the unit square onto dst, at the four
      corners, scaled by D = Cross(d1, d2, d3): 1, and the signed areas of the triangles that
      corner 0 makes with two of the other destination corners. */
  lemma UnitSquareOntoDenominators(U: seq<Point>, dst: seq<Point>, c: Vector)
    requires U == UnitSquare && |dst| >= 4 && |c| == 8
    requires Solves(SystemMatrix(U, dst), SystemRhs(U, dst), c)
    ensures Denominator(c, U[0]) == 1.0
    ensures Denominator(c, U[1]) * Cross(dst[1], dst[2], dst[3]) == Cross(dst[0], dst[2], dst[3])
    ensures Denominator(c, U[2]) * Cross(dst[1], dst[2], dst[3]) == -Cross(dst[0], dst[1], dst[3])
    ensures Denominator(c, U[3]) * Cross(dst[1], dst[2], dst[3]) == -Cross(dst[0], dst[1], dst[2])
  {
    UnitSquareOntoEquations(U, dst, c);
    var d0, d1, d2, d3 := dst[0], dst[1], dst[2], dst[3];
    var u := Point(d1.x - d3.x, d1.y - d3.y);
    var v := Point(d2.x - d3.x, d2.y - d3.y);
    var w := Point(d0.x - d3.x, d0.y - d3.y);
    var a, b := c[6] + 1.0, c[7] + 1.0;
    Cramer(u, v, w, a, b);
    var D := Cross(d1, d2, d3);
    assert D == u.x * v.y - v.x * u.y;
    assert a * D == Cross(d0, d2, d3);
    assert b * D == -Cross(d0, d1, d3);
    CrossOfFour(d0, d1, d2, d3);
    assert (a + b - 1.0) * D == a * D + b * D - D;
  }

  /** No three of the four points lie on one line. */
  ghost predicate NoThreeCollinear(d: seq<Point>)
    requires |d| >= 4
  {
    && Cross(d[1], d[2], d[3]) != 0.0 && Cross(d[0], d[2], d[3]) != 0.0
    && Cross(d[0], d[1], d[3]) != 0.0 && Cross(d[0], d[1], d[2]) != 0.0
  }

  /** The transform with coefficients c sends each of the four source corners, none of them on
      its vanishing line, onto its destination corner. */
  ghost predicate MapsCorners(c: Vector, src: seq<Point>, dst: seq<Point>) {
    && |c| == 8 && |src| >= 4 && |dst| >= 4
    && forall k :: 0 <= k < 4 ==> Denominator(c, src[k]) != 0.0 && Project(c, src[k]) == dst[k]
  }

  /** A solution for the unit square onto a quad whose corners 1, 2, 3 are not on one line:
      corner k's denominator vanishes exactly when destination corner 0 lies on one line with
      the two other destination corners than k; when no three corners are on one line, the
      transform sends every corner of the unit square onto its destination. */
  lemma UnitSquareOntoMapsCorners(U: seq<Point>, dst: seq<Point>, c: Vector)
    requires U == UnitSquare && |dst| >= 4 && |c| == 8
    requires Solves(SystemMatrix(U, dst), SystemRhs(U, dst), c)
    requires Cross(dst[1], dst[2], dst[3]) != 0.0
    ensures Denominator(c, U[0]) != 0.0
    ensures Denominator(c, U[1]) == 0.0 <==> Cross(dst[0], dst[2], dst[3]) == 0.0
    ensures Denominator(c, U[2]) == 0.0 <==> Cross(dst[0], dst[1], dst[3]) == 0.0
    ensures Denominator(c, U[3]) == 0.0 <==> Cross(dst[0], dst[1], dst[2]) == 0.0
    ensures NoThreeCollinear(dst) ==> MapsCorners(c, U, dst)
  {
    UnitSquareOntoDenominators(U, dst, c);
    if NoThreeCollinear(dst) {
      SystemEncodesCorrespondences(U, dst, c);
      forall k | 0 <= k < 4 ensures Denominator(c, U[k]) != 0.0 && Project(c, U[k]) == dst[k] {
        assert Denominator(c, U[k]) != 0.0 by {
          assert k in {0, 1, 2, 3};
        }
        ProjectMapsExactly(c, U[k], dst[k]);
      }
    }
  }
}
