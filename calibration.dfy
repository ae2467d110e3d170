/** Calibration as the main controller drives it: the projection's source quad is reset to the
    frame corners, the corner buffer to the full frame, and the transform is computed from the
    buffer. Without a detection in between, the result is the identity transform; after one,
    a transform comes back exactly when three of the detected corners are not on one line, and
    it maps every frame corner onto its detected corner when no three of the four are. */
module Calibration {
  import opened LinearSystem
  import opened Homography
  import opened Perspective
  import opened CanvasRecognition

  /** The full-frame corners, divided by the frame size, are the corners of the normalized
      frame. */
  lemma InitialPointsNormalizeToUnitSquare(videoWidth: int, videoHeight: int)
    requires videoWidth != 0 && videoHeight != 0
    ensures NormalizedCorners(InitialPoints(videoWidth, videoHeight), videoWidth, videoHeight) == UnitSquare
  {
    var w, h := videoWidth as real, videoHeight as real;
    assert w / w == 1.0 && h / h == 1.0;
  }

  /** Starting calibration and framing at once, on the application's components in whatever
      state earlier calibrations and detections left them: resets both the way calibration
      starts, then asks the projection for the transform of the buffer. */
  method CalibrateDefaultFrame(projection: PerspectiveProjection, recognition: CanvasRecognitionDLL,
                               videoWidth: int, videoHeight: int) returns (m: SolveResult)
    requires recognition.points.Length >= 8 && videoWidth != 0 && videoHeight != 0
    modifies projection, recognition.points
    ensures m == Solved(IdentityCoefficients)
  {
    projection.InitializeMatrix();
    recognition.InitializePoints(videoWidth, videoHeight);
    m := projection.GetMatrix(recognition.points, videoWidth, videoHeight);
    DefaultFrameGivesIdentity(recognition.points[..], videoWidth, videoHeight, projection.srcPts, projection.dstPts, m);
  }

  /** What the projection answers for the full-frame corners: the identity. */
  lemma DefaultFrameGivesIdentity(points: seq<real>, videoWidth: int, videoHeight: int,
                                  src: seq<Point>, dst: seq<Point>, m: SolveResult)
    requires videoWidth != 0 && videoHeight != 0
    requires |points| >= 8 && points[..8] == InitialPoints(videoWidth, videoHeight)
    requires src == UnitSquare && dst == NormalizedCorners(points, videoWidth, videoHeight)
    requires m.Solved? <==> Nonsingular(SystemMatrix(src, dst))
    requires m.Solved? ==> |m.coefficients| == 8 && forall k :: 0 <= k < 4 ==> MapsLinear(m.coefficients, src[k], dst[k])
    ensures m == Solved(IdentityCoefficients)
  {
    InitialPointsNormalizeToUnitSquare(videoWidth, videoHeight);
    var initial := InitialPoints(videoWidth, videoHeight);
    assert forall k :: 0 <= k < 8 ==> points[k] == initial[k] by {
      forall k | 0 <= k < 8 ensures points[k] == initial[k] {
        assert points[..8][k] == points[k];
      }
    }
    assert dst == NormalizedCorners(initial, videoWidth, videoHeight);
    DefaultSystemSolvedByIdentity(src, dst, m);
  }

  /** The transform computed for the unit square onto itself is the identity. The unit square
      comes in as the parameter src, as in the Homography lemmas, so that the verifier expands
      the literal only where the proof needs it. */
  lemma DefaultSystemSolvedByIdentity(src: seq<Point>, dst: seq<Point>, m: SolveResult)
    requires src == UnitSquare && dst == src
    requires m.Solved? <==> Nonsingular(SystemMatrix(src, dst))
    requires m.Solved? ==> |m.coefficients| == 8 && forall k :: 0 <= k < 4 ==> MapsLinear(m.coefficients, src[k], dst[k])
    ensures m == Solved(IdentityCoefficients)
  {
    if m.Solved? {
      var c := m.coefficients;
      SystemEncodesCorrespondences(src, src, c);
      UnitSquareSolvedOnlyByIdentity(src, c);
    } else {
      UnitSquareNonsingular(src);
    }
  }

  /** A detection that puts all four corners on one pixel: the projection reports the system
      singular rather than returning a transform. */
  method FrameCoincidentCorners(projection: PerspectiveProjection, points: array<real>,
                                videoWidth: int, videoHeight: int) returns (m: SolveResult)
    requires points.Length >= 8 && videoWidth != 0 && videoHeight != 0 && |projection.srcPts| >= 4
    requires points[2] == points[0] && points[4] == points[0] && points[6] == points[0]
    requires points[3] == points[1] && points[5] == points[1] && points[7] == points[1]
    modifies projection
    ensures m == SingularMatrix
  {
    m := projection.GetMatrix(points, videoWidth, videoHeight);
    CoincidentDestinationsSingular(projection.srcPts, projection.dstPts);
  }

  /** Detected corner k of the buffer, in pixels. */
  function PixelCorner(points: seq<real>, k: nat): Point
    requires |points| >= 8 && k < 4
  {
    Point(points[2 * k], points[2 * k + 1])
  }

  /** Dividing by the frame size scales the cross product of three points by 1 / (w·h). */
  lemma ScaledCross(p: Point, q: Point, r: Point, w: real, h: real)
    requires w != 0.0 && h != 0.0
    ensures Cross(Point(p.x / w, p.y / h), Point(q.x / w, q.y / h), Point(r.x / w, r.y / h)) * (w * h)
         == Cross(p, q, r)
  {
    var a, b := (p.x - r.x) / w, (q.y - r.y) / h;
    var c, d := (q.x - r.x) / w, (p.y - r.y) / h;
    assert p.x / w - r.x / w == a && q.y / h - r.y / h == b;
    assert q.x / w - r.x / w == c && p.y / h - r.y / h == d;
    assert a * w == p.x - r.x && b * h == q.y - r.y && c * w == q.x - r.x && d * h == p.y - r.y;
    assert (a * b - c * d) * (w * h) == (a * w) * (b * h) - (c * w) * (d * h);
  }

  /** The four detected corners of the buffer, in pixels. */
  function PixelCorners(points: seq<real>): (corners: seq<Point>)
    requires |points| >= 8
    ensures |corners| == 4 && forall k :: 0 <= k < 4 ==> corners[k] == PixelCorner(points, k)
  {
    [PixelCorner(points, 0), PixelCorner(points, 1), PixelCorner(points, 2), PixelCorner(points, 3)]
  }

  /** Normalizing the detected corners keeps three of them on one line, or off it. */
  lemma NormalizingKeepsCollinearity(points: seq<real>, videoWidth: int, videoHeight: int,
                                     i: nat, j: nat, k: nat)
    requires |points| >= 8 && videoWidth != 0 && videoHeight != 0 && i < 4 && j < 4 && k < 4
    ensures var n := NormalizedCorners(points, videoWidth, videoHeight);
      (Cross(n[i], n[j], n[k]) == 0.0) <==>
      (Cross(PixelCorner(points, i), PixelCorner(points, j), PixelCorner(points, k)) == 0.0)
  {
    var w, h := videoWidth as real, videoHeight as real;
    var n := NormalizedCorners(points, videoWidth, videoHeight);
    var p, q, r := PixelCorner(points, i), PixelCorner(points, j), PixelCorner(points, k);
    assert n[i] == Point(p.x / w, p.y / h) && n[j] == Point(q.x / w, q.y / h) && n[k] == Point(r.x / w, r.y / h);
    ScaledCross(p, q, r, w, h);
  }

  /** Normalizing keeps four corners with no three on one line. */
  lemma NormalizingKeepsNoThreeCollinear(points: seq<real>, videoWidth: int, videoHeight: int)
    requires |points| >= 8 && videoWidth != 0 && videoHeight != 0
    ensures NoThreeCollinear(NormalizedCorners(points, videoWidth, videoHeight))
        <==> NoThreeCollinear(PixelCorners(points))
  {
    NormalizingKeepsCollinearity(points, videoWidth, videoHeight, 1, 2, 3);
    NormalizingKeepsCollinearity(points, videoWidth, videoHeight, 0, 2, 3);
    NormalizingKeepsCollinearity(points, videoWidth, videoHeight, 0, 1, 3);
    NormalizingKeepsCollinearity(points, videoWidth, videoHeight, 0, 1, 2);
  }

  /** Calibration started, then framing the corners found by detection. A transform comes back
      exactly when the top-right, bottom-left and bottom-right corners do not lie on one line;
      where the top-left corner was found does not matter. When no three of the four corners lie
      on one line, the transform sends every corner of the normalized frame onto the
      corresponding normalized detected corner. */
  method FrameDetectedCorners(projection: PerspectiveProjection, points: array<real>,
                              videoWidth: int, videoHeight: int) returns (m: SolveResult)
    requires points.Length >= 8 && videoWidth != 0 && videoHeight != 0
    modifies projection
    ensures projection.srcPts == UnitSquare
    ensures projection.dstPts == NormalizedCorners(points[..], videoWidth, videoHeight)
    ensures m.Solved? <==>
      Cross(PixelCorner(points[..], 1), PixelCorner(points[..], 2), PixelCorner(points[..], 3)) != 0.0
    ensures NoThreeCollinear(PixelCorners(points[..])) ==>
      m.Solved? && MapsCorners(m.coefficients, projection.srcPts, projection.dstPts)
  {
    projection.InitializeMatrix();
    m := projection.GetMatrix(points, videoWidth, videoHeight);
    UnitSquareOntoNonsingularIff(projection.srcPts, projection.dstPts);
    NormalizingKeepsCollinearity(points[..], videoWidth, videoHeight, 1, 2, 3);
    if NoThreeCollinear(PixelCorners(points[..])) {
      NormalizingKeepsNoThreeCollinear(points[..], videoWidth, videoHeight);
      SystemEncodesCorrespondences(projection.srcPts, projection.dstPts, m.coefficients);
      UnitSquareOntoMapsCorners(projection.srcPts, projection.dstPts, m.coefficients);
    }
  }

  /** Four detected corners on one line a·x + b·y + c = 0, in pixels: after calibration starts,
      framing them gives the singular result. */
  method FrameCollinearCorners(projection: PerspectiveProjection, points: array<real>,
                               videoWidth: int, videoHeight: int, a: real, b: real, c: real)
    returns (m: SolveResult)
    requires points.Length >= 8 && videoWidth != 0 && videoHeight != 0 && (a != 0.0 || b != 0.0)
    requires forall k :: 0 <= k < 4 ==> a * points[2 * k] + b * points[2 * k + 1] + c == 0.0
    modifies projection
    ensures m == SingularMatrix
  {
    PixelCornersOnLine(points[..], a, b, c);
    m := FrameDetectedCorners(projection, points, videoWidth, videoHeight);
  }

  /** Pixel corners on one line a·x + b·y + c = 0 have a zero cross product. */
  lemma PixelCornersOnLine(pts: seq<real>, a: real, b: real, c: real)
    requires |pts| >= 8 && (a != 0.0 || b != 0.0)
    requires forall k :: 0 <= k < 4 ==> a * PixelCorner(pts, k).x + b * PixelCorner(pts, k).y + c == 0.0
    ensures Cross(PixelCorner(pts, 1), PixelCorner(pts, 2), PixelCorner(pts, 3)) == 0.0
  {
    OnLineCrossZero(PixelCorner(pts, 1), PixelCorner(pts, 2), PixelCorner(pts, 3), a, b, c);
  }
}
