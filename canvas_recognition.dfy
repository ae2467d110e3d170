/** The bridge to the native canvas detector: an 8-slot buffer of corner coordinates (x, y for
    top-left, top-right, bottom-left, bottom-right) that starts as the full frame and is
    overwritten by the detector. */
module CanvasRecognition {
  import opened LinearSystem

  /** The full-frame corners in pixels: (0,0), (W,0), (0,H), (W,H). */
  function InitialPoints(videoWidth: int, videoHeight: int): (pts: seq<real>)
    ensures |pts| == 8
  {
    var w, h := videoWidth as real, videoHeight as real;
    [0.0, 0.0, w, 0.0, 0.0, h, w, h]
  }

  class CanvasRecognitionDLL {
    var points: array<real>

    /** The buffer starts as eight zeros. */
    constructor ()
      ensures fresh(points) && points[..] == Zeros(8)
    {
      points := new real[8](_ => 0.0);
    }

    /** Overwrites the first eight slots with the full-frame corners, in place; what they held
        before does not matter, and the buffer is neither reallocated nor resized. */
    method InitializePoints(videoWidth: int, videoHeight: int)
      requires points.Length >= 8
      modifies points
      ensures points[..8] == InitialPoints(videoWidth, videoHeight)
      ensures points[8..] == old(points[8..])
      ensures points[..] == Initialized(old(points[..]), videoWidth, videoHeight)
    {
      points[0] := 0.0;
      points[1] := 0.0;
      points[2] := videoWidth as real;
      points[3] := 0.0;
      points[4] := 0.0;
      points[5] := videoHeight as real;
      points[6] := videoWidth as real;
      points[7] := videoHeight as real;
    }

    /** Runs the detector only on a buffer of exactly eight slots; the detector's result is the
        parameter detected. Any other buffer is left as it was. */
    method PerformRecognition(detected: seq<real>)
      requires |detected| == 8
      modifies points
      ensures points.Length != 8 ==> points[..] == old(points[..])
      ensures points.Length == 8 ==> points[..] == detected
    {
      if points.Length != 8 {
        return;
      }
      CanvasRecognition(detected);
    }

    /** The native detector: writes the eight corner coordinates it found into the buffer. */
    method CanvasRecognition(detected: seq<real>)
      requires |detected| == 8 && points.Length == 8
      modifies points
      ensures points[..] == detected
    {
      for k := 0 to 8
        invariant points[..k] == detected[..k]
      {
        points[k] := detected[k];
      }
    }

    /** The buffer handed out by reference: callers may put another array in its place. */
    method ReplacePoints(a: array<real>)
      modifies this
      ensures points == a
    {
      points := a;
    }
  }

  /** The buffer after initialization: the full-frame corners in the first eight slots, and
      whatever followed them left in place. */
  function Initialized(buffer: seq<real>, videoWidth: int, videoHeight: int): (r: seq<real>)
    requires |buffer| >= 8
    ensures |r| == |buffer|
  {
    InitialPoints(videoWidth, videoHeight) + buffer[8..]
  }

  /** Initializing changes nothing exactly on a buffer that already starts with the full-frame
      corners; so initializing twice with the same frame size leaves the buffer as initializing
      once, whatever it held. */
  lemma InitializedIdempotent(buffer: seq<real>, videoWidth: int, videoHeight: int)
    requires |buffer| >= 8
    ensures Initialized(buffer, videoWidth, videoHeight) == buffer
        <==> buffer[..8] == InitialPoints(videoWidth, videoHeight)
    ensures Initialized(Initialized(buffer, videoWidth, videoHeight), videoWidth, videoHeight)
         == Initialized(buffer, videoWidth, videoHeight)
  {
  }
}
