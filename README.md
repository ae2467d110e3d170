# Canvastique3D perspective calibration and material swap, in Dafny

Canvastique3D shows a painting captured from a webcam. A native detector finds the four corners
of the canvas in the video frame. The projection component then computes the perspective
transform that sends the corners of the normalized frame, (0,0), (1,0), (0,1) and (1,1), onto the
detected corners, divided by the frame size. It does this by building the 8×8 linear system of
the four correspondences (the layout OpenCV's `getPerspectiveTransform` uses) and solving it. The
solver is Gaussian elimination with partial pivoting, in place on the arrays, followed by back
substitution. The model viewer swaps a model's material: the model material goes in place of the
first slot with a given name in every renderer, and the material it displaced is remembered so
that it can be put back on the next swap.

This project models these parts:

- `linear_system.dfy` (module `LinearSystem`): square systems over exact reals and what the
  solver's steps do to them.
  - Solutions and the kernel.
  - Systems with the same solutions and kernel (`Equivalent`).
  - Row swaps, one elimination step, back substitution.
  - Reduced (upper-triangular) matrices.
  - `Mat`, which reads a two-dimensional array as a matrix.
- `homography.dfy` (module `Homography`): the system of four correspondences, what a solution
  of it means for the transform, and the default calibration (unit square onto itself).
- `perspective.dfy` (module `Perspective`): the `PerspectiveProjection` class, with its
  `srcPts`/`dstPts` fields and the array solver, method by method as the source's loops go.
- `canvas_recognition.dfy` (module `CanvasRecognition`): the `CanvasRecognitionDLL` class and
  its 8-slot corner buffer.
- `materials.dfy` (module `Materials`): the `ModelController` class, with materials as (id, name)
  values and renderers as sequences of material slots.
- `calibration.dfy` (module `Calibration`): calibration as the main controller drives it. It
  proves that framing right after calibration starts, without a detection in between, gives the
  identity transform. In the application a detection usually does come in between: while the
  webcam plays, the per-frame update runs the detector once calibration has switched it on
  (Assets/Canvastique3D/Scripts/MainController.cs:59-73). For whatever the detector finds, it
  proves that framing returns a transform exactly when the top-right, bottom-left and
  bottom-right corners are not on one line. So four corners on one line, or on one point, make
  the projection report a singular system. When no three of the four detected corners are on
  one line, the transform sends every corner of the normalized frame onto its normalized
  detected corner.

The central results:

- `GaussianElimination` returns a vector that solves the original system exactly when that
  system is nonsingular (with the threshold at zero, which is how `GenerateMatrix` calls it).
- `GetMatrix`, when it succeeds, returns coefficients that satisfy each of the four
  correspondences multiplied out by its denominator c6·sx + c7·sy + 1. The transform sends every
  source corner whose denominator is nonzero onto its destination corner.
- With the unit square as source quad, as calibration sets it, a corner's denominator is zero
  exactly when destination corner 0 lies on one line with two other destination corners. So
  for four corners with no three on one line, every corner is mapped onto its destination.

## Model

| member | source | states |
|---|---|---|
| `Perspective.PerspectiveProjection.constructor` | Assets/Canvastique3D/Scripts/PerspectiveProjection.cs:11-12 | both point lists start empty |
| `Perspective.PerspectiveProjection.InitializeMatrix` | Assets/Canvastique3D/Scripts/PerspectiveProjection.cs:15-24 | afterwards the source quad is exactly (0,0),(1,0),(0,1),(1,1) whatever it held before (so a second call changes nothing), and the destination quad is untouched |
| `Perspective.NormalizedCorners` | Assets/Canvastique3D/Scripts/PerspectiveProjection.cs:32-35 | four corners, corner k being (points[2k] / width, points[2k+1] / height) |
| `Perspective.PerspectiveProjection.GetMatrix` | Assets/Canvastique3D/Scripts/PerspectiveProjection.cs:27-40 | the destination quad becomes the normalized detected corners and the source quad is kept; a transform comes back exactly when the system is nonsingular. It then satisfies every correspondence multiplied out by its denominator, and sends every source corner whose denominator is nonzero onto its destination corner |
| `Perspective.PerspectiveProjection.GenerateMatrix` | Assets/Canvastique3D/Scripts/PerspectiveProjection.cs:43-68 | a result comes back exactly when the system of the four correspondences is nonsingular. It then solves that system, so it satisfies every correspondence multiplied out, and sends every source corner whose denominator is nonzero onto its destination |
| `Perspective.PerspectiveProjection.BuildSystem` | Assets/Canvastique3D/Scripts/PerspectiveProjection.cs:45-62 | the freshly allocated A and B hold, entry for entry, the system of the four correspondences: all 64 entries of A and all 8 of B |
| `Perspective.PerspectiveProjection.FillCorrespondence` | Assets/Canvastique3D/Scripts/PerspectiveProjection.cs:52-61 | row i becomes [sx, sy, 1, 0, 0, 0, -sx·dx, -sy·dx] and row i+4 becomes [0, 0, 0, sx, sy, 1, -sx·dy, -sy·dy]; B[i] = dx and B[i+4] = dy; every other row is untouched |
| `Perspective.PerspectiveProjection.FillXEquation` | Assets/Canvastique3D/Scripts/PerspectiveProjection.cs:52-60 | row i becomes the x equation [sx, sy, 1, 0, 0, 0, -sx·dx, -sy·dx] and B[i] = dx; every other row is untouched |
| `Perspective.PerspectiveProjection.FillYEquation` | Assets/Canvastique3D/Scripts/PerspectiveProjection.cs:52-61 | row i+4 becomes the y equation [0, 0, 0, sx, sy, 1, -sx·dy, -sy·dy] and B[i+4] = dy; every other row is untouched |
| `Perspective.PerspectiveProjection.GaussianElimination` | Assets/Canvastique3D/Scripts/PerspectiveProjection.cs:71-127 | the arrays always hold a system with the original's solutions and kernel. On success the result solves the original system, which is nonsingular, and A is upper triangular with pivots above the threshold. On failure some column p has no entry above the threshold from row p down, and with a zero threshold the original system is singular |
| `Perspective.PerspectiveProjection.FindPivot` | Assets/Canvastique3D/Scripts/PerspectiveProjection.cs:78-85 | a row in [p, N) whose entry in column p is largest in magnitude, the earliest one on a tie |
| `Perspective.PerspectiveProjection.SwapPivotRow` | Assets/Canvastique3D/Scripts/PerspectiveProjection.cs:86-95 | A and B are the old ones with rows p and max exchanged and nothing else changed |
| `LinearSystem.Swapped` | Assets/Canvastique3D/Scripts/PerspectiveProjection.cs:86-95 | the exchange of two entries puts each one in the other's place and keeps the length and every other entry |
| `LinearSystem.SwappedPermutes` | Assets/Canvastique3D/Scripts/PerspectiveProjection.cs:86-95 | the exchange is a permutation: the multiset of entries is unchanged |
| `LinearSystem.SwapKeepsEquations` | Assets/Canvastique3D/Scripts/PerspectiveProjection.cs:86-95 | the row swap keeps the multiset of (row, right-hand side) pairs and the solutions of the system |
| `Perspective.PivotRejectedIffColumnNegligible` | Assets/Canvastique3D/Scripts/PerspectiveProjection.cs:97-101 | after swapping in the largest entry, the pivot is at or below the threshold exactly when every entry of column p from row p down is |
| `Perspective.SwapKeepsReduction` | Assets/Canvastique3D/Scripts/PerspectiveProjection.cs:86-95 | a swap of two rows from p down keeps the first p columns reduced, with the same pivots |
| `Perspective.PerspectiveProjection.EliminateBelow` | Assets/Canvastique3D/Scripts/PerspectiveProjection.cs:104-112 | A and B become the result of one elimination step on the old system |
| `Perspective.PerspectiveProjection.SubtractScaledRow` | Assets/Canvastique3D/Scripts/PerspectiveProjection.cs:108-111 | row i loses alpha times row p from column p on; every other row is unchanged |
| `LinearSystem.EliminateMatrix` | Assets/Canvastique3D/Scripts/PerspectiveProjection.cs:104-112 | after step p, every entry of column p below the pivot is zero; rows 0..p are untouched, and so are the columns before p |
| `LinearSystem.EliminateKeepsSolutions` | Assets/Canvastique3D/Scripts/PerspectiveProjection.cs:104-112 | an elimination step keeps the solutions and the kernel of the system |
| `LinearSystem.EliminatedRowKeepsEquation` | Assets/Canvastique3D/Scripts/PerspectiveProjection.cs:106-111 | given the pivot equation, an eliminated row below the pivot holds exactly when the original row holds |
| `Perspective.EliminateExtendsReduction` | Assets/Canvastique3D/Scripts/PerspectiveProjection.cs:103-112 | eliminating below a pivot above the threshold extends the reduced, pivoted columns by one |
| `Perspective.PerspectiveProjection.BackSubstitute` | Assets/Canvastique3D/Scripts/PerspectiveProjection.cs:116-126 | on an upper-triangular system with nonzero diagonal, the vector built from the last row up solves the system |
| `Perspective.PerspectiveProjection.SumAfterDiagonal` | Assets/Canvastique3D/Scripts/PerspectiveProjection.cs:119-123 | the sum is A[i, j]·X[j] over the columns j after the diagonal |
| `LinearSystem.BackSolveSolves` | Assets/Canvastique3D/Scripts/PerspectiveProjection.cs:117-125 | back substitution over rows hi-1 down to lo satisfies each of those rows and leaves the other entries as they started |
| `LinearSystem.VanishingColumnIsSingular` | Assets/Canvastique3D/Scripts/PerspectiveProjection.cs:97-101 | a column with no nonzero entry from the diagonal down, under reduced columns with nonzero pivots, makes the matrix singular; the kernel vector is built by back substitution |
| `LinearSystem.TriangularNonsingular` | Assets/Canvastique3D/Scripts/PerspectiveProjection.cs:115-126 | an upper-triangular matrix with nonzero diagonal has only the zero kernel vector |
| `LinearSystem.EquivalentKeepsNonsingular` | Assets/Canvastique3D/Scripts/PerspectiveProjection.cs:75-113 | systems with the same solutions and kernel are singular or nonsingular together |
| `LinearSystem.SolutionUnique` | Assets/Canvastique3D/Scripts/PerspectiveProjection.cs:115-126 | a nonsingular system has at most one solution |
| `Homography.SystemEncodesCorrespondences` | Assets/Canvastique3D/Scripts/PerspectiveProjection.cs:50-62 | a vector solves the system exactly when, for each of the four correspondences, c0·sx+c1·sy+c2 = dx·(c6·sx+c7·sy+1) and c3·sx+c4·sy+c5 = dy·(c6·sx+c7·sy+1) |
| `Homography.CorrespondenceRows` | Assets/Canvastique3D/Scripts/PerspectiveProjection.cs:52-61 | rows i and i+4 hold together exactly when correspondence i holds |
| `Homography.ProjectMapsExactly` | Assets/Canvastique3D/Scripts/PerspectiveProjection.cs:50-62 | where the denominator is nonzero, those equations say exactly that the 3×3 transform sends the source corner onto the destination corner |
| `Homography.UnitSquareNonsingular` | Assets/Canvastique3D/Scripts/PerspectiveProjection.cs:15-24 | the system of the unit square onto itself is nonsingular |
| `Homography.UnitSquareSolvedOnlyByIdentity` | Assets/Canvastique3D/Scripts/PerspectiveProjection.cs:50-62 | the system of the unit square onto itself is solved by [1,0,0,0,1,0,0,0] and by nothing else |
| `Homography.UnitSquareOntoNonsingularIff` | Assets/Canvastique3D/Scripts/PerspectiveProjection.cs:43-68 | with the unit square as source quad, the system is nonsingular exactly when destination corners 1, 2 and 3 do not lie on one line; corner 0 does not enter the matrix |
| `Homography.UnitSquareOntoDenominators` | Assets/Canvastique3D/Scripts/PerspectiveProjection.cs:43-68 | for a solution of the system of the unit square onto d0..d3, the denominator at corner 0 is 1. Those at corners 1, 2 and 3, times Cross(d1,d2,d3), are the signed areas Cross(d0,d2,d3), -Cross(d0,d1,d3) and -Cross(d0,d1,d2) |
| `Homography.UnitSquareOntoMapsCorners` | Assets/Canvastique3D/Scripts/PerspectiveProjection.cs:43-68 | for a solution of the system of the unit square onto a quad whose corners 1, 2, 3 are not on one line: corner k's denominator is zero exactly when destination corner 0 is on one line with the two destination corners other than k. With no three corners on one line, every unit-square corner is sent onto its destination |
| `Homography.CollinearDestinationsSingular` | Assets/Canvastique3D/Scripts/PerspectiveProjection.cs:43-68 | with the unit square as source quad, four destination corners on one line a·x + b·y + c = 0 make the system singular |
| `Homography.CoincidentDestinationsSingular` | Assets/Canvastique3D/Scripts/PerspectiveProjection.cs:50-62 | when all four destination corners are one point d, the system is singular whatever the source quad: [d.x,0,0, d.y,0,0, 1,0] is a nonzero kernel vector |
| `CanvasRecognition.CanvasRecognitionDLL.constructor` | Assets/Canvastique3D/Scripts/CanvasRecognitionDLL.cs:10 | the buffer is a fresh array of eight zeros |
| `CanvasRecognition.CanvasRecognitionDLL.InitializePoints` | Assets/Canvastique3D/Scripts/CanvasRecognitionDLL.cs:13-25 | the first eight slots become [0,0, W,0, 0,H, W,H] whatever they held, in the same array; any further slots are untouched. The new buffer is the old one initialized, so a second call with the same frame size changes nothing |
| `CanvasRecognition.InitializedIdempotent` | Assets/Canvastique3D/Scripts/CanvasRecognitionDLL.cs:13-25 | initializing leaves a buffer unchanged exactly when it already starts with the full-frame corners, so initializing twice with the same frame size gives the same buffer as initializing once |
| `CanvasRecognition.CanvasRecognitionDLL.PerformRecognition` | Assets/Canvastique3D/Scripts/CanvasRecognitionDLL.cs:28-38 | a buffer whose length is not 8 is left untouched; otherwise it receives the detector's eight values |
| `CanvasRecognition.CanvasRecognitionDLL.CanvasRecognition` | Assets/Canvastique3D/Scripts/CanvasRecognitionDLL.cs:44-45 | the detector writes its eight values into the buffer |
| `CanvasRecognition.CanvasRecognitionDLL.ReplacePoints` | Assets/Canvastique3D/Scripts/CanvasRecognitionDLL.cs:41 | a caller holding the buffer by reference can put another array in its place |
| `Calibration.InitialPointsNormalizeToUnitSquare` | Assets/Canvastique3D/Scripts/CanvasRecognitionDLL.cs:17-24 | for a nonzero frame size, the initialized points divided by the frame size are exactly the source quad |
| `Calibration.DefaultFrameGivesIdentity` | Assets/Canvastique3D/Scripts/MainController.cs:109-146 | whatever transform the projection reports for the full-frame corners onto the unit square, it is the identity coefficients |
| `Calibration.DefaultSystemSolvedByIdentity` | Assets/Canvastique3D/Scripts/PerspectiveProjection.cs:43-68 | the solver's answer for the unit square onto itself is the identity coefficients |
| `Calibration.CalibrateDefaultFrame` | Assets/Canvastique3D/Scripts/MainController.cs:109-146 | on the application's components, whatever earlier calibrations and detections left in them: initializing the matrix and the points as calibration starts, then framing without a detection in between, gives exactly the identity coefficients |
| `Calibration.NormalizingKeepsCollinearity` | Assets/Canvastique3D/Scripts/PerspectiveProjection.cs:32-35 | dividing the detected corners by a nonzero frame size keeps any three of them on one line, or off it |
| `Calibration.NormalizingKeepsNoThreeCollinear` | Assets/Canvastique3D/Scripts/PerspectiveProjection.cs:32-35 | the normalized corners have no three on one line exactly when the pixel corners have none |
| `Calibration.FrameDetectedCorners` | Assets/Canvastique3D/Scripts/MainController.cs:109-146 | after calibration starts, framing the detected corners gives a transform exactly when the top-right, bottom-left and bottom-right pixel corners are not on one line. When no three of the four pixel corners are on one line, the transform sends every corner of the normalized frame onto its normalized detected corner, with a nonzero denominator |
| `Calibration.FrameCollinearCorners` | Assets/Canvastique3D/Scripts/MainController.cs:109-146 | after calibration starts, four detected corners on one line give the singular result |
| `Calibration.FrameCoincidentCorners` | Assets/Canvastique3D/Scripts/PerspectiveProjection.cs:27-40 | framing a buffer whose four corners are one point gives the singular result, never a transform |
| `Materials.ModelController.constructor` | Assets/Impressionista/Scripts/ModelController.cs:10-16 | the model material is the configured one; no original material is remembered yet, so the first swap restores nothing; no renderers or children are loaded |
| `Materials.FirstSlotNamed` | Assets/Impressionista/Scripts/ModelController.cs:114-127 | the index of a slot with the name and no earlier slot with it, or nothing exactly when no slot has the name |
| `Materials.ModelController.AssignMaterialToRenderer` | Assets/Impressionista/Scripts/ModelController.cs:110-128 | puts the material in the first slot with the name and returns what was there; with no such slot the slots are unchanged and nothing is returned |
| `Materials.ReplaceChangesOnlyFirstMatch` | Assets/Impressionista/Scripts/ModelController.cs:112-127 | the swap keeps the length and every slot but the first match, and returns nothing exactly when no slot matches |
| `Materials.RestoreUndoesReplace` | Assets/Impressionista/Scripts/ModelController.cs:135-146 | putting the displaced material back in place of the new one restores the slots, when no slot already had the new material's name |
| `Materials.RestoreAllUndoesReplaceAll` | Assets/Impressionista/Scripts/ModelController.cs:135-146 | over all renderers, restoring the one remembered material undoes the swap when every renderer that matched displaced that very material |
| `Materials.ModelController.AssignToEach` | Assets/Impressionista/Scripts/ModelController.cs:148-164 | applies the swap to each renderer in order, and reports the material displaced in the last renderer that matched, or the prior one |
| `Materials.LastDisplacedIsLastMatch` | Assets/Impressionista/Scripts/ModelController.cs:148-164 | the remembered material is the one displaced in the last renderer with a match, and keeps its prior value when none matched |
| `Materials.ModelController.AssignMaterialByName` | Assets/Impressionista/Scripts/ModelController.cs:130-165 | with a remembered original, first restores it in place of the model material in every mesh renderer, then every skinned renderer. Then swaps in the model material everywhere, and remembers the last material displaced, skinned renderers counting after mesh renderers |
| `Materials.ModelController.AppendSlotNames` | Assets/Impressionista/Scripts/ModelController.cs:174-191 | appends the names of all slots of all renderers, in order |
| `Materials.ModelController.GetMaterialNames` | Assets/Impressionista/Scripts/ModelController.cs:168-211 | all slot names, mesh renderers first, then skinned ones; nothing when no child is loaded or the list is empty |
| `Materials.SlotNamesComplete` | Assets/Impressionista/Scripts/ModelController.cs:172-191 | the list has one name per slot, and a name is in it exactly when some slot carries it |

## Left out

- Floating point. Every quantity is an exact real. The model does not cover rounding, the
  single-precision `float`/`Vector2` values, or the widening to `double`.
- The threshold `double.Epsilon`. In the source it is the smallest positive subnormal double.
  Here it is the parameter `eps >= 0` of `GaussianElimination`, and `GenerateMatrix` passes
  `PivotThreshold = 0`. So the singularity results hold for exact reals only. Among them are the
  collinear and coincident corner cases (`UnitSquareOntoNonsingularIff`,
  `CollinearDestinationsSingular`, `FrameDetectedCorners`). In doubles, elimination on collinear
  corners usually leaves a tiny nonzero pivot from rounding, which passes the `double.Epsilon`
  test, and the source would then return a transform with huge coefficients.
- The "singular" exception. It is the `SingularMatrix` result, and the arrays keep their partly
  eliminated state, as they do in the source when the exception is thrown.
- Failures the source only meets as runtime errors are preconditions:
  - fewer than four source points;
  - fewer than eight detected values.
- A zero frame width or height is a precondition too, but the source raises no error for it.
  The float division at PerspectiveProjection.cs:32-35 gives ±∞ or NaN. These flow into the
  system, and the singular test at line 98 does not fire on NaN, because a comparison with NaN
  is false. The source then returns non-finite coefficients, which framing passes on to the
  shader (MainController.cs:143). The model does not cover this behaviour.
- Perspective.PerspectiveProjection.GetMatrix: for a source corner whose denominator
  c6·sx + c7·sy + 1 is zero, the coefficients satisfy the correspondence only multiplied out,
  and the transform sends that corner to no point at all. The source's solver returns such
  coefficients all the same, so the method's own contract does not promise the corner is
  mapped. With the unit square as source quad, which is what calibration uses, this happens
  exactly when destination corner 0 lies on one line with two of the other destination corners
  (`UnitSquareOntoMapsCorners`). Otherwise every corner is mapped (`FrameDetectedCorners`).
- Perspective.PerspectiveProjection.GenerateMatrix: the same zero-denominator case as
  `GetMatrix`, with the same characterization for the unit square.
- The native corner detector and its image-processing parameters (frame, blur size, thresholds).
  The detector is a method that writes the values it is given.
- Unity object identity. Renderers are values (sequences of material slots), so aliasing between
  renderers and between their shared material arrays is not modelled. The renderers found under
  the spawn point are the fields `meshRenderers` and `skinnedMeshRenderers`; the child count is
  the field `childCount`.
- Null material slots are not modelled: the source would throw on them. A null remembered
  material is `None`.
- Logging (`Debug.Log`/`Debug.LogError`) and the "No model loaded yet!" warning event of
  `GetMaterialNames`.
- Outside the core:
  - the glTF loading, file dialogs and transform setters of the model controller;
  - the packing of the eight coefficients into the shader's 3×3 matrix, and its persistence;
  - the UI, gallery, webcam, zoom and event-manager components.
