# Camera movement detection — a Dafny model of the movement decision

The repository decides which transitions between consecutive video frames are
significant camera movement. Its one algorithmic routine is
`detect_camera_movement(frames, diff_threshold=30, match_threshold=0.7, min_matches=10)`
in `camera-movement-detection/movement_detector.py`. For every index `i` from 1 to
`len(frames) - 1` it compares frame `i-1` with frame `i` in four stages, any of which
can end the decision. It then returns the list of the indices it flagged.

1. **Difference gate.** Both frames are converted to grayscale. If the mean absolute
   difference exceeds `diff_threshold`, `i` is flagged and the next pair starts.
2. **Descriptors.** ORB keypoints and descriptors are extracted from both grayscale
   frames. If either frame yields no descriptors, `i` is not flagged.
3. **Ratio test.** For each descriptor of the earlier frame, the two nearest descriptors of
   the later frame are looked up. The nearest one `m` is kept as a good match when
   `m.distance < match_threshold * n.distance`, where `n` is the second nearest.
4. **Geometry.** With more than `min_matches` good matches, a homography is fitted with
   RANSAC (reprojection threshold 5.0) from the matched keypoints. If a fit is found,
   `i` is flagged when the translation `|H[0,2]|` or `|H[1,2]|` exceeds 5 pixels, or
   when the rotation `|degrees(atan2(H[1,0], H[0,0]))|` exceeds 2 degrees.

The model has five modules:

- `Imaging`: frames, grayscale images, keypoints, matches and homographies. It also holds
  the `Vision` datatype, which bundles the image-library operations the routine calls.
  These are per-pixel luminance, `detectAndCompute`, `knnMatch`, `findHomography` and
  `degrees(atan2(y, x))`. The model treats them as uninterpreted functions passed in
  by the caller.
- `DifferenceGate`: the gate. `GateFires` states it as "the per-pixel differences, each less
  the threshold, add up to a positive amount". This is a linear form of the same test, and
  `GateIffMeanExceeds` proves it equal to `mean > diff_threshold`, with the mean taken exactly
  over the rationals. `ClassifyPair` computes the mean and compares it, as the routine does.
- `RatioTest`: Lowe's ratio test. `FilterGoodMatches` is the appending loop, and
  `GoodMatches` is its specification.
- `Geometry`: the point lists handed to the fit, the decomposition of the fitted
  transform and the fixed 5-pixel and 2-degree policy.
- `MovementDetector`: the staged per-pair decision. `PairVerdict` records which stage
  settled the pair, and `ClassifyPair` is the loop body with early returns where the
  source uses `continue`. `DetectCameraMovement` is the loop over all pairs. `Verdicts`
  lists the per-index decisions, and `Flagged` / `MovementIndices` collect the indices
  whose decision is "moved". Together they specify the loop's result.

Preconditions state only what the routine needs to run without raising, and only
where it gets that far (`MovementDetector.PairDefined`):

- consecutive frames are non-empty and of one shape, which `absdiff` needs;
- past the gate, when both frames have descriptors, every `knnMatch` entry holds exactly
  two neighbours, because line 35 unpacks `m, n`;
- when the pair reaches the fit, the good matches' indices name existing keypoints.

Thresholds are unrestricted reals, and `min_matches` is an unrestricted integer. The
routine itself checks none of them.

## Model

| member | source | states |
|---|---|---|
| `MovementDetector.DetectCameraMovement` | camera-movement-detection/movement_detector.py:13-49 | The returned list equals the specification `MovementIndices`. Every index lies in `[1, len(frames)-1]`. The indices strictly increase, so there are no duplicates. An index `i` is present iff frame `i` moved relative to frame `i-1`. |
| `MovementDetector.ClassifyPair` | camera-movement-detection/movement_detector.py:18-48 | The per-pair loop body returns "moved" exactly when the staged verdict `PairVerdict` says the pair moved. |
| `MovementDetector.Verdicts` | camera-movement-detection/movement_detector.py:17-19 | Entry `i` of the verdict list, for `1 <= i < n`, is true iff the pair `(frames[i-1], frames[i])` moved. The list has one entry per frame. |
| `MovementDetector.FlaggedAscending` | camera-movement-detection/movement_detector.py:17-26 | The indices collected from the first `n` verdicts lie in `[1, n)` and strictly increase. |
| `MovementDetector.FlaggedExactly` | camera-movement-detection/movement_detector.py:17-26 | An index in `[1, n)` is collected iff its verdict is true. |
| `MovementDetector.FewFramesNoMovement` | camera-movement-detection/movement_detector.py:17-49 | With fewer than two frames no pair needs to be processable, and the result is empty. |
| `MovementDetector.VerdictIsLocal` | camera-movement-detection/movement_detector.py:17-19 | Two sequences that share the frame pair ending at `i` and at `j` agree on whether `i` and `j` are reported. So the verdict for `i` depends on `(frames[i-1], frames[i])` alone. |
| `MovementDetector.GateDecidesMovement` | camera-movement-detection/movement_detector.py:22-26 | A total absolute grayscale difference above `diff_threshold * pixelCount` flags the pair through the gate, whatever the features are. |
| `MovementDetector.UniformChangeFlagged` | camera-movement-detection/movement_detector.py:22-26 | When every pixel changes by the same `c`, the gate flags the pair iff `c > diff_threshold`. |
| `MovementDetector.IdenticalFramesSkipGate` | camera-movement-detection/movement_detector.py:18-26 | A frame compared with itself never passes the gate at a non-negative threshold. |
| `MovementDetector.MissingDescriptorsMeanStill` | camera-movement-detection/movement_detector.py:29-32 | Past the gate, a frame without descriptors ends the decision with the pair not flagged. |
| `MovementDetector.GeometryDeclinesMeanStill` | camera-movement-detection/movement_detector.py:38-48 | Past the gate, a pair with at most `min_matches` good matches (or no descriptors) is not flagged. A pair whose fit returns no homography is not flagged either. Every pair flagged past the gate reached the fit and got a homography. |
| `MovementDetector.HomographyDecides` | camera-movement-detection/movement_detector.py:41-48 | Once the fit returns `H`, the pair moved iff `abs(H[0,2]) > 5`, `abs(H[1,2]) > 5` or the rotation angle in degrees exceeds 2 in absolute value. |
| `MovementDetector.RaisingMinMatchesNarrowsFit` | camera-movement-detection/movement_detector.py:38 | A pair that reaches the fit under a higher `min_matches` reaches it under a lower one, with the same verdict. A pair flagged under the higher bound is flagged under the lower. |
| `MovementDetector.RaisingDiffThresholdNarrows` | camera-movement-detection/movement_detector.py:24-48 | A pair flagged under a higher `diff_threshold` is flagged under a lower one. |
| `MovementDetector.ResultShrinksWithMinMatches` | camera-movement-detection/movement_detector.py:38-48 | Raising `min_matches` never adds an index to the result. |
| `MovementDetector.ResultShrinksWithDiffThreshold` | camera-movement-detection/movement_detector.py:24-48 | Raising `diff_threshold` never adds an index to the result. |
| `DifferenceGate.GateIffMeanExceeds` | camera-movement-detection/movement_detector.py:22-24 | The gate fires iff the exact mean of the absolute difference image exceeds `diff_threshold`. |
| `DifferenceGate.GateIffTotalExceeds` | camera-movement-detection/movement_detector.py:22-24 | For 8-bit images the gate is equivalent to the integer form `sum of abs(a-b) > diff_threshold * pixelCount`. |
| `DifferenceGate.ExcessIsTotalLessThreshold` | camera-movement-detection/movement_detector.py:22-24 | The summed excess is the total absolute difference minus `diff_threshold` once per pixel. |
| `DifferenceGate.ExcessAntitone` | camera-movement-detection/movement_detector.py:24 | A lower threshold never decreases the summed excess. |
| `DifferenceGate.GateAntitone` | camera-movement-detection/movement_detector.py:24 | A gate that fires at some threshold fires at every lower one. |
| `DifferenceGate.SumAbsDiffSelf` | camera-movement-detection/movement_detector.py:22 | The absolute difference of an image with itself sums to zero. |
| `DifferenceGate.IdenticalImagesPass` | camera-movement-detection/movement_detector.py:22-24 | Identical grayscale images never fire the gate at a non-negative threshold. |
| `DifferenceGate.SumAbsDiffUniform` | camera-movement-detection/movement_detector.py:22 | A per-pixel difference of constant size `c` sums to `c` times the pixel count. |
| `DifferenceGate.ExcessUniformSign` | camera-movement-detection/movement_detector.py:22-24 | With a constant per-pixel difference `c`, the excess is positive on a non-empty image when `c > diff_threshold`, and never positive otherwise. |
| `DifferenceGate.UniformShiftGate` | camera-movement-detection/movement_detector.py:22-24 | For a uniform per-pixel change `c`, the mean difference is exactly `c`, and the gate fires iff `c > diff_threshold`. |
| `RatioTest.GoodMatches` | camera-movement-detection/movement_detector.py:34-37 | The ratio test keeps at most as many matches as there are queries: `len(good) <= len(matches)`. |
| `RatioTest.PassingPositions` | camera-movement-detection/movement_detector.py:35-36 | The positions of the passing neighbour pairs are valid positions of `matches`. |
| `RatioTest.GoodAtPassingPositions` | camera-movement-detection/movement_detector.py:35-37 | The j-th good match is the nearest neighbour `m` of the j-th passing pair. |
| `RatioTest.PassingPositionsIncrease` | camera-movement-detection/movement_detector.py:35-37 | Passing positions strictly increase, so `good` keeps query order. |
| `RatioTest.PassingPositionsExact` | camera-movement-detection/movement_detector.py:35-36 | A position is passing iff `m.distance < match_threshold * n.distance` holds for its pair. |
| `RatioTest.GoodIsPassingSubsequence` | camera-movement-detection/movement_detector.py:34-37 | `good` is exactly the order-preserving subsequence of first neighbours whose pairs pass the ratio test. |
| `RatioTest.LooserRatioKeepsMore` | camera-movement-detection/movement_detector.py:36 | With non-negative distances, a larger `match_threshold` keeps at least as many good matches. |
| `RatioTest.FilterGoodMatches` | camera-movement-detection/movement_detector.py:34-37 | The appending loop builds exactly `GoodMatches`, of length at most `len(matches)`. Each good match is the first neighbour of a pair in `matches` that passes the ratio test. |
| `Geometry.SourcePoints` | camera-movement-detection/movement_detector.py:39 | The source point list has one entry per good match, and entry `j` is the location of keypoint `good[j].queryIdx` of the earlier frame. |
| `Geometry.DestinationPoints` | camera-movement-detection/movement_detector.py:40 | The destination point list has one entry per good match, and entry `j` is the location of keypoint `good[j].trainIdx` of the later frame. |
| `Geometry.SignificantIffOutsideTolerance` | camera-movement-detection/movement_detector.py:43-47 | The movement policy fires exactly when the motion leaves the box of at most 5 pixels of shift per axis and at most 2 degrees of rotation. |

## Left out

- The Streamlit front end in `camera-movement-detection/app.py` (sliders, upload, temporary
  files, video decoding, display and statistics) is I/O and presentation. It is not part of
  this model. Its use of the returned indices as frame positions (line 81) is what
  `DetectCameraMovement`'s range guarantee supports.
- The image-library routines are uninterpreted functions in `Imaging.Vision`. This covers
  the grayscale weights, ORB detection and description, brute-force Hamming k-nearest
  matching and the randomised RANSAC homography fit. Their internal behaviour is not modelled.
- For the same reason, the claim "identical frames are never flagged" is proved only for
  the gate (`IdenticalFramesSkipGate`). Past the gate the verdict rests on what the
  homography fit returns for identical point sets, which the model does not fix.
- Floating point is not modelled. The mean difference is an exact rational, which agrees
  with `np.mean` over 8-bit samples compared with an integer threshold. Point coordinates,
  distances, the homography entries and the angle are reals, and `arctan2`/`degrees` are
  one uninterpreted function.
- `detectAndCompute` reports "no features" as a missing descriptor array (`None`). The
  model keeps that form, so an empty but present descriptor array is passed on to matching,
  as the routine does.
- Keypoints are reduced to their location, the only attribute the routine reads. The
  `np.float32` conversion and the `reshape` of the point lists are not modelled.
- A frame's pixel count is not tied to `width * height`. Two frames of one shape have the
  same width, height and pixel count, which is all the pixel-wise difference needs.
- The routine does not validate its thresholds or reject an empty frame list. The model
  takes any values and returns an empty result for fewer than two frames.
- When a later frame has fewer than two descriptors, line 35 raises while unpacking, instead
  of skipping the query. The model keeps the routine's behaviour: exactly two neighbours per
  query is a precondition wherever line 35 is reached, and no skipping rule is added.
- Determinism across calls holds by construction, since every model member is a function of
  its inputs. The randomness inside RANSAC lives in the `findHomography` oracle.
