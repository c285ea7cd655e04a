/** The movement detector: for each pair of consecutive frames, a staged decision
    (difference gate, descriptors, ratio test, homography), collected into the
    ascending list of the indices of the frames that moved. */
module MovementDetector {
  import opened Imaging
  import opened DifferenceGate
  import opened RatioTest
  import opened Geometry

  /** The caller's thresholds. */
  datatype Params = Params(diffThreshold: real, matchThreshold: real, minMatches: int)

  /** The thresholds used when the caller gives none. */
  const DefaultParams := Params(30.0, 0.7, 10)

  /** How the decision for one frame pair ended. */
  datatype Verdict =
    | MovedByDifference   // the mean difference exceeded the threshold
    | NoDescriptors       // a frame yielded no descriptors
    | TooFewMatches       // the ratio test left too few good matches
    | NoHomography        // the robust fit found no transform
    | Estimated(motion: Motion, moved: bool)
  {
    predicate Moves()
    {
      MovedByDifference? || (Estimated? && moved)
    }
  }

  /** What the library needs for the pair not to raise: two non-empty frames of
      one shape; and, only where the decision gets that far, exactly two
      neighbours per query and good matches whose keypoint indices exist. */
  predicate PairDefined(v: Vision, prev: Frame, curr: Frame, p: Params)
  {
    && SameShape(prev, curr)
    && |prev.pixels| > 0
    && var g1, g2 := ToGray(v, prev), ToGray(v, curr);
       !GateFires(g1, g2, p.diffThreshold) ==>
         var f1, f2 := v.detectAndCompute(g1), v.detectAndCompute(g2);
         f1.descriptors.Some? && f2.descriptors.Some? ==>
           var matches := v.knnMatch(f1.descriptors.value, f2.descriptors.value);
           && AllPairs(matches)
           && (|GoodMatches(matches, p.matchThreshold)| > p.minMatches ==>
                 IndicesValid(GoodMatches(matches, p.matchThreshold), f1.keypoints, f2.keypoints))
  }

  /** The pair reaches the homography fit: the gate did not fire, both frames
      have descriptors, and more than `minMatches` matches pass the ratio test. */
  predicate ReachesFit(v: Vision, prev: Frame, curr: Frame, p: Params)
    requires PairDefined(v, prev, curr, p)
  {
    var g1, g2 := ToGray(v, prev), ToGray(v, curr);
    && !GateFires(g1, g2, p.diffThreshold)
    && var f1, f2 := v.detectAndCompute(g1), v.detectAndCompute(g2);
       && f1.descriptors.Some? && f2.descriptors.Some?
       && |GoodMatches(v.knnMatch(f1.descriptors.value, f2.descriptors.value), p.matchThreshold)| > p.minMatches
  }

  /** What the robust fit returns for a pair that reaches it: the transform
      from the good matches' keypoints in the earlier frame to those in the later. */
  function FittedHomography(v: Vision, prev: Frame, curr: Frame, p: Params): Option<Homography>
    requires PairDefined(v, prev, curr, p)
    requires ReachesFit(v, prev, curr, p)
  {
    var f1, f2 := v.detectAndCompute(ToGray(v, prev)), v.detectAndCompute(ToGray(v, curr));
    var good := GoodMatches(v.knnMatch(f1.descriptors.value, f2.descriptors.value), p.matchThreshold);
    v.findHomography(SourcePoints(good, f1.keypoints, f2.keypoints),
                     DestinationPoints(good, f1.keypoints, f2.keypoints), RansacReprojThreshold)
  }

  /** The staged decision for the pair (prev, curr), each stage able to end it. */
  function PairVerdict(v: Vision, prev: Frame, curr: Frame, p: Params): Verdict
    requires PairDefined(v, prev, curr, p)
  {
    var g1, g2 := ToGray(v, prev), ToGray(v, curr);
    if GateFires(g1, g2, p.diffThreshold) then MovedByDifference
    else
      var f1, f2 := v.detectAndCompute(g1), v.detectAndCompute(g2);
      if f1.descriptors.None? || f2.descriptors.None? then NoDescriptors
      else
        var good := GoodMatches(v.knnMatch(f1.descriptors.value, f2.descriptors.value), p.matchThreshold);
        if |good| <= p.minMatches then TooFewMatches
        else
          match FittedHomography(v, prev, curr, p)
          case None => NoHomography
          case Some(h) => Estimated(Decompose(v, h), Significant(Decompose(v, h)))
  }

  predicate PairMoves(v: Vision, prev: Frame, curr: Frame, p: Params)
    requires PairDefined(v, prev, curr, p)
  {
    PairVerdict(v, prev, curr, p).Moves()
  }

  /** Decides one pair the way the loop body does, returning as soon as a stage settles it. */
  method ClassifyPair(v: Vision, prev: Frame, curr: Frame, p: Params) returns (moved: bool)
    requires PairDefined(v, prev, curr, p)
    ensures moved == PairMoves(v, prev, curr, p)
  {
    var prevGray := ToGray(v, prev);
    var currGray := ToGray(v, curr);
    var meanDiff := MeanAbsDiff(prevGray, currGray);
    GateIffMeanExceeds(prevGray, currGray, p.diffThreshold);
    if meanDiff > p.diffThreshold {
      return true;
    }
    var f1 := v.detectAndCompute(prevGray);
    var f2 := v.detectAndCompute(currGray);
    if f1.descriptors.None? || f2.descriptors.None? {
      return false;
    }
    var matches := v.knnMatch(f1.descriptors.value, f2.descriptors.value);
    var good := FilterGoodMatches(matches, p.matchThreshold);
    if |good| > p.minMatches {
      var src := SourcePoints(good, f1.keypoints, f2.keypoints);
      var dst := DestinationPoints(good, f1.keypoints, f2.keypoints);
      var h := v.findHomography(src, dst, RansacReprojThreshold);
      if h.Some? {
        var dx := h.value.h02;
        var dy := h.value.h12;
        var angleDeg := v.degreesAtan2(h.value.h10, h.value.h00);
        if Abs(dx) > TranslationLimit || Abs(dy) > TranslationLimit || Abs(angleDeg) > RotationLimitDeg {
          return true;
        }
      }
    }
    return false;
  }

  /** Every consecutive pair of the sequence is one the library can process. */
  predicate AllPairsDefined(v: Vision, frames: seq<Frame>, p: Params)
  {
    forall i :: 1 <= i < |frames| ==> PairDefinedAt(v, frames, p, i)
  }

  /** The pair that ends at index i exists and is one the library can process. */
  predicate PairDefinedAt(v: Vision, frames: seq<Frame>, p: Params, i: int)
  {
    1 <= i < |frames| && PairDefined(v, frames[i - 1], frames[i], p)
  }

  /** Frame i moved relative to frame i-1. */
  predicate MovesAt(v: Vision, frames: seq<Frame>, p: Params, i: int)
    requires PairDefinedAt(v, frames, p, i)
  {
    PairMoves(v, frames[i - 1], frames[i], p)
  }

  /** The verdicts of the first n indices: entry i says whether frame i moved
      relative to frame i-1; frame 0, which has no predecessor, did not. */
  function Verdicts(v: Vision, frames: seq<Frame>, p: Params, n: nat): (vs: seq<bool>)
    requires n <= |frames|
    requires AllPairsDefined(v, frames, p)
    ensures |vs| == n
    ensures forall i {:trigger MovesAt(v, frames, p, i)} :: 1 <= i < n ==> (vs[i] <==> MovesAt(v, frames, p, i))
  {
    if n == 0 then []
    else if n == 1 then [false]
    else
      assert PairDefinedAt(v, frames, p, n - 1);
      Verdicts(v, frames, p, n - 1) + [MovesAt(v, frames, p, n - 1)]
  }

  /** The indices i in [1, n) whose verdict is true, in the order they are visited. */
  function Flagged(vs: seq<bool>, n: nat): seq<nat>
    requires n <= |vs| || n <= 1
  {
    if n <= 1 then []
    else Flagged(vs, n - 1) + (if vs[n - 1] then [n - 1] else [])
  }

  /** The flagged indices lie in [1, n) and strictly increase. */
  lemma {:induction false} FlaggedAscending(vs: seq<bool>, n: nat)
    requires n <= |vs| || n <= 1
    ensures forall j :: 0 <= j < |Flagged(vs, n)| ==> 1 <= Flagged(vs, n)[j] < n
    ensures forall j, j' :: 0 <= j < j' < |Flagged(vs, n)| ==> Flagged(vs, n)[j] < Flagged(vs, n)[j']
  {
    if n > 1 {
      FlaggedAscending(vs, n - 1);
    }
  }

  /** An index in [1, n) is flagged exactly when its verdict is true. */
  lemma {:induction false} FlaggedExactly(vs: seq<bool>, n: nat)
    requires n <= |vs| || n <= 1
    ensures forall i :: 1 <= i < n ==> (i in Flagged(vs, n) <==> vs[i])
  {
    if n > 1 {
      FlaggedExactly(vs, n - 1);
      FlaggedAscending(vs, n - 1);
    }
  }

  /** The detector's answer for the whole sequence. */
  function MovementIndices(v: Vision, frames: seq<Frame>, p: Params): seq<nat>
    requires AllPairsDefined(v, frames, p)
  {
    Flagged(Verdicts(v, frames, p, |frames|), |frames|)
  }

  /** Walks the consecutive pairs in order and appends the index of each frame
      that moved relative to its predecessor. */
  method DetectCameraMovement(v: Vision, frames: seq<Frame>, p: Params) returns (indices: seq<nat>)
    requires AllPairsDefined(v, frames, p)
    ensures indices == MovementIndices(v, frames, p)
    ensures forall j :: 0 <= j < |indices| ==> 1 <= indices[j] < |frames|
    ensures forall j, j' :: 0 <= j < j' < |indices| ==> indices[j] < indices[j']
    ensures forall i :: 1 <= i < |frames| ==> (i in indices <==> MovesAt(v, frames, p, i))
  {
    ghost var vs := Verdicts(v, frames, p, |frames|);
    indices := [];
    var i := 1;
    while i < |frames|
      invariant 1 <= i <= |frames| || i == 1
      invariant indices == Flagged(vs, i)
    {
      assert PairDefinedAt(v, frames, p, i);
      var moved := ClassifyPair(v, frames[i - 1], frames[i], p);
      assert moved == MovesAt(v, frames, p, i);
      if moved {
        indices := indices + [i];
      }
      i := i + 1;
    }
    FlaggedAscending(vs, |frames|);
    FlaggedExactly(vs, |frames|);
  }

  // ---------------------------------------------------------------------------
  // One pair, stage by stage

  /** The gate, in its exact integer form, settles the pair as moved whatever
      the features are. */
  lemma GateDecidesMovement(v: Vision, prev: Frame, curr: Frame, p: Params)
    requires PairDefined(v, prev, curr, p)
    requires var g1, g2 := ToGray(v, prev), ToGray(v, curr);
      SumAbsDiff(g1.pixels, g2.pixels) as real > p.diffThreshold * |prev.pixels| as real
    ensures PairVerdict(v, prev, curr, p) == MovedByDifference
    ensures PairMoves(v, prev, curr, p)
  {
    GateIffTotalExceeds(ToGray(v, prev), ToGray(v, curr), p.diffThreshold);
  }

  /** Past the gate, a frame without descriptors means no movement. */
  lemma MissingDescriptorsMeanStill(v: Vision, prev: Frame, curr: Frame, p: Params)
    requires PairDefined(v, prev, curr, p)
    requires var g1, g2 := ToGray(v, prev), ToGray(v, curr);
      && !GateFires(g1, g2, p.diffThreshold)
      && (v.detectAndCompute(g1).descriptors.None? || v.detectAndCompute(g2).descriptors.None?)
    ensures PairVerdict(v, prev, curr, p) == NoDescriptors
    ensures !PairMoves(v, prev, curr, p)
  {
  }

  /** Past the gate, a pair that does not reach the fit (too few good matches,
      or no descriptors) or whose fit fails is not flagged; so every flagged pair
      was flagged by the gate or by a fitted homography. */
  lemma GeometryDeclinesMeanStill(v: Vision, prev: Frame, curr: Frame, p: Params)
    requires PairDefined(v, prev, curr, p)
    requires !GateFires(ToGray(v, prev), ToGray(v, curr), p.diffThreshold)
    ensures !ReachesFit(v, prev, curr, p) ==> !PairMoves(v, prev, curr, p)
    ensures ReachesFit(v, prev, curr, p) && FittedHomography(v, prev, curr, p).None? ==>
      !PairMoves(v, prev, curr, p)
    ensures PairMoves(v, prev, curr, p) ==>
      ReachesFit(v, prev, curr, p) && FittedHomography(v, prev, curr, p).Some?
  {
  }

  /** Once a homography is found, the pair moved exactly when its translation
      exceeds 5 pixels on an axis or its rotation exceeds 2 degrees. */
  lemma HomographyDecides(v: Vision, prev: Frame, curr: Frame, p: Params, h: Homography)
    requires PairDefined(v, prev, curr, p)
    requires ReachesFit(v, prev, curr, p)
    requires FittedHomography(v, prev, curr, p) == Some(h)
    ensures PairMoves(v, prev, curr, p) <==>
      Abs(h.h02) > 5.0 || Abs(h.h12) > 5.0 || Abs(v.degreesAtan2(h.h10, h.h00)) > 2.0
  {
  }

  /** A change of the same size `c` at every pixel is flagged exactly when `c`
      exceeds the threshold, or otherwise when the feature path flags it. */
  lemma UniformChangeFlagged(v: Vision, prev: Frame, curr: Frame, p: Params, c: nat)
    requires PairDefined(v, prev, curr, p)
    requires var g1, g2 := ToGray(v, prev), ToGray(v, curr);
      forall k :: 0 <= k < |g1.pixels| ==> AbsDiff(g1.pixels[k], g2.pixels[k]) == c
    ensures c as real > p.diffThreshold ==> PairVerdict(v, prev, curr, p) == MovedByDifference
    ensures c as real <= p.diffThreshold ==> PairVerdict(v, prev, curr, p) != MovedByDifference
  {
    UniformShiftGate(ToGray(v, prev), ToGray(v, curr), c, p.diffThreshold);
  }

  /** Two identical frames never pass the gate at a non-negative threshold, so
      their verdict is left to the feature path. */
  lemma IdenticalFramesSkipGate(v: Vision, f: Frame, p: Params)
    requires PairDefined(v, f, f, p)
    requires p.diffThreshold >= 0.0
    ensures PairVerdict(v, f, f, p) != MovedByDifference
  {
    IdenticalImagesPass(ToGray(v, f), p.diffThreshold);
  }

  /** Raising `minMatches` can only stop a pair from reaching the fit, and a pair
      that still reaches it gets the same verdict; so a pair that moves under the
      higher bound moves under the lower one too. */
  lemma RaisingMinMatchesNarrowsFit(v: Vision, prev: Frame, curr: Frame, p: Params, higher: int)
    requires p.minMatches <= higher
    requires PairDefined(v, prev, curr, p)
    requires PairDefined(v, prev, curr, p.(minMatches := higher))
    ensures ReachesFit(v, prev, curr, p.(minMatches := higher)) ==> ReachesFit(v, prev, curr, p)
    ensures ReachesFit(v, prev, curr, p.(minMatches := higher)) ==>
      PairVerdict(v, prev, curr, p.(minMatches := higher)) == PairVerdict(v, prev, curr, p)
    ensures PairMoves(v, prev, curr, p.(minMatches := higher)) ==> PairMoves(v, prev, curr, p)
  {
  }

  /** A pair that moves under a higher difference threshold moves under a lower one:
      either the gate fired at the higher threshold, and so fires at the lower, or
      the features decided, and they decide the same way when the gate stays quiet. */
  lemma RaisingDiffThresholdNarrows(v: Vision, prev: Frame, curr: Frame, p: Params, higher: real)
    requires p.diffThreshold <= higher
    requires PairDefined(v, prev, curr, p)
    requires PairDefined(v, prev, curr, p.(diffThreshold := higher))
    ensures PairMoves(v, prev, curr, p.(diffThreshold := higher)) ==> PairMoves(v, prev, curr, p)
  {
    GateAntitone(ToGray(v, prev), ToGray(v, curr), p.diffThreshold, higher);
  }

  // ---------------------------------------------------------------------------
  // The whole sequence

  /** Fewer than two frames: no pair, no movement. */
  lemma FewFramesNoMovement(v: Vision, frames: seq<Frame>, p: Params)
    requires |frames| < 2
    ensures AllPairsDefined(v, frames, p)
    ensures MovementIndices(v, frames, p) == []
  {
  }

  /** The verdict for index i depends on frames i-1 and i alone: two sequences
      that share that pair agree on whether i, respectively j, is reported. */
  lemma VerdictIsLocal(v: Vision, frames: seq<Frame>, others: seq<Frame>, p: Params, i: nat, j: nat)
    requires AllPairsDefined(v, frames, p) && AllPairsDefined(v, others, p)
    requires 1 <= i < |frames| && 1 <= j < |others|
    requires frames[i - 1] == others[j - 1] && frames[i] == others[j]
    ensures i in MovementIndices(v, frames, p) <==> j in MovementIndices(v, others, p)
  {
    FlaggedExactly(Verdicts(v, frames, p, |frames|), |frames|);
    FlaggedExactly(Verdicts(v, others, p, |others|), |others|);
    assert PairDefinedAt(v, frames, p, i) && PairDefinedAt(v, others, p, j);
    assert MovesAt(v, frames, p, i) == MovesAt(v, others, p, j);
  }

  /** Raising `minMatches` never adds an index to the result. */
  lemma {:induction false} ResultShrinksWithMinMatches(v: Vision, frames: seq<Frame>, p: Params, higher: int)
    requires p.minMatches <= higher
    requires AllPairsDefined(v, frames, p)
    requires AllPairsDefined(v, frames, p.(minMatches := higher))
    ensures forall i :: i in MovementIndices(v, frames, p.(minMatches := higher)) ==> i in MovementIndices(v, frames, p)
  {
    var q := p.(minMatches := higher);
    FlaggedExactly(Verdicts(v, frames, p, |frames|), |frames|);
    FlaggedExactly(Verdicts(v, frames, q, |frames|), |frames|);
    FlaggedAscending(Verdicts(v, frames, q, |frames|), |frames|);
    forall i | i in MovementIndices(v, frames, q)
      ensures i in MovementIndices(v, frames, p)
    {
      var k :| 0 <= k < |MovementIndices(v, frames, q)| && MovementIndices(v, frames, q)[k] == i;
      assert PairDefinedAt(v, frames, p, i) && PairDefinedAt(v, frames, q, i);
      RaisingMinMatchesNarrowsFit(v, frames[i - 1], frames[i], p, higher);
      assert MovesAt(v, frames, q, i) ==> MovesAt(v, frames, p, i);
    }
  }

  /** Raising `diffThreshold` never adds an index to the result. */
  lemma {:induction false} ResultShrinksWithDiffThreshold(v: Vision, frames: seq<Frame>, p: Params, higher: real)
    requires p.diffThreshold <= higher
    requires AllPairsDefined(v, frames, p)
    requires AllPairsDefined(v, frames, p.(diffThreshold := higher))
    ensures forall i :: i in MovementIndices(v, frames, p.(diffThreshold := higher)) ==> i in MovementIndices(v, frames, p)
  {
    var q := p.(diffThreshold := higher);
    FlaggedExactly(Verdicts(v, frames, p, |frames|), |frames|);
    FlaggedExactly(Verdicts(v, frames, q, |frames|), |frames|);
    FlaggedAscending(Verdicts(v, frames, q, |frames|), |frames|);
    forall i | i in MovementIndices(v, frames, q)
      ensures i in MovementIndices(v, frames, p)
    {
      var k :| 0 <= k < |MovementIndices(v, frames, q)| && MovementIndices(v, frames, q)[k] == i;
      assert PairDefinedAt(v, frames, p, i) && PairDefinedAt(v, frames, q, i);
      RaisingDiffThresholdNarrows(v, frames[i - 1], frames[i], p, higher);
      assert MovesAt(v, frames, q, i) ==> MovesAt(v, frames, p, i);
    }
  }
}
