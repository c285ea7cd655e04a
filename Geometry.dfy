/** The geometric stage: assembling point correspondences for the homography fit,
    and reading translation and rotation off the fitted transform. */
module Geometry {
  import opened Imaging

  /** Reprojection error, in pixels, that the robust fit tolerates for an inlier. */
  const RansacReprojThreshold: real := 5.0
  /** A translation of more than this many pixels, along either axis, is movement. */
  const TranslationLimit: real := 5.0
  /** A rotation of more than this many degrees is movement. */
  const RotationLimitDeg: real := 2.0

  /** Every good match refers to existing keypoints in both frames. */
  predicate IndicesValid(good: seq<DMatch>, kp1: seq<Point>, kp2: seq<Point>)
  {
    forall j :: 0 <= j < |good| ==> good[j].queryIdx < |kp1| && good[j].trainIdx < |kp2|
  }

  /** The earlier frame's keypoint locations of the good matches, in match order. */
  function SourcePoints(good: seq<DMatch>, kp1: seq<Point>, kp2: seq<Point>): (pts: seq<Point>)
    requires IndicesValid(good, kp1, kp2)
    ensures |pts| == |good|
    ensures forall j :: 0 <= j < |good| ==> pts[j] == kp1[good[j].queryIdx]
  {
    if |good| == 0 then []
    else SourcePoints(good[..|good| - 1], kp1, kp2) + [kp1[good[|good| - 1].queryIdx]]
  }

  /** The later frame's keypoint locations of the good matches, in match order. */
  function DestinationPoints(good: seq<DMatch>, kp1: seq<Point>, kp2: seq<Point>): (pts: seq<Point>)
    requires IndicesValid(good, kp1, kp2)
    ensures |pts| == |good|
    ensures forall j :: 0 <= j < |good| ==> pts[j] == kp2[good[j].trainIdx]
  {
    if |good| == 0 then []
    else DestinationPoints(good[..|good| - 1], kp1, kp2) + [kp2[good[|good| - 1].trainIdx]]
  }

  /** The camera motion a transform describes: the translation terms of its last
      column and the rotation angle of its upper-left block. */
  datatype Motion = Motion(dx: real, dy: real, angleDeg: real)

  function Decompose(v: Vision, h: Homography): Motion
  {
    Motion(h.h02, h.h12, v.degreesAtan2(h.h10, h.h00))
  }

  /** The fixed movement policy on a decomposed transform. */
  predicate Significant(m: Motion)
  {
    Abs(m.dx) > TranslationLimit || Abs(m.dy) > TranslationLimit || Abs(m.angleDeg) > RotationLimitDeg
  }

  /** A motion is significant exactly when it leaves the box of at most 5 pixels
      of shift on each axis and at most 2 degrees of rotation either way. */
  lemma SignificantIffOutsideTolerance(m: Motion)
    ensures Significant(m) <==>
      !(-5.0 <= m.dx <= 5.0 && -5.0 <= m.dy <= 5.0 && -2.0 <= m.angleDeg <= 2.0)
  {
  }
}
