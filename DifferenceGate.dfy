/** The cheap first test on a frame pair: the mean absolute grayscale difference
    against `diff_threshold`. */
module DifferenceGate {
  import opened Imaging

  function AbsDiff(a: Byte, b: Byte): (d: Byte)
  {
    if a < b then b - a else a - b
  }

  /** The sum of the per-pixel absolute differences of two equally long sample
      sequences (what the library's `absdiff` produces, added up). */
  function SumAbsDiff(a: seq<Byte>, b: seq<Byte>): (s: nat)
    requires |a| == |b|
  {
    if |a| == 0 then 0
    else SumAbsDiff(a[..|a| - 1], b[..|b| - 1]) + AbsDiff(a[|a| - 1], b[|b| - 1])
  }

  /** The mean of the absolute difference image, taken exactly as a rational. */
  function MeanAbsDiff(a: Gray, b: Gray): (m: real)
    requires |a.pixels| == |b.pixels| > 0
  {
    SumAbsDiff(a.pixels, b.pixels) as real / |a.pixels| as real
  }

  /** How far the per-pixel differences exceed the threshold, added up:
      the sum over all pixels of `|a[k] - b[k]| - t`. */
  function Excess(a: seq<Byte>, b: seq<Byte>, t: real): real
    requires |a| == |b|
  {
    if |a| == 0 then 0.0
    else Excess(a[..|a| - 1], b[..|b| - 1], t) + (AbsDiff(a[|a| - 1], b[|b| - 1]) as real - t)
  }

  /** The gate fires when the mean difference exceeds the threshold. The
      comparison is stated on the summed excess, which is positive exactly
      when the mean is above the threshold (`GateIffMeanExceeds`). */
  predicate GateFires(a: Gray, b: Gray, diffThreshold: real)
    requires |a.pixels| == |b.pixels|
  {
    Excess(a.pixels, b.pixels, diffThreshold) > 0.0
  }

  /** The summed excess is the total difference less the threshold once per pixel. */
  lemma {:induction false} ExcessIsTotalLessThreshold(a: seq<Byte>, b: seq<Byte>, t: real)
    requires |a| == |b|
    ensures Excess(a, b, t) == SumAbsDiff(a, b) as real - |a| as real * t
  {
    if |a| > 0 {
      ExcessIsTotalLessThreshold(a[..|a| - 1], b[..|b| - 1], t);
    }
  }

  /** Over 8-bit samples the gate is an exact integer comparison:
      the total difference exceeds the threshold times the pixel count. */
  lemma GateIffTotalExceeds(a: Gray, b: Gray, diffThreshold: real)
    requires |a.pixels| == |b.pixels|
    ensures GateFires(a, b, diffThreshold)
        <==> SumAbsDiff(a.pixels, b.pixels) as real > diffThreshold * |a.pixels| as real
  {
    ExcessIsTotalLessThreshold(a.pixels, b.pixels, diffThreshold);
  }

  /** The gate is the routine's test `mean(absdiff) > diff_threshold`. */
  lemma GateIffMeanExceeds(a: Gray, b: Gray, diffThreshold: real)
    requires |a.pixels| == |b.pixels| > 0
    ensures GateFires(a, b, diffThreshold) <==> MeanAbsDiff(a, b) > diffThreshold
  {
    GateIffTotalExceeds(a, b, diffThreshold);
    QuotientExceeds(SumAbsDiff(a.pixels, b.pixels) as real, |a.pixels| as real, diffThreshold);
  }

  /** Dividing by a positive count preserves the comparison with the threshold. */
  lemma QuotientExceeds(s: real, n: real, t: real)
    requires n > 0.0
    ensures s / n > t <==> s > t * n
  {
  }

  /** Lowering the threshold raises every pixel's excess. */
  lemma {:induction false} ExcessAntitone(a: seq<Byte>, b: seq<Byte>, lower: real, higher: real)
    requires |a| == |b|
    requires lower <= higher
    ensures Excess(a, b, higher) <= Excess(a, b, lower)
  {
    if |a| > 0 {
      ExcessAntitone(a[..|a| - 1], b[..|b| - 1], lower, higher);
    }
  }

  /** A gate that fires at some threshold fires at every lower threshold. */
  lemma GateAntitone(a: Gray, b: Gray, lower: real, higher: real)
    requires |a.pixels| == |b.pixels|
    requires lower <= higher
    ensures GateFires(a, b, higher) ==> GateFires(a, b, lower)
  {
    ExcessAntitone(a.pixels, b.pixels, lower, higher);
  }

  lemma {:induction false} SumAbsDiffSelf(a: seq<Byte>)
    ensures SumAbsDiff(a, a) == 0
  {
    if |a| > 0 {
      SumAbsDiffSelf(a[..|a| - 1]);
    }
  }

  /** Two identical images never trip the gate at a non-negative threshold. */
  lemma IdenticalImagesPass(a: Gray, diffThreshold: real)
    requires diffThreshold >= 0.0
    ensures !GateFires(a, a, diffThreshold)
  {
    SumAbsDiffSelf(a.pixels);
    ExcessIsTotalLessThreshold(a.pixels, a.pixels, diffThreshold);
  }

  lemma {:induction false} SumAbsDiffUniform(a: seq<Byte>, b: seq<Byte>, c: nat)
    requires |a| == |b|
    requires forall k :: 0 <= k < |a| ==> AbsDiff(a[k], b[k]) == c
    ensures SumAbsDiff(a, b) == c * |a|
  {
    if |a| > 0 {
      SumAbsDiffUniform(a[..|a| - 1], b[..|b| - 1], c);
    }
  }

  /** With the same difference `c` at every pixel, each pixel adds `c - t` to the
      excess: positive over a non-empty image when `c > t`, never positive otherwise. */
  lemma {:induction false} ExcessUniformSign(a: seq<Byte>, b: seq<Byte>, c: nat, t: real)
    requires |a| == |b|
    requires forall k :: 0 <= k < |a| ==> AbsDiff(a[k], b[k]) == c
    ensures c as real > t ==> Excess(a, b, t) >= 0.0 && (|a| > 0 ==> Excess(a, b, t) > 0.0)
    ensures c as real <= t ==> Excess(a, b, t) <= 0.0
  {
    if |a| > 0 {
      ExcessUniformSign(a[..|a| - 1], b[..|b| - 1], c, t);
    }
  }

  /** A total of `c` per pixel averages to `c`. */
  lemma MeanOfUniformTotal(total: nat, n: nat, c: nat)
    requires n > 0
    requires total == c * n
    ensures total as real / n as real == c as real
  {
  }

  /** When every pixel changes by the same amount `c`, the mean difference is `c`,
      so the gate fires exactly when `c` exceeds the threshold. */
  lemma UniformShiftGate(a: Gray, b: Gray, c: nat, diffThreshold: real)
    requires |a.pixels| == |b.pixels| > 0
    requires forall k :: 0 <= k < |a.pixels| ==> AbsDiff(a.pixels[k], b.pixels[k]) == c
    ensures MeanAbsDiff(a, b) == c as real
    ensures GateFires(a, b, diffThreshold) <==> c as real > diffThreshold
  {
    SumAbsDiffUniform(a.pixels, b.pixels, c);
    MeanOfUniformTotal(SumAbsDiff(a.pixels, b.pixels), |a.pixels|, c);
    ExcessUniformSign(a.pixels, b.pixels, c, diffThreshold);
  }
}
