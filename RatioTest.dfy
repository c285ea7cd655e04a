/** Lowe's ratio test over the two-nearest-neighbour matches of a frame pair. */
module RatioTest {
  import opened Imaging

  /** Every query yielded exactly its two nearest neighbours. */
  predicate AllPairs(matches: seq<seq<DMatch>>)
  {
    forall k :: 0 <= k < |matches| ==> |matches[k]| == 2
  }

  /** A neighbour pair passes when the nearest is clearly closer than the second. */
  predicate Passes(e: seq<DMatch>, matchThreshold: real)
    requires |e| == 2
  {
    e[0].distance < matchThreshold * e[1].distance
  }

  /** The nearest neighbours of the passing pairs, in query order. */
  function GoodMatches(matches: seq<seq<DMatch>>, matchThreshold: real): (good: seq<DMatch>)
    requires AllPairs(matches)
    ensures |good| <= |matches|
  {
    if |matches| == 0 then []
    else
      var e := matches[|matches| - 1];
      GoodMatches(matches[..|matches| - 1], matchThreshold) + (if Passes(e, matchThreshold) then [e[0]] else [])
  }

  /** The positions in `matches` of the pairs that pass, in increasing order. */
  function PassingPositions(matches: seq<seq<DMatch>>, matchThreshold: real): (ks: seq<nat>)
    requires AllPairs(matches)
    ensures forall j :: 0 <= j < |ks| ==> ks[j] < |matches|
  {
    if |matches| == 0 then []
    else
      var last := |matches| - 1;
      PassingPositions(matches[..last], matchThreshold) + (if Passes(matches[last], matchThreshold) then [last] else [])
  }

  lemma {:induction false} GoodAtPassingPositions(matches: seq<seq<DMatch>>, matchThreshold: real)
    requires AllPairs(matches)
    ensures |GoodMatches(matches, matchThreshold)| == |PassingPositions(matches, matchThreshold)|
    ensures forall j :: 0 <= j < |PassingPositions(matches, matchThreshold)| ==>
      GoodMatches(matches, matchThreshold)[j] == matches[PassingPositions(matches, matchThreshold)[j]][0]
  {
    if |matches| > 0 {
      var last := |matches| - 1;
      var init := matches[..last];
      GoodAtPassingPositions(init, matchThreshold);
      var good0, ks0 := GoodMatches(init, matchThreshold), PassingPositions(init, matchThreshold);
      forall j | 0 <= j < |ks0| ensures init[ks0[j]] == matches[ks0[j]] { }
    }
  }

  lemma {:induction false} PassingPositionsIncrease(matches: seq<seq<DMatch>>, matchThreshold: real)
    requires AllPairs(matches)
    ensures forall j, j' :: 0 <= j < j' < |PassingPositions(matches, matchThreshold)| ==>
      PassingPositions(matches, matchThreshold)[j] < PassingPositions(matches, matchThreshold)[j']
  {
    if |matches| > 0 {
      var init := matches[..|matches| - 1];
      PassingPositionsIncrease(init, matchThreshold);
    }
  }

  lemma {:induction false} PassingPositionsExact(matches: seq<seq<DMatch>>, matchThreshold: real)
    requires AllPairs(matches)
    ensures forall k :: 0 <= k < |matches| ==>
      (k in PassingPositions(matches, matchThreshold) <==> Passes(matches[k], matchThreshold))
  {
    if |matches| > 0 {
      var last := |matches| - 1;
      var init := matches[..last];
      PassingPositionsExact(init, matchThreshold);
      var ks0 := PassingPositions(init, matchThreshold);
      assert PassingPositions(matches, matchThreshold)
          == ks0 + (if Passes(matches[last], matchThreshold) then [last] else []);
      forall k | 0 <= k < last
        ensures k in PassingPositions(matches, matchThreshold) <==> Passes(matches[k], matchThreshold)
      {
        assert init[k] == matches[k];
      }
    }
  }

  /** `good` is exactly the order-preserving selection of the nearest neighbours
      of the pairs that pass: the j-th good match is the nearest neighbour at the
      j-th passing position, these positions increase strictly, and a position
      is among them iff its pair passes. */
  lemma GoodIsPassingSubsequence(matches: seq<seq<DMatch>>, matchThreshold: real)
    requires AllPairs(matches)
    ensures var good, ks := GoodMatches(matches, matchThreshold), PassingPositions(matches, matchThreshold);
      && |good| == |ks|
      && (forall j :: 0 <= j < |ks| ==> good[j] == matches[ks[j]][0])
      && (forall j, j' :: 0 <= j < j' < |ks| ==> ks[j] < ks[j'])
      && (forall k :: 0 <= k < |matches| ==> (k in ks <==> Passes(matches[k], matchThreshold)))
  {
    GoodAtPassingPositions(matches, matchThreshold);
    PassingPositionsIncrease(matches, matchThreshold);
    PassingPositionsExact(matches, matchThreshold);
  }

  /** A looser ratio keeps every pair a stricter one keeps (distances are never negative). */
  lemma {:induction false} LooserRatioKeepsMore(matches: seq<seq<DMatch>>, stricter: real, looser: real)
    requires AllPairs(matches)
    requires stricter <= looser
    requires forall k :: 0 <= k < |matches| ==> matches[k][1].distance >= 0.0
    ensures |GoodMatches(matches, stricter)| <= |GoodMatches(matches, looser)|
  {
    if |matches| > 0 {
      var last := |matches| - 1;
      var init := matches[..last];
      LooserRatioKeepsMore(init, stricter, looser);
      var e := matches[last];
      if Passes(e, stricter) {
        assert stricter * e[1].distance <= looser * e[1].distance;
      }
    }
  }

  /** Builds `good` by appending, one neighbour pair at a time. */
  method FilterGoodMatches(matches: seq<seq<DMatch>>, matchThreshold: real) returns (good: seq<DMatch>)
    requires AllPairs(matches)
    ensures good == GoodMatches(matches, matchThreshold)
    ensures |good| <= |matches|
    ensures forall m :: m in good ==>
      exists k :: 0 <= k < |matches| && matches[k][0] == m && Passes(matches[k], matchThreshold)
  {
    good := [];
    var k := 0;
    while k < |matches|
      invariant 0 <= k <= |matches|
      invariant good == GoodMatches(matches[..k], matchThreshold)
      invariant forall m :: m in good ==>
        exists k :: 0 <= k < |matches| && matches[k][0] == m && Passes(matches[k], matchThreshold)
    {
      var e := matches[k];
      assert matches[..k + 1][..k] == matches[..k];
      if e[0].distance < matchThreshold * e[1].distance {
        good := good + [e[0]];
      }
      k := k + 1;
    }
    assert matches[..k] == matches;
  }
}
