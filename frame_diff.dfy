/** Frame-difference motion scoring: the per-frame changed-pixel ratio of
    `detect_motion_simple` and the decode loop that produces one score per
    frame after the first. Decoding, resizing and grey conversion are not
    modelled; every frame arrives already at the working resolution. */
module FrameDiff {
  import opened Wrappers

  /** The working resolution every decoded frame is resized to. */
  const Width: nat := 320
  const Height: nat := 240
  const PixelCount: nat := Width * Height

  /** An 8-bit grey intensity. */
  type Intensity = x: int | 0 <= x <= 255

  /** A grey frame at the working resolution, row by row. */
  type GrayFrame = f: seq<Intensity> | |f| == PixelCount witness seq(PixelCount, _ => 0)

  /** `cv2.absdiff` on two 8-bit values. */
  function AbsDiff(x: Intensity, y: Intensity): (d: Intensity)
    ensures d >= x - y && d >= y - x
    ensures d == x - y || d == y - x
  {
    if x >= y then x - y else y - x
  }

  /** The positions whose change is strictly above the threshold. */
  ghost function ChangedSet(a: seq<Intensity>, b: seq<Intensity>, threshold: int): set<nat>
    requires |a| == |b|
  {
    set p: nat | p < |a| && AbsDiff(a[p], b[p]) > threshold
  }

  /** `np.sum(diff > pixel_threshold)`, counted over the pixels in order. */
  function ChangedPixels(a: seq<Intensity>, b: seq<Intensity>, threshold: int): (n: nat)
    requires |a| == |b|
    ensures n <= |a|
    decreases |a|
  {
    if |a| == 0 then 0
    else
      var last := |a| - 1;
      ChangedPixels(a[..last], b[..last], threshold)
        + (if AbsDiff(a[last], b[last]) > threshold then 1 else 0)
  }

  lemma {:induction false} ChangedPixelsCountsChangedSet(a: seq<Intensity>, b: seq<Intensity>, threshold: int)
    requires |a| == |b|
    ensures ChangedPixels(a, b, threshold) == |ChangedSet(a, b, threshold)|
    decreases |a|
  {
    if |a| == 0 {
      assert ChangedSet(a, b, threshold) == {};
    } else {
      var last := |a| - 1;
      ChangedPixelsCountsChangedSet(a[..last], b[..last], threshold);
      var before := ChangedSet(a[..last], b[..last], threshold);
      if AbsDiff(a[last], b[last]) > threshold {
        assert ChangedSet(a, b, threshold) == before + {last};
      } else {
        assert ChangedSet(a, b, threshold) == before;
      }
    }
  }

  /** The motion score of one frame pair: the fraction of pixels whose
      intensity changed by strictly more than `pixelThreshold`. */
  function ChangeRatio(prev: GrayFrame, cur: GrayFrame, pixelThreshold: int): (r: real)
    ensures 0.0 <= r <= 1.0
    ensures r * PixelCount as real == |ChangedSet(prev, cur, pixelThreshold)| as real
  {
    ChangedPixelsCountsChangedSet(prev, cur, pixelThreshold);
    ChangedPixels(prev, cur, pixelThreshold) as real / PixelCount as real
  }

  lemma {:induction false} ChangedPixelsNoneAbove(a: seq<Intensity>, b: seq<Intensity>, threshold: int)
    requires |a| == |b|
    requires forall p :: 0 <= p < |a| ==> AbsDiff(a[p], b[p]) <= threshold
    ensures ChangedPixels(a, b, threshold) == 0
    decreases |a|
  {
    if |a| > 0 {
      ChangedPixelsNoneAbove(a[..|a| - 1], b[..|b| - 1], threshold);
    }
  }

  lemma {:induction false} ChangedPixelsAllAbove(a: seq<Intensity>, b: seq<Intensity>, threshold: int)
    requires |a| == |b|
    requires forall p :: 0 <= p < |a| ==> AbsDiff(a[p], b[p]) > threshold
    ensures ChangedPixels(a, b, threshold) == |a|
    decreases |a|
  {
    if |a| > 0 {
      ChangedPixelsAllAbove(a[..|a| - 1], b[..|b| - 1], threshold);
    }
  }

  /** The comparison is strict: a pair whose every pixel changes by at most
      the threshold (for instance by exactly the threshold) scores 0. */
  lemma ChangeAtThresholdScoresZero(prev: GrayFrame, cur: GrayFrame, pixelThreshold: int)
    requires forall p :: 0 <= p < PixelCount ==> AbsDiff(prev[p], cur[p]) <= pixelThreshold
    ensures ChangeRatio(prev, cur, pixelThreshold) == 0.0
  {
    ChangedPixelsNoneAbove(prev, cur, pixelThreshold);
  }

  /** A pair whose every pixel changes by more than the threshold scores 1. */
  lemma ChangeEverywhereScoresOne(prev: GrayFrame, cur: GrayFrame, pixelThreshold: int)
    requires forall p :: 0 <= p < PixelCount ==> AbsDiff(prev[p], cur[p]) > pixelThreshold
    ensures ChangeRatio(prev, cur, pixelThreshold) == 1.0
  {
    ChangedPixelsAllAbove(prev, cur, pixelThreshold);
  }

  /** The scores of a decoded frame sequence: one per frame after the first. */
  function FrameScores(frames: seq<GrayFrame>, pixelThreshold: int): (scores: seq<real>)
    ensures |scores| == if |frames| == 0 then 0 else |frames| - 1
    ensures forall i :: 0 <= i < |scores| ==> 0.0 <= scores[i] <= 1.0
  {
    if |frames| == 0 then []
    else seq(|frames| - 1, i requires 0 <= i < |frames| - 1 => ChangeRatio(frames[i], frames[i + 1], pixelThreshold))
  }

  /** The frame loop of `detect_motion_simple`: it keeps the previous frame,
      appends a score for every frame after the first, and counts frames. */
  method ScoreFrames(frames: seq<GrayFrame>, pixelThreshold: int) returns (scores: seq<real>, frameCount: nat)
    ensures frameCount == |frames|
    ensures |scores| == if |frames| == 0 then 0 else |frames| - 1
    ensures forall i :: 0 <= i < |scores| ==> scores[i] == ChangeRatio(frames[i], frames[i + 1], pixelThreshold)
    ensures scores == FrameScores(frames, pixelThreshold)
  {
    var prevFrame: Option<GrayFrame> := None;
    scores := [];
    frameCount := 0;
    while frameCount < |frames|
      invariant frameCount <= |frames|
      invariant prevFrame == if frameCount == 0 then None else Some(frames[frameCount - 1])
      invariant |scores| == if frameCount == 0 then 0 else frameCount - 1
      invariant forall i :: 0 <= i < |scores| ==> scores[i] == ChangeRatio(frames[i], frames[i + 1], pixelThreshold)
    {
      var gray := frames[frameCount];
      if prevFrame.Some? {
        scores := scores + [ChangeRatio(prevFrame.value, gray, pixelThreshold)];
      }
      prevFrame := Some(gray);
      frameCount := frameCount + 1;
    }
  }
}
