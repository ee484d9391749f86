/** `smooth_motion_scores`: a centred moving average whose window is clipped
    at both ends of the sequence. */
module Smoothing {

  /** The window `detect_motion_simple` smooths with. */
  const DefaultWindow: nat := 3

  function Sum(s: seq<real>): real
  {
    if |s| == 0 then 0.0 else s[0] + Sum(s[1..])
  }

  /** `np.mean`, in exact arithmetic. */
  function Mean(s: seq<real>): real
    requires |s| > 0
  {
    Sum(s) / |s| as real
  }

  function SeqMin(s: seq<real>): (m: real)
    requires |s| > 0
    ensures m in s
    ensures forall k :: 0 <= k < |s| ==> m <= s[k]
  {
    if |s| == 1 then s[0]
    else
      var rest := SeqMin(s[1..]);
      if s[0] <= rest then s[0] else rest
  }

  function SeqMax(s: seq<real>): (m: real)
    requires |s| > 0
    ensures m in s
    ensures forall k :: 0 <= k < |s| ==> s[k] <= m
  {
    if |s| == 1 then s[0]
    else
      var rest := SeqMax(s[1..]);
      if s[0] >= rest then s[0] else rest
  }

  /** `max(0, i - window // 2)`. */
  function WindowStart(i: nat, window: nat): nat
  {
    if i < window / 2 then 0 else i - window / 2
  }

  /** `min(n, i + window // 2 + 1)`. */
  function WindowEnd(n: nat, i: nat, window: nat): nat
  {
    if i + window / 2 + 1 < n then i + window / 2 + 1 else n
  }

  /** The clipped window around position i of a sequence of length n: it
      always contains i itself. */
  lemma WindowAroundIndex(n: nat, i: nat, window: nat)
    requires i < n
    ensures WindowStart(i, window) <= i < WindowEnd(n, i, window) <= n
  {
  }

  /** The window of position i of `scores`. */
  function Window(scores: seq<real>, i: nat, window: nat): (w: seq<real>)
    requires i < |scores|
    ensures 0 < |w| <= window / 2 * 2 + 1
  {
    scores[WindowStart(i, window)..WindowEnd(|scores|, i, window)]
  }

  /** What `smooth_motion_scores` returns: the input itself when it is shorter
      than the window, otherwise the mean of each position's clipped window. */
  function Smoothed(scores: seq<real>, window: nat): (r: seq<real>)
    ensures |r| == |scores|
  {
    if |scores| < window then scores
    else seq(|scores|, i requires 0 <= i < |scores| => Mean(Window(scores, i, window)))
  }

  method SmoothScores(scores: seq<real>, window: nat) returns (smoothed: seq<real>)
    ensures |smoothed| == |scores|
    ensures |scores| < window ==> smoothed == scores
    ensures smoothed == Smoothed(scores, window)
  {
    if |scores| < window {
      return scores;
    }
    smoothed := [];
    for i := 0 to |scores|
      invariant |smoothed| == i
      invariant forall k :: 0 <= k < i ==> smoothed[k] == Mean(Window(scores, k, window))
    {
      var start := if i - window / 2 > 0 then i - window / 2 else 0;
      var end := if |scores| < i + window / 2 + 1 then |scores| else i + window / 2 + 1;
      assert scores[start..end] == Window(scores, i, window);
      var avgScore := Mean(scores[start..end]);
      smoothed := smoothed + [avgScore];
    }
  }

  lemma {:induction false} SumBounds(s: seq<real>, lo: real, hi: real)
    requires forall k :: 0 <= k < |s| ==> lo <= s[k] <= hi
    ensures |s| as real * lo <= Sum(s) <= |s| as real * hi
  {
    if |s| > 0 {
      SumBounds(s[1..], lo, hi);
    }
  }

  /** A mean lies between any lower and upper bound of its elements. */
  lemma MeanWithinBounds(s: seq<real>, lo: real, hi: real)
    requires |s| > 0
    requires forall k :: 0 <= k < |s| ==> lo <= s[k] <= hi
    ensures lo <= Mean(s) <= hi
  {
    SumBounds(s, lo, hi);
    var n := |s| as real;
    assert Mean(s) - lo == (Sum(s) - n * lo) / n;
    assert hi - Mean(s) == (n * hi - Sum(s)) / n;
  }

  /** Each smoothed score lies between the least and the greatest raw score
      of its window. */
  lemma SmoothedWithinWindow(scores: seq<real>, window: nat, i: nat)
    requires window <= |scores|
    requires i < |scores|
    ensures SeqMin(Window(scores, i, window)) <= Smoothed(scores, window)[i] <= SeqMax(Window(scores, i, window))
  {
    var w := Window(scores, i, window);
    MeanWithinBounds(w, SeqMin(w), SeqMax(w));
  }

  /** Smoothing keeps every bound the raw scores respect; in particular
      scores in [0, 1] stay in [0, 1]. */
  lemma SmoothedKeepsBounds(scores: seq<real>, window: nat, lo: real, hi: real)
    requires forall k :: 0 <= k < |scores| ==> lo <= scores[k] <= hi
    ensures forall k :: 0 <= k < |scores| ==> lo <= Smoothed(scores, window)[k] <= hi
  {
    if window <= |scores| {
      forall k | 0 <= k < |scores|
        ensures lo <= Smoothed(scores, window)[k] <= hi
      {
        MeanWithinBounds(Window(scores, k, window), lo, hi);
      }
    }
  }

  /** A constant score sequence is left as it is. */
  lemma SmoothingFixesConstant(scores: seq<real>, window: nat, c: real)
    requires forall k :: 0 <= k < |scores| ==> scores[k] == c
    ensures Smoothed(scores, window) == scores
  {
    SmoothedKeepsBounds(scores, window, c, c);
  }
}
