/** `detect_idle_segments`: a single pass over the smoothed scores that
    closes each run of below-threshold scores and keeps it when it lasts at
    least the minimum duration. */
module IdleDetection {
  import opened Wrappers

  /** One kept idle run, in frames and in seconds. */
  datatype IdleSegment = IdleSegment(startFrame: nat, endFrame: nat, startTime: real, endTime: real, duration: real)

  /** The record the detector builds for the run [startFrame, endFrame). */
  function Segment(startFrame: nat, endFrame: nat, fps: real): IdleSegment
    requires fps > 0.0
  {
    IdleSegment(startFrame, endFrame, startFrame as real / fps, endFrame as real / fps, (endFrame - startFrame) as real / fps)
  }

  /** [s, e) is a maximal run of idle scores (strictly below the threshold):
      every score inside is idle and the scores just outside, if any, are not. */
  ghost predicate MaximalIdleRun(scores: seq<real>, idleThreshold: real, s: nat, e: nat)
  {
    && s < e <= |scores|
    && (forall j :: s <= j < e ==> scores[j] < idleThreshold)
    && (s == 0 || scores[s - 1] >= idleThreshold)
    && (e == |scores| || scores[e] >= idleThreshold)
  }

  /** The duration filter, inclusive of the minimum. */
  predicate LongEnough(s: nat, e: nat, fps: real, minDuration: real)
    requires fps > 0.0
  {
    (e - s) as real / fps >= minDuration
  }

  /** Each segment is the record of a maximal idle run that is long enough. */
  ghost predicate SoundSegment(scores: seq<real>, fps: real, idleThreshold: real, minDuration: real, seg: IdleSegment)
    requires fps > 0.0
  {
    && seg == Segment(seg.startFrame, seg.endFrame, fps)
    && MaximalIdleRun(scores, idleThreshold, seg.startFrame, seg.endFrame)
    && LongEnough(seg.startFrame, seg.endFrame, fps, minDuration)
  }

  /** Every long-enough maximal idle run that ends before `bound` is listed. */
  ghost predicate CoversRunsBefore(scores: seq<real>, fps: real, idleThreshold: real, minDuration: real, segments: seq<IdleSegment>, bound: nat)
    requires fps > 0.0
  {
    forall s: nat, e: nat {:trigger MaximalIdleRun(scores, idleThreshold, s, e)} ::
      MaximalIdleRun(scores, idleThreshold, s, e) && e < bound && LongEnough(s, e, fps, minDuration) ==>
        exists k :: 0 <= k < |segments| && segments[k].startFrame == s && segments[k].endFrame == e
  }

  /** What the detector returns, stated without reference to its loop:
      exactly the maximal idle runs that last at least `minDuration`, each as
      its `Segment` record, in increasing order. */
  ghost predicate IsIdleSegmentation(scores: seq<real>, fps: real, idleThreshold: real, minDuration: real, segments: seq<IdleSegment>)
    requires fps > 0.0
  {
    && (forall k :: 0 <= k < |segments| ==> SoundSegment(scores, fps, idleThreshold, minDuration, segments[k]))
    && (forall j, k :: 0 <= j < k < |segments| ==> segments[j].endFrame < segments[k].startFrame)
    && CoversRunsBefore(scores, fps, idleThreshold, minDuration, segments, |scores| + 1)
  }

  /** Two maximal runs that end at the same place start at the same place. */
  lemma MaximalRunStartIsUnique(scores: seq<real>, idleThreshold: real, s: nat, s': nat, e: nat)
    requires MaximalIdleRun(scores, idleThreshold, s, e)
    requires MaximalIdleRun(scores, idleThreshold, s', e)
    ensures s == s'
  {
  }

  /** The scan step for coverage: extending the list keeps the runs already
      covered, and covering the runs that end at `i` moves the bound past i. */
  lemma CoverageExtends(scores: seq<real>, fps: real, idleThreshold: real, minDuration: real,
                        before: seq<IdleSegment>, after: seq<IdleSegment>, i: nat)
    requires fps > 0.0
    requires |before| <= |after| && after[..|before|] == before
    requires CoversRunsBefore(scores, fps, idleThreshold, minDuration, before, i)
    requires forall s: nat :: MaximalIdleRun(scores, idleThreshold, s, i) && LongEnough(s, i, fps, minDuration) ==>
      exists k :: 0 <= k < |after| && after[k].startFrame == s && after[k].endFrame == i
    ensures CoversRunsBefore(scores, fps, idleThreshold, minDuration, after, i + 1)
  {
    forall s: nat, e: nat | MaximalIdleRun(scores, idleThreshold, s, e) && e < i + 1 && LongEnough(s, e, fps, minDuration)
      ensures exists k :: 0 <= k < |after| && after[k].startFrame == s && after[k].endFrame == e
    {
      if e < i {
        var k :| 0 <= k < |before| && before[k].startFrame == s && before[k].endFrame == e;
        assert after[k] == before[k];
      }
    }
  }

  /** A scan position where no run closes: either the score before it is not
      idle (or there is none), or the score at it is idle and the run goes on.
      Coverage then moves past it unchanged. */
  lemma CoverageNoRunEnds(scores: seq<real>, fps: real, idleThreshold: real, minDuration: real,
                          segments: seq<IdleSegment>, i: nat)
    requires fps > 0.0
    requires i <= |scores|
    requires (i == 0 || scores[i - 1] >= idleThreshold) || (i < |scores| && scores[i] < idleThreshold)
    requires CoversRunsBefore(scores, fps, idleThreshold, minDuration, segments, i)
    ensures CoversRunsBefore(scores, fps, idleThreshold, minDuration, segments, i + 1)
  {
    assert forall s: nat :: !MaximalIdleRun(scores, idleThreshold, s, i);
    CoverageExtends(scores, fps, idleThreshold, minDuration, segments, segments, i);
  }

  /** A scan position where the open run [s, i) closes: it is maximal, and
      appending its record when it is long enough makes it covered. */
  lemma CoverageRunCloses(scores: seq<real>, fps: real, idleThreshold: real, minDuration: real,
                          before: seq<IdleSegment>, after: seq<IdleSegment>, s: nat, i: nat)
    requires fps > 0.0
    requires MaximalIdleRun(scores, idleThreshold, s, i)
    requires after == if LongEnough(s, i, fps, minDuration) then before + [Segment(s, i, fps)] else before
    requires CoversRunsBefore(scores, fps, idleThreshold, minDuration, before, i)
    ensures CoversRunsBefore(scores, fps, idleThreshold, minDuration, after, i + 1)
  {
    forall s': nat | MaximalIdleRun(scores, idleThreshold, s', i) && LongEnough(s', i, fps, minDuration)
      ensures exists k :: 0 <= k < |after| && after[k].startFrame == s' && after[k].endFrame == i
    {
      MaximalRunStartIsUnique(scores, idleThreshold, s, s', i);
      assert after[|after| - 1] == Segment(s, i, fps);
    }
    CoverageExtends(scores, fps, idleThreshold, minDuration, before, after, i);
  }

  /** What holds after the scan has looked at the first `i` scores, with
      `openRun` the start of the idle run still open, if any. */
  ghost predicate Scanned(scores: seq<real>, fps: real, idleThreshold: real, minDuration: real,
                          segments: seq<IdleSegment>, openRun: Option<nat>, i: nat)
    requires fps > 0.0
  {
    && i <= |scores|
    && (openRun.Some? ==>
          && openRun.value < i
          && (forall j :: openRun.value <= j < i ==> scores[j] < idleThreshold)
          && (openRun.value == 0 || scores[openRun.value - 1] >= idleThreshold))
    && (openRun.None? ==> i == 0 || scores[i - 1] >= idleThreshold)
    && (forall k :: 0 <= k < |segments| ==>
          && SoundSegment(scores, fps, idleThreshold, minDuration, segments[k])
          && segments[k].endFrame < i
          && (openRun.Some? ==> segments[k].endFrame < openRun.value))
    && (forall j, k :: 0 <= j < k < |segments| ==> segments[j].endFrame < segments[k].startFrame)
    && CoversRunsBefore(scores, fps, idleThreshold, minDuration, segments, i)
  }

  /** An idle score with no run open starts a run. */
  lemma ScanOpensRun(scores: seq<real>, fps: real, idleThreshold: real, minDuration: real,
                     segments: seq<IdleSegment>, i: nat)
    requires fps > 0.0
    requires Scanned(scores, fps, idleThreshold, minDuration, segments, None, i)
    requires i < |scores| && scores[i] < idleThreshold
    ensures Scanned(scores, fps, idleThreshold, minDuration, segments, Some(i), i + 1)
  {
    CoverageNoRunEnds(scores, fps, idleThreshold, minDuration, segments, i);
  }

  /** An idle score inside an open run, or an active score with none open,
      changes nothing but the position. */
  lemma ScanKeepsState(scores: seq<real>, fps: real, idleThreshold: real, minDuration: real,
                       segments: seq<IdleSegment>, openRun: Option<nat>, i: nat)
    requires fps > 0.0
    requires Scanned(scores, fps, idleThreshold, minDuration, segments, openRun, i)
    requires i < |scores| && (scores[i] < idleThreshold <==> openRun.Some?)
    ensures Scanned(scores, fps, idleThreshold, minDuration, segments, openRun, i + 1)
  {
    CoverageNoRunEnds(scores, fps, idleThreshold, minDuration, segments, i);
  }

  /** An active score, or the end of the scores, closes the open run [s, i),
      whose record is kept when it is long enough. */
  lemma ScanClosesRun(scores: seq<real>, fps: real, idleThreshold: real, minDuration: real,
                      before: seq<IdleSegment>, after: seq<IdleSegment>, s: nat, i: nat)
    requires fps > 0.0
    requires Scanned(scores, fps, idleThreshold, minDuration, before, Some(s), i)
    requires i == |scores| || scores[i] >= idleThreshold
    requires after == if LongEnough(s, i, fps, minDuration) then before + [Segment(s, i, fps)] else before
    ensures i < |scores| ==> Scanned(scores, fps, idleThreshold, minDuration, after, None, i + 1)
    ensures CoversRunsBefore(scores, fps, idleThreshold, minDuration, after, i + 1)
    ensures forall k :: 0 <= k < |after| ==> SoundSegment(scores, fps, idleThreshold, minDuration, after[k])
    ensures forall j, k :: 0 <= j < k < |after| ==> after[j].endFrame < after[k].startFrame
  {
    assert MaximalIdleRun(scores, idleThreshold, s, i);
    CoverageRunCloses(scores, fps, idleThreshold, minDuration, before, after, s, i);
    if LongEnough(s, i, fps, minDuration) {
      SoundAppend(scores, fps, idleThreshold, minDuration, before, s, i);
    }
  }

  /** Appending the record of a long maximal run that starts after every
      listed segment ends keeps the list sound and ordered. */
  lemma SoundAppend(scores: seq<real>, fps: real, idleThreshold: real, minDuration: real,
                    before: seq<IdleSegment>, s: nat, i: nat)
    requires fps > 0.0
    requires MaximalIdleRun(scores, idleThreshold, s, i) && LongEnough(s, i, fps, minDuration)
    requires forall k :: 0 <= k < |before| ==> SoundSegment(scores, fps, idleThreshold, minDuration, before[k]) && before[k].endFrame < s
    requires forall j, k :: 0 <= j < k < |before| ==> before[j].endFrame < before[k].startFrame
    ensures forall k :: 0 <= k < |before| + 1 ==> SoundSegment(scores, fps, idleThreshold, minDuration, (before + [Segment(s, i, fps)])[k])
    ensures forall j, k :: 0 <= j < k < |before| + 1 ==> (before + [Segment(s, i, fps)])[j].endFrame < (before + [Segment(s, i, fps)])[k].startFrame
  {
    var after := before + [Segment(s, i, fps)];
    assert SoundSegment(scores, fps, idleThreshold, minDuration, after[|before|]);
  }

  /** The block `detect_idle_segments` runs where an open run ends (inside
      the scan and once more after it): keep the run if it lasts at least
      `minDuration`. */
  method CloseRun(segments: seq<IdleSegment>, startFrame: nat, endFrame: nat, fps: real, minDuration: real)
    returns (result: seq<IdleSegment>)
    requires fps > 0.0
    requires startFrame <= endFrame
    ensures result == if LongEnough(startFrame, endFrame, fps, minDuration) then segments + [Segment(startFrame, endFrame, fps)] else segments
  {
    result := segments;
    var duration := (endFrame - startFrame) as real / fps;
    if duration >= minDuration {
      result := result + [IdleSegment(startFrame, endFrame, startFrame as real / fps, endFrame as real / fps, duration)];
    }
  }

  method DetectIdleSegments(scores: seq<real>, fps: real, idleThreshold: real, minDuration: real)
    returns (segments: seq<IdleSegment>)
    requires fps > 0.0
    ensures IsIdleSegmentation(scores, fps, idleThreshold, minDuration, segments)
  {
    segments := [];
    var startFrame: Option<nat> := None;
    for i := 0 to |scores|
      invariant Scanned(scores, fps, idleThreshold, minDuration, segments, startFrame, i)
    {
      var isIdle := scores[i] < idleThreshold;
      if isIdle && startFrame.None? {
        ScanOpensRun(scores, fps, idleThreshold, minDuration, segments, i);
        startFrame := Some(i);
      } else if !isIdle && startFrame.Some? {
        ghost var before := segments;
        segments := CloseRun(segments, startFrame.value, i, fps, minDuration);
        ScanClosesRun(scores, fps, idleThreshold, minDuration, before, segments, startFrame.value, i);
        startFrame := None;
      } else {
        ScanKeepsState(scores, fps, idleThreshold, minDuration, segments, startFrame, i);
      }
    }
    if startFrame.Some? {
      ghost var before := segments;
      segments := CloseRun(segments, startFrame.value, |scores|, fps, minDuration);
      ScanClosesRun(scores, fps, idleThreshold, minDuration, before, segments, startFrame.value, |scores|);
    } else {
      CoverageNoRunEnds(scores, fps, idleThreshold, minDuration, segments, |scores|);
    }
  }
}
