/** `create_active_segments`: the parts of a video worth keeping are the gaps
    between the idle segments, each idle segment widened by a buffer on both
    sides, with gaps of half a second or less dropped. */
module ActiveSegments {
  import opened IdleDetection

  /** A kept span of the video, in seconds. */
  datatype Interval = Interval(start: real, end: real)

  /** A gap must be strictly longer than this to be kept. */
  const MinActiveLength: real := 0.5

  function Max(a: real, b: real): real
  {
    if a >= b then a else b
  }

  function Min(a: real, b: real): real
  {
    if a <= b then a else b
  }

  /** The cursor of the walk after it has stepped over the first `i` idle
      segments: 0 at the start, then the end of the last segment passed plus
      the buffer, clipped to the video. */
  function Cursor(idle: seq<IdleSegment>, i: nat, total: real, buffer: real): real
    requires i <= |idle|
  {
    if i == 0 then 0.0 else Min(total, idle[i - 1].endTime + buffer)
  }

  /** The spans the walk emits from the i-th idle segment on: before each idle
      segment, the gap from the cursor up to the segment's start less the
      buffer, when that gap is longer than `MinActiveLength`. */
  function Walk(idle: seq<IdleSegment>, i: nat, total: real, buffer: real): seq<Interval>
    requires i <= |idle|
    decreases |idle| - i
  {
    if i == |idle| then []
    else
      var segmentStart := Cursor(idle, i, total, buffer);
      var segmentEnd := Max(segmentStart, idle[i].startTime - buffer);
      (if segmentEnd > segmentStart + MinActiveLength then [Interval(segmentStart, segmentEnd)] else [])
        + Walk(idle, i + 1, total, buffer)
  }

  /** What `create_active_segments` returns: the whole video when nothing is
      idle, otherwise the walk's spans and the tail after the last idle
      segment when it is longer than `MinActiveLength`. */
  function ActiveIntervals(idle: seq<IdleSegment>, total: real, buffer: real): seq<Interval>
  {
    if |idle| == 0 then [Interval(0.0, total)]
    else
      var last := Cursor(idle, |idle|, total, buffer);
      Walk(idle, 0, total, buffer) + (if last < total - MinActiveLength then [Interval(last, total)] else [])
  }

  method CreateActiveSegments(idleSegments: seq<IdleSegment>, totalDuration: real, preserveBuffer: real)
    returns (activeSegments: seq<Interval>)
    ensures activeSegments == ActiveIntervals(idleSegments, totalDuration, preserveBuffer)
  {
    if |idleSegments| == 0 {
      return [Interval(0.0, totalDuration)];
    }
    activeSegments := [];
    var currentTime := 0.0;
    for i := 0 to |idleSegments|
      invariant currentTime == Cursor(idleSegments, i, totalDuration, preserveBuffer)
      invariant activeSegments + Walk(idleSegments, i, totalDuration, preserveBuffer)
                == Walk(idleSegments, 0, totalDuration, preserveBuffer)
    {
      var idle := idleSegments[i];
      var segmentStart := currentTime;
      var segmentEnd := Max(currentTime, idle.startTime - preserveBuffer);
      if segmentEnd > segmentStart + MinActiveLength {
        activeSegments := activeSegments + [Interval(segmentStart, segmentEnd)];
      }
      currentTime := Min(totalDuration, idle.endTime + preserveBuffer);
    }
    if currentTime < totalDuration - MinActiveLength {
      activeSegments := activeSegments + [Interval(currentTime, totalDuration)];
    }
  }

  /** The idle list the walk expects: every segment inside [0, total], in
      order and not overlapping. */
  ghost predicate SortedWithin(idle: seq<IdleSegment>, total: real)
  {
    && (forall k :: 0 <= k < |idle| ==> 0.0 <= idle[k].startTime < idle[k].endTime <= total)
    && (forall j, k :: 0 <= j < k < |idle| ==> idle[j].endTime <= idle[k].startTime)
  }

  ghost predicate Ordered(spans: seq<Interval>)
  {
    forall j, k :: 0 <= j < k < |spans| ==> spans[j].end <= spans[k].start
  }

  /** `span` ends before the buffered start of `idle`, or starts after its
      buffered (and clipped) end. */
  ghost predicate ClearOf(span: Interval, idle: IdleSegment, total: real, buffer: real)
  {
    span.end <= idle.startTime - buffer || Min(total, idle.endTime + buffer) <= span.start
  }

  /** The cursor never moves backwards. */
  lemma CursorNeverDecreases(idle: seq<IdleSegment>, i: nat, j: nat, total: real, buffer: real)
    requires SortedWithin(idle, total) && buffer >= 0.0 && total >= 0.0
    requires i <= j <= |idle|
    ensures 0.0 <= Cursor(idle, i, total, buffer) <= Cursor(idle, j, total, buffer) <= total
  {
    if 0 < i {
      assert idle[i - 1].endTime <= idle[j - 1].endTime by {
        if i < j {
          assert idle[i - 1].endTime <= idle[j - 1].startTime;
        }
      }
    }
  }

  /** Spans that start at or after `lo`, end at or before `hi`, are each
      longer than `MinActiveLength`, follow one another and keep clear of every
      buffered idle segment. */
  ghost predicate WellShaped(spans: seq<Interval>, idle: seq<IdleSegment>, lo: real, hi: real, total: real, buffer: real)
  {
    && (forall k :: 0 <= k < |spans| ==> lo <= spans[k].start && spans[k].start + MinActiveLength < spans[k].end <= hi)
    && Ordered(spans)
    && (forall k, j :: 0 <= k < |spans| && 0 <= j < |idle| ==> ClearOf(spans[k], idle[j], total, buffer))
  }

  /** A well-shaped list stays so with one more span in front that ends before
      the list's lower bound. */
  lemma WellShapedCons(span: Interval, rest: seq<Interval>, idle: seq<IdleSegment>, lo: real, mid: real, hi: real, total: real, buffer: real)
    requires WellShaped(rest, idle, mid, hi, total, buffer)
    requires lo <= span.start && span.start + MinActiveLength < span.end <= mid <= hi
    requires forall j :: 0 <= j < |idle| ==> ClearOf(span, idle[j], total, buffer)
    ensures WellShaped([span] + rest, idle, lo, hi, total, buffer)
  {
    var spans := [span] + rest;
    forall k | 0 < k < |spans|
      ensures spans[k] == rest[k - 1]
    {
    }
  }

  /** The span emitted before the i-th idle segment ends where that segment's
      buffer begins, before the next cursor, and is clear of every buffered
      idle segment. */
  lemma EmittedSpanIsClear(idle: seq<IdleSegment>, i: nat, total: real, buffer: real)
    requires SortedWithin(idle, total) && buffer >= 0.0
    requires i < |idle|
    requires Cursor(idle, i, total, buffer) < idle[i].startTime - buffer
    ensures idle[i].startTime - buffer < Cursor(idle, i + 1, total, buffer)
    ensures forall j :: 0 <= j < |idle| ==>
      ClearOf(Interval(Cursor(idle, i, total, buffer), idle[i].startTime - buffer), idle[j], total, buffer)
  {
    var span := Interval(Cursor(idle, i, total, buffer), idle[i].startTime - buffer);
    assert 0.0 <= idle[i].startTime < idle[i].endTime <= total;
    forall j | 0 <= j < |idle|
      ensures ClearOf(span, idle[j], total, buffer)
    {
      if j < i {
        CursorNeverDecreases(idle, j + 1, i, total, buffer);
      } else if i < j {
        assert idle[i].endTime <= idle[j].startTime;
      }
    }
  }

  /** The walk from step i: each span it emits starts at or after the cursor,
      is longer than `MinActiveLength`, ends at or before the final cursor,
      follows the previous span, and keeps clear of every buffered idle
      segment. */
  lemma {:induction false} WalkShape(idle: seq<IdleSegment>, i: nat, total: real, buffer: real)
    requires SortedWithin(idle, total) && buffer >= 0.0
    requires i <= |idle|
    ensures WellShaped(Walk(idle, i, total, buffer), idle, Cursor(idle, i, total, buffer), Cursor(idle, |idle|, total, buffer), total, buffer)
    decreases |idle| - i
  {
    if i < |idle| {
      assert 0.0 <= idle[i].startTime < idle[i].endTime <= total;
      WalkShape(idle, i + 1, total, buffer);
      CursorNeverDecreases(idle, i, i + 1, total, buffer);
      CursorNeverDecreases(idle, i + 1, |idle|, total, buffer);
      var c := Cursor(idle, i, total, buffer);
      var segmentEnd := Max(c, idle[i].startTime - buffer);
      var rest := Walk(idle, i + 1, total, buffer);
      if segmentEnd > c + MinActiveLength {
        EmittedSpanIsClear(idle, i, total, buffer);
        WellShapedCons(Interval(c, segmentEnd), rest, idle, c, Cursor(idle, i + 1, total, buffer), Cursor(idle, |idle|, total, buffer), total, buffer);
      }
    }
  }

  /** The shape of the whole result for a sorted idle list inside the video
      and a non-negative buffer: every span lies inside the video, spans
      follow one another, each keeps clear of every buffered idle segment,
      and, unless nothing was idle, each is longer than `MinActiveLength`. */
  lemma ActiveIntervalsShape(idle: seq<IdleSegment>, total: real, buffer: real)
    requires SortedWithin(idle, total) && buffer >= 0.0 && total >= 0.0
    ensures forall k :: 0 <= k < |ActiveIntervals(idle, total, buffer)| ==>
      0.0 <= ActiveIntervals(idle, total, buffer)[k].start <= ActiveIntervals(idle, total, buffer)[k].end <= total
    ensures |idle| > 0 ==> forall k :: 0 <= k < |ActiveIntervals(idle, total, buffer)| ==>
      ActiveIntervals(idle, total, buffer)[k].start + MinActiveLength < ActiveIntervals(idle, total, buffer)[k].end
    ensures Ordered(ActiveIntervals(idle, total, buffer))
    ensures forall k, j :: 0 <= k < |ActiveIntervals(idle, total, buffer)| && 0 <= j < |idle| ==>
      ClearOf(ActiveIntervals(idle, total, buffer)[k], idle[j], total, buffer)
  {
    if |idle| > 0 {
      var n := |idle|;
      WalkShape(idle, 0, total, buffer);
      CursorNeverDecreases(idle, 0, n, total, buffer);
      var last := Cursor(idle, n, total, buffer);
      if last < total - MinActiveLength {
        var tail := Interval(last, total);
        forall j | 0 <= j < n
          ensures ClearOf(tail, idle[j], total, buffer)
        {
          CursorNeverDecreases(idle, j + 1, n, total, buffer);
        }
        WellShapedSnoc(Walk(idle, 0, total, buffer), tail, idle, 0.0, last, total, total, buffer);
      } else {
        assert ActiveIntervals(idle, total, buffer) == Walk(idle, 0, total, buffer);
      }
      assert WellShaped(ActiveIntervals(idle, total, buffer), idle, 0.0, total, total, buffer);
    }
  }

  /** A well-shaped list stays so with one more span at the back that starts
      after the list's upper bound. */
  lemma WellShapedSnoc(spans: seq<Interval>, span: Interval, idle: seq<IdleSegment>, lo: real, mid: real, hi: real, total: real, buffer: real)
    requires WellShaped(spans, idle, lo, mid, total, buffer)
    requires lo <= mid <= span.start && span.start + MinActiveLength < span.end <= hi
    requires forall j :: 0 <= j < |idle| ==> ClearOf(span, idle[j], total, buffer)
    ensures WellShaped(spans + [span], idle, lo, hi, total, buffer)
  {
    var all := spans + [span];
    forall k | 0 <= k < |spans|
      ensures all[k] == spans[k]
    {
    }
  }

  /** No kept span overlaps an idle segment, not even by the buffer. */
  lemma ActiveIntervalsAvoidIdle(idle: seq<IdleSegment>, total: real, buffer: real, k: nat, j: nat)
    requires SortedWithin(idle, total) && buffer >= 0.0 && total >= 0.0
    requires k < |ActiveIntervals(idle, total, buffer)| && j < |idle|
    ensures ActiveIntervals(idle, total, buffer)[k].end <= idle[j].startTime - buffer
         || idle[j].endTime + buffer <= ActiveIntervals(idle, total, buffer)[k].start
  {
    ActiveIntervalsShape(idle, total, buffer);
  }

  /** With no idle segment the whole video is kept, however short. */
  lemma NothingIdleKeepsWholeVideo(total: real, buffer: real)
    ensures ActiveIntervals([], total, buffer) == [Interval(0.0, total)]
  {
  }

  /** Idle from 2 s to 6 s of a 10 s video, buffer 1 s: [0, 1] and [7, 10]
      are kept. */
  lemma ExampleMiddleIdle()
    ensures ActiveIntervals([IdleSegment(2, 6, 2.0, 6.0, 4.0)], 10.0, 1.0) == [Interval(0.0, 1.0), Interval(7.0, 10.0)]
  {
  }

  /** Idle from 0 s to 3 s of a 5 s video, buffer 1 s: the leading gap is
      empty, so only [4, 5] is kept. */
  lemma ExampleLeadingIdle()
    ensures ActiveIntervals([IdleSegment(0, 3, 0.0, 3.0, 3.0)], 5.0, 1.0) == [Interval(4.0, 5.0)]
  {
  }
}
