/** `edit_video_segments`: how the kept spans are handed to the encoder. The
    encoder itself is not modelled; the model computes the render plan it
    would be given (one trimmed input, or several trimmed inputs joined by a
    concat filter, with or without an audio track) and takes the outcome of
    the encoder run as a parameter. */
module Rendering {
  import opened Wrappers
  import opened ActiveSegments

  /** One entry of a container probe's stream list; `codecType` is absent
      when the probe does not report it. */
  datatype Stream = Stream(codecType: Option<string>)

  /** One trimmed input: seek to `seekTo` and read `duration` seconds. */
  datatype Cut = Cut(seekTo: real, duration: real)

  /** What the encoder is asked to do. */
  datatype RenderPlan =
    | SingleTrim(cut: Cut, withAudio: bool)
    | ConcatTrims(cuts: seq<Cut>, withAudio: bool)

  function AudioStreams(streams: seq<Stream>): (audio: seq<Stream>)
    ensures |audio| <= |streams|
    ensures forall k :: 0 <= k < |audio| ==> audio[k] in streams && audio[k].codecType == Some("audio")
  {
    if |streams| == 0 then []
    else (if streams[0].codecType == Some("audio") then [streams[0]] else []) + AudioStreams(streams[1..])
  }

  /** The audio check: a probe that fails counts as no audio. */
  function HasAudio(probe: Option<seq<Stream>>): bool
  {
    probe.Some? && |AudioStreams(probe.value)| > 0
  }

  lemma {:induction false} AudioStreamsComplete(streams: seq<Stream>)
    ensures |AudioStreams(streams)| > 0 <==> exists k :: 0 <= k < |streams| && streams[k].codecType == Some("audio")
  {
    if |streams| > 0 {
      AudioStreamsComplete(streams[1..]);
      if streams[0].codecType != Some("audio") {
        assert forall k :: 1 <= k < |streams| ==> streams[k] == streams[1..][k - 1];
      }
    }
  }

  /** The audio track is kept exactly when the probe succeeds and reports
      some audio stream. */
  lemma HasAudioIffAudioStream(probe: Option<seq<Stream>>)
    ensures HasAudio(probe) <==> probe.Some? && exists k :: 0 <= k < |probe.value| && probe.value[k].codecType == Some("audio")
  {
    if probe.Some? {
      AudioStreamsComplete(probe.value);
    }
  }

  function CutOf(span: Interval): Cut
  {
    Cut(span.start, span.end - span.start)
  }

  function PlanCuts(plan: RenderPlan): seq<Cut>
  {
    match plan
    case SingleTrim(cut, _) => [cut]
    case ConcatTrims(cuts, _) => cuts
  }

  /** Returns whether the edit succeeded and the plan handed to the encoder,
      if any; `encoderSucceeds` is the outcome of running that plan. */
  method EditVideoSegments(activeSegments: seq<Interval>, probe: Option<seq<Stream>>, encoderSucceeds: bool)
    returns (success: bool, plan: Option<RenderPlan>)
    ensures plan.None? <==> |activeSegments| == 0
    ensures plan.Some? ==> (plan.value.SingleTrim? <==> |activeSegments| == 1)
    ensures plan.Some? ==> plan.value.withAudio == HasAudio(probe)
    ensures plan.Some? ==>
      && |PlanCuts(plan.value)| == |activeSegments|
      && forall k :: 0 <= k < |activeSegments| ==>
           PlanCuts(plan.value)[k].seekTo == activeSegments[k].start
           && PlanCuts(plan.value)[k].seekTo + PlanCuts(plan.value)[k].duration == activeSegments[k].end
    ensures success <==> |activeSegments| > 0 && encoderSucceeds
  {
    if |activeSegments| == 0 {
      return false, None;
    }
    var hasAudio := false;
    if probe.Some? {
      var audioStreams := AudioStreams(probe.value);
      hasAudio := |audioStreams| > 0;
    }
    if |activeSegments| == 1 {
      var segment := activeSegments[0];
      var duration := segment.end - segment.start;
      plan := Some(SingleTrim(Cut(segment.start, duration), hasAudio));
    } else {
      var inputs: seq<Cut> := [];
      for i := 0 to |activeSegments|
        invariant |inputs| == i
        invariant forall k :: 0 <= k < i ==> inputs[k] == CutOf(activeSegments[k])
      {
        var segment := activeSegments[i];
        var duration := segment.end - segment.start;
        inputs := inputs + [Cut(segment.start, duration)];
      }
      plan := Some(ConcatTrims(inputs, hasAudio));
    }
    success := encoderSucceeds;
  }

  /** The length of the edited video: the sum of the cut durations. */
  function OutputDuration(cuts: seq<Cut>): real
  {
    if |cuts| == 0 then 0.0 else cuts[0].duration + OutputDuration(cuts[1..])
  }

  /** Spans that follow one another inside [lo, hi] add up to at most
      hi - lo. */
  lemma {:induction false} OrderedSpansFit(spans: seq<Interval>, lo: real, hi: real)
    requires lo <= hi
    requires forall k :: 0 <= k < |spans| ==> lo <= spans[k].start <= spans[k].end <= hi
    requires Ordered(spans)
    ensures OutputDuration(seq(|spans|, k requires 0 <= k < |spans| => CutOf(spans[k]))) <= hi - lo
  {
    var cuts := seq(|spans|, k requires 0 <= k < |spans| => CutOf(spans[k]));
    if |spans| > 0 {
      var rest := spans[1..];
      OrderedSpansFit(rest, spans[0].end, hi);
      assert cuts[1..] == seq(|rest|, k requires 0 <= k < |rest| => CutOf(rest[k]));
    }
  }

  /** Rendering the kept spans of a sorted idle list never yields a video
      longer than the original. */
  lemma EditedVideoNoLonger(idle: seq<IdleDetection.IdleSegment>, total: real, buffer: real, plan: RenderPlan)
    requires SortedWithin(idle, total) && buffer >= 0.0 && total >= 0.0
    requires |PlanCuts(plan)| == |ActiveIntervals(idle, total, buffer)|
    requires forall k :: 0 <= k < |PlanCuts(plan)| ==> PlanCuts(plan)[k] == CutOf(ActiveIntervals(idle, total, buffer)[k])
    ensures OutputDuration(PlanCuts(plan)) <= total
  {
    var spans := ActiveIntervals(idle, total, buffer);
    ActiveIntervalsShape(idle, total, buffer);
    OrderedSpansFit(spans, 0.0, total);
    assert PlanCuts(plan) == seq(|spans|, k requires 0 <= k < |spans| => CutOf(spans[k]));
  }
}
