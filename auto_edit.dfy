/** `GameVideoAutoEditNode`: the per-video pipeline (motion scores, idle
    segments, kept spans, render) and the batch bookkeeping around it. Video
    decoding, the encoder and the filesystem are parameters: each video
    arrives with its container metadata, its decoded frames, its audio probe
    and the outcome its render would have. */
module AutoEdit {
  import opened Wrappers
  import opened FrameDiff
  import opened Smoothing
  import opened IdleDetection
  import opened ActiveSegments
  import opened Rendering
  import opened Listing

  /** A video file as the pipeline sees it. */
  datatype VideoFile = VideoFile(
    name: string,
    opens: bool,
    fps: real,
    frameCount: int,
    frames: seq<GrayFrame>,
    probe: Option<seq<Stream>>,
    encoderSucceeds: bool)

  /** The node's inputs that reach the per-video pipeline. */
  datatype Settings = Settings(
    idleThreshold: real,
    minSegmentDuration: real,
    pixelThreshold: int,
    preserveBuffer: real,
    enablePreview: bool)

  /** The per-video analysis record. */
  datatype VideoAnalysis = VideoAnalysis(
    filename: string,
    totalDuration: real,
    idleSegmentsCount: nat,
    totalIdleTime: real,
    activeTime: real,
    compressionRatio: real,
    idleSegments: seq<IdleSegment>)

  /** The input folder, as far as the node checks it. */
  datatype InputFolder = Missing | Present

  /** The batch report. */
  datatype Summary =
    | NoResults
    | Report(previewMode: bool, videoCount: nat, processedCount: nat,
             totalOriginalDuration: real, totalIdleTime: real, totalActiveTime: real,
             averageCompression: real, details: Listed<VideoAnalysis>)

  /** What the node returns next to the output folder. */
  datatype Reply = InputMissing | NoVideoFiles | NothingProcessed | Finished(summary: Summary)

  /** How many analysis records the report details. */
  const DetailLimit: nat := 10

  /** The video opens, reports a positive frame rate and frame count, and
      decodes to at least two frames, so that at least one score exists. */
  predicate Decodable(video: VideoFile)
  {
    video.opens && video.fps > 0.0 && video.frameCount > 0 && |video.frames| >= 2
  }

  /** The smoothed motion scores of a video. */
  function MotionScores(video: VideoFile, pixelThreshold: int): seq<real>
  {
    Smoothed(FrameScores(video.frames, pixelThreshold), DefaultWindow)
  }

  /** `detect_motion_simple`: nothing for a video that cannot be analysed,
      otherwise the smoothed scores and their idle segmentation. */
  method DetectMotionSimple(video: VideoFile, idleThreshold: real, pixelThreshold: int, minSegmentDuration: real)
    returns (detection: Option<(seq<real>, seq<IdleSegment>)>)
    ensures detection.Some? <==> Decodable(video)
    ensures detection.Some? ==>
      && detection.value.0 == MotionScores(video, pixelThreshold)
      && |detection.value.0| == |video.frames| - 1
      && IsIdleSegmentation(detection.value.0, video.fps, idleThreshold, minSegmentDuration, detection.value.1)
  {
    if !video.opens {
      return None;
    }
    if video.fps <= 0.0 || video.frameCount <= 0 {
      return None;
    }
    var motionScores, frameCount := ScoreFrames(video.frames, pixelThreshold);
    if |motionScores| == 0 {
      return None;
    }
    var smoothedScores := SmoothScores(motionScores, DefaultWindow);
    var idleSegments := DetectIdleSegments(smoothedScores, video.fps, idleThreshold, minSegmentDuration);
    return Some((smoothedScores, idleSegments));
  }

  /** The sum of the idle segments' durations. */
  function TotalIdleTime(segments: seq<IdleSegment>): real
  {
    if |segments| == 0 then 0.0 else segments[0].duration + TotalIdleTime(segments[1..])
  }

  /** The number of frames the idle segments cover. */
  function IdleFrames(segments: seq<IdleSegment>): int
  {
    if |segments| == 0 then 0 else (segments[0].endFrame - segments[0].startFrame) + IdleFrames(segments[1..])
  }

  /** The length from the container metadata, 0 without a frame rate. */
  function TotalDuration(video: VideoFile): real
  {
    if video.fps > 0.0 then video.frameCount as real / video.fps else 0.0
  }

  /** Kept time as a percentage of the whole, 0 for an empty video. */
  function CompressionRatio(activeTime: real, totalDuration: real): real
  {
    if totalDuration > 0.0 then activeTime / totalDuration * 100.0 else 0.0
  }

  /** The analysis record of a video with the given idle segments: it keeps
      the name, the duration and the segments, counts the segments, splits the
      duration into idle and active time, and gives the active share as a
      percentage, 0 for an empty video. */
  function Analyse(filename: string, totalDuration: real, idleSegments: seq<IdleSegment>): (record: VideoAnalysis)
    ensures record.filename == filename && record.totalDuration == totalDuration
    ensures record.idleSegments == idleSegments && record.idleSegmentsCount == |idleSegments|
    ensures record.totalIdleTime + record.activeTime == totalDuration
    ensures totalDuration <= 0.0 ==> record.compressionRatio == 0.0
    ensures 0.0 <= record.totalIdleTime <= totalDuration ==> 0.0 <= record.compressionRatio <= 100.0
    ensures totalDuration > 0.0 && record.totalIdleTime == 0.0 ==> record.compressionRatio == 100.0
  {
    RatioIsPercentage(totalDuration - TotalIdleTime(idleSegments), totalDuration);
    var totalIdleTime := TotalIdleTime(idleSegments);
    var activeTime := totalDuration - totalIdleTime;
    VideoAnalysis(filename, totalDuration, |idleSegments|, totalIdleTime, activeTime,
                  CompressionRatio(activeTime, totalDuration), idleSegments)
  }

  /** `record` is the analysis of `video` under `settings`. */
  ghost predicate AnalysisOf(record: VideoAnalysis, video: VideoFile, settings: Settings)
    requires video.fps > 0.0
  {
    && record == Analyse(video.name, TotalDuration(video), record.idleSegments)
    && IsIdleSegmentation(MotionScores(video, settings.pixelThreshold), video.fps,
                          settings.idleThreshold, settings.minSegmentDuration, record.idleSegments)
  }

  /** The outcome `process_single_video` reports: no record for a video that
      cannot be analysed; otherwise its record, and success in preview mode,
      or when some span is kept and the render succeeds. */
  ghost predicate ProcessOutcome(video: VideoFile, settings: Settings, success: bool, result: Option<VideoAnalysis>)
  {
    if !Decodable(video) then !success && result.None?
    else
      && result.Some?
      && AnalysisOf(result.value, video, settings)
      && (success <==>
            || settings.enablePreview
            || (&& |ActiveIntervals(result.value.idleSegments, TotalDuration(video), settings.preserveBuffer)| > 0
                && video.encoderSucceeds))
  }

  /** The number of successful outcomes. */
  ghost function SuccessCount(outcomes: seq<(bool, Option<VideoAnalysis>)>): nat
  {
    if |outcomes| == 0 then 0
    else SuccessCount(outcomes[..|outcomes| - 1]) + (if outcomes[|outcomes| - 1].0 then 1 else 0)
  }

  /** The records of the outcomes that have one, in order. */
  ghost function RecordsOf(outcomes: seq<(bool, Option<VideoAnalysis>)>): seq<VideoAnalysis>
  {
    if |outcomes| == 0 then []
    else
      var last := outcomes[|outcomes| - 1];
      RecordsOf(outcomes[..|outcomes| - 1]) + (if last.1.Some? then [last.1.value] else [])
  }

  /** The idle time removed by the outcomes that rendered. */
  ghost function RemovedIdleTime(outcomes: seq<(bool, Option<VideoAnalysis>)>, enablePreview: bool): real
  {
    if |outcomes| == 0 then 0.0
    else
      var last := outcomes[|outcomes| - 1];
      RemovedIdleTime(outcomes[..|outcomes| - 1], enablePreview)
        + (if last.0 && !enablePreview && last.1.Some? then last.1.value.totalIdleTime else 0.0)
  }

  /** One more outcome adds its success, its record and its removed idle
      time to the running totals. */
  lemma OutcomeAppended(outcomes: seq<(bool, Option<VideoAnalysis>)>, outcome: (bool, Option<VideoAnalysis>), enablePreview: bool)
    ensures SuccessCount(outcomes + [outcome]) == SuccessCount(outcomes) + (if outcome.0 then 1 else 0)
    ensures RecordsOf(outcomes + [outcome]) == RecordsOf(outcomes) + (if outcome.1.Some? then [outcome.1.value] else [])
    ensures RemovedIdleTime(outcomes + [outcome], enablePreview) == RemovedIdleTime(outcomes, enablePreview)
      + (if outcome.0 && !enablePreview && outcome.1.Some? then outcome.1.value.totalIdleTime else 0.0)
  {
    assert (outcomes + [outcome])[..|outcomes|] == outcomes;
  }

  /** The outcomes of the first videos, extended by the outcome of the next. */
  lemma OutcomesExtend(videos: seq<VideoFile>, settings: Settings, outcomes: seq<(bool, Option<VideoAnalysis>)>,
                       outcome: (bool, Option<VideoAnalysis>))
    requires |outcomes| < |videos|
    requires forall j :: 0 <= j < |outcomes| ==> ProcessOutcome(videos[j], settings, outcomes[j].0, outcomes[j].1)
    requires ProcessOutcome(videos[|outcomes|], settings, outcome.0, outcome.1)
    ensures forall j :: 0 <= j < |outcomes| + 1 ==>
      ProcessOutcome(videos[j], settings, (outcomes + [outcome])[j].0, (outcomes + [outcome])[j].1)
  {
  }

  /** In preview mode no outcome removes idle time. */
  lemma {:induction false} PreviewRemovesNoIdleTime(outcomes: seq<(bool, Option<VideoAnalysis>)>)
    ensures RemovedIdleTime(outcomes, true) == 0.0
  {
    if |outcomes| > 0 {
      PreviewRemovesNoIdleTime(outcomes[..|outcomes| - 1]);
    }
  }

  function SumTotalDuration(results: seq<VideoAnalysis>): real
  {
    if |results| == 0 then 0.0 else results[0].totalDuration + SumTotalDuration(results[1..])
  }

  function SumIdleTime(results: seq<VideoAnalysis>): real
  {
    if |results| == 0 then 0.0 else results[0].totalIdleTime + SumIdleTime(results[1..])
  }

  function SumActiveTime(results: seq<VideoAnalysis>): real
  {
    if |results| == 0 then 0.0 else results[0].activeTime + SumActiveTime(results[1..])
  }

  /** Dividing frame indices by a positive frame rate keeps their order. */
  lemma FramesToSeconds(a: int, b: int, fps: real)
    requires fps > 0.0 && a <= b
    ensures a as real / fps <= b as real / fps
    ensures a < b ==> a as real / fps < b as real / fps
  {
    assert b as real / fps - a as real / fps == (b - a) as real / fps;
  }

  /** The idle segments of a score sequence lie, in seconds, inside any
      duration at least as long as the scores, in order and apart: the list
      the active-span walk expects. */
  lemma DetectedIdleIsSortedWithin(scores: seq<real>, fps: real, idleThreshold: real, minDuration: real,
                                   segments: seq<IdleSegment>, total: real)
    requires fps > 0.0
    requires IsIdleSegmentation(scores, fps, idleThreshold, minDuration, segments)
    requires |scores| as real / fps <= total
    ensures SortedWithin(segments, total)
  {
    forall k | 0 <= k < |segments|
      ensures 0.0 <= segments[k].startTime < segments[k].endTime <= total
    {
      assert SoundSegment(scores, fps, idleThreshold, minDuration, segments[k]);
      FramesToSeconds(0, segments[k].startFrame, fps);
      FramesToSeconds(segments[k].startFrame, segments[k].endFrame, fps);
      FramesToSeconds(segments[k].endFrame, |scores|, fps);
    }
    forall j, k | 0 <= j < k < |segments|
      ensures segments[j].endTime <= segments[k].startTime
    {
      assert SoundSegment(scores, fps, idleThreshold, minDuration, segments[j]);
      assert SoundSegment(scores, fps, idleThreshold, minDuration, segments[k]);
      FramesToSeconds(segments[j].endFrame, segments[k].startFrame, fps);
    }
  }

  /** Idle segments that lie in order inside frames [lo, hi) cover at most
      hi - lo frames. */
  lemma {:induction false} IdleFramesFit(segments: seq<IdleSegment>, lo: int, hi: int)
    requires lo <= hi
    requires forall k :: 0 <= k < |segments| ==> lo <= segments[k].startFrame < segments[k].endFrame <= hi
    requires forall j, k :: 0 <= j < k < |segments| ==> segments[j].endFrame < segments[k].startFrame
    ensures 0 <= IdleFrames(segments) <= hi - lo
  {
    if |segments| > 0 {
      IdleFramesFit(segments[1..], segments[0].endFrame, hi);
    }
  }

  /** When every duration is its frame span over the frame rate, so is the
      total idle time. */
  lemma {:induction false} IdleTimeIsIdleFramesOverFps(segments: seq<IdleSegment>, fps: real)
    requires fps > 0.0
    requires forall k :: 0 <= k < |segments| ==>
      segments[k].duration == (segments[k].endFrame - segments[k].startFrame) as real / fps
    ensures TotalIdleTime(segments) == IdleFrames(segments) as real / fps
  {
    if |segments| > 0 {
      IdleTimeIsIdleFramesOverFps(segments[1..], fps);
      var first := (segments[0].endFrame - segments[0].startFrame) as real;
      assert first / fps + IdleFrames(segments[1..]) as real / fps == (first + IdleFrames(segments[1..]) as real) / fps;
    }
  }

  /** The container reports at least as many frames as yielded scores. */
  predicate MetadataCoversScores(video: VideoFile)
  {
    |video.frames| - 1 <= video.frameCount
  }

  /** The idle segments of a score sequence last, in total, at most as long
      as the scores. */
  lemma IdleTimeFitsScores(scores: seq<real>, fps: real, idleThreshold: real, minDuration: real, segments: seq<IdleSegment>)
    requires fps > 0.0
    requires IsIdleSegmentation(scores, fps, idleThreshold, minDuration, segments)
    ensures 0.0 <= TotalIdleTime(segments) <= |scores| as real / fps
  {
    forall k | 0 <= k < |segments|
      ensures 0 <= segments[k].startFrame < segments[k].endFrame <= |scores|
      ensures segments[k].duration == (segments[k].endFrame - segments[k].startFrame) as real / fps
    {
      assert SoundSegment(scores, fps, idleThreshold, minDuration, segments[k]);
    }
    IdleFramesFit(segments, 0, |scores|);
    IdleTimeIsIdleFramesOverFps(segments, fps);
    FramesToSeconds(0, IdleFrames(segments), fps);
    FramesToSeconds(IdleFrames(segments), |scores|, fps);
  }

  /** Kept time over a positive total, as a percentage, is a percentage. */
  lemma RatioIsPercentage(activeTime: real, totalDuration: real)
    ensures 0.0 <= activeTime <= totalDuration ==> 0.0 <= CompressionRatio(activeTime, totalDuration) <= 100.0
    ensures totalDuration > 0.0 && activeTime == totalDuration ==> CompressionRatio(activeTime, totalDuration) == 100.0
  {
    if totalDuration > 0.0 {
      if 0.0 <= activeTime <= totalDuration {
        assert activeTime / totalDuration <= 1.0;
      }
      if activeTime == totalDuration {
        assert activeTime / totalDuration == 1.0;
      }
    }
  }

  /** For a video whose metadata covers its scores, the analysis record is
      consistent: idle and active time lie between 0 and the total duration,
      add up to it, and the compression ratio is a percentage. */
  lemma AnalysisIsConsistent(record: VideoAnalysis, video: VideoFile, settings: Settings)
    requires Decodable(video) && MetadataCoversScores(video)
    requires AnalysisOf(record, video, settings)
    ensures record.idleSegmentsCount == |record.idleSegments|
    ensures 0.0 <= record.totalIdleTime <= record.totalDuration
    ensures 0.0 <= record.activeTime <= record.totalDuration
    ensures record.totalIdleTime + record.activeTime == record.totalDuration
    ensures 0.0 <= record.compressionRatio <= 100.0
  {
    var scores := MotionScores(video, settings.pixelThreshold);
    assert |scores| == |video.frames| - 1;
    IdleTimeFitsScores(scores, video.fps, settings.idleThreshold, settings.minSegmentDuration, record.idleSegments);
    FramesToSeconds(|scores|, video.frameCount, video.fps);
    RatioIsPercentage(record.activeTime, record.totalDuration);
  }

  /** For a video whose metadata covers its scores, every kept span lies
      inside the video and clear of every buffered idle segment, and the
      rendered video is no longer than the original. */
  lemma KeptSpansFitTheVideo(record: VideoAnalysis, video: VideoFile, settings: Settings)
    requires Decodable(video) && MetadataCoversScores(video)
    requires AnalysisOf(record, video, settings)
    requires settings.preserveBuffer >= 0.0
    ensures var spans := ActiveIntervals(record.idleSegments, TotalDuration(video), settings.preserveBuffer);
      && (forall k :: 0 <= k < |spans| ==> 0.0 <= spans[k].start <= spans[k].end <= TotalDuration(video))
      && Ordered(spans)
      && (forall k, j :: 0 <= k < |spans| && 0 <= j < |record.idleSegments| ==>
            spans[k].end <= record.idleSegments[j].startTime || record.idleSegments[j].endTime <= spans[k].start)
      && OutputDuration(seq(|spans|, k requires 0 <= k < |spans| => CutOf(spans[k]))) <= TotalDuration(video)
  {
    var scores := MotionScores(video, settings.pixelThreshold);
    var total := TotalDuration(video);
    var buffer := settings.preserveBuffer;
    var spans := ActiveIntervals(record.idleSegments, total, buffer);
    FramesToSeconds(|scores|, video.frameCount, video.fps);
    FramesToSeconds(0, video.frameCount, video.fps);
    DetectedIdleIsSortedWithin(scores, video.fps, settings.idleThreshold, settings.minSegmentDuration, record.idleSegments, total);
    ActiveIntervalsShape(record.idleSegments, total, buffer);
    forall k, j | 0 <= k < |spans| && 0 <= j < |record.idleSegments|
      ensures spans[k].end <= record.idleSegments[j].startTime || record.idleSegments[j].endTime <= spans[k].start
    {
      ActiveIntervalsAvoidIdle(record.idleSegments, total, buffer, k, j);
    }
    OrderedSpansFit(spans, 0.0, total);
  }

  /** Each successful video has a record, so the batch never counts more
      processed videos than it keeps records. */
  lemma {:induction false} ProcessedVideosHaveRecords(videos: seq<VideoFile>, settings: Settings,
                                                      outcomes: seq<(bool, Option<VideoAnalysis>)>)
    requires |outcomes| == |videos|
    requires forall i :: 0 <= i < |videos| ==> ProcessOutcome(videos[i], settings, outcomes[i].0, outcomes[i].1)
    ensures SuccessCount(outcomes) <= |RecordsOf(outcomes)| <= |outcomes|
  {
    if |outcomes| > 0 {
      var n := |outcomes| - 1;
      ProcessedVideosHaveRecords(videos[..n], settings, outcomes[..n]);
    }
  }

  /** The number of videos that can be analysed. */
  function DecodableCount(videos: seq<VideoFile>): nat
  {
    if |videos| == 0 then 0
    else DecodableCount(videos[..|videos| - 1]) + (if Decodable(videos[|videos| - 1]) then 1 else 0)
  }

  /** There is one record per video that could be analysed. */
  lemma {:induction false} RecordsAreTheDecodableVideos(videos: seq<VideoFile>, settings: Settings,
                                                        outcomes: seq<(bool, Option<VideoAnalysis>)>)
    requires |outcomes| == |videos|
    requires forall i :: 0 <= i < |videos| ==> ProcessOutcome(videos[i], settings, outcomes[i].0, outcomes[i].1)
    ensures |RecordsOf(outcomes)| == DecodableCount(videos)
  {
    if |outcomes| > 0 {
      var n := |outcomes| - 1;
      RecordsAreTheDecodableVideos(videos[..n], settings, outcomes[..n]);
      assert ProcessOutcome(videos[n], settings, outcomes[n].0, outcomes[n].1);
    }
  }

  lemma {:induction false} SummedTimesAreBounded(results: seq<VideoAnalysis>)
    requires forall k :: 0 <= k < |results| ==> 0.0 <= results[k].activeTime <= results[k].totalDuration
    ensures 0.0 <= SumActiveTime(results) <= SumTotalDuration(results)
  {
    if |results| > 0 {
      SummedTimesAreBounded(results[1..]);
    }
  }

  /** When every record's active time is its duration less its idle time, so
      are the report's totals. */
  lemma {:induction false} SummedActiveIsTotalLessIdle(results: seq<VideoAnalysis>)
    requires forall k :: 0 <= k < |results| ==> results[k].activeTime == results[k].totalDuration - results[k].totalIdleTime
    ensures SumActiveTime(results) == SumTotalDuration(results) - SumIdleTime(results)
  {
    if |results| > 0 {
      SummedActiveIsTotalLessIdle(results[1..]);
    }
  }

  class GameVideoAutoEditNode {
    var processedCount: nat
    var totalIdleTimeRemoved: real
    var analysisResults: seq<VideoAnalysis>

    constructor()
      ensures processedCount == 0 && totalIdleTimeRemoved == 0.0 && analysisResults == []
    {
      processedCount := 0;
      totalIdleTimeRemoved := 0.0;
      analysisResults := [];
    }

    /** `process_single_video`; only a rendered video adds its idle time to
        the running total. */
    method ProcessSingleVideo(video: VideoFile, settings: Settings) returns (success: bool, result: Option<VideoAnalysis>)
      modifies this`totalIdleTimeRemoved
      ensures ProcessOutcome(video, settings, success, result)
      ensures totalIdleTimeRemoved == old(totalIdleTimeRemoved)
        + (if success && !settings.enablePreview && result.Some? then result.value.totalIdleTime else 0.0)
    {
      var detection := DetectMotionSimple(video, settings.idleThreshold, settings.pixelThreshold, settings.minSegmentDuration);
      if detection.None? {
        return false, None;
      }
      var idleSegments := detection.value.1;
      var totalDuration := if video.fps > 0.0 then video.frameCount as real / video.fps else 0.0;
      var totalIdleTime := TotalIdleTime(idleSegments);
      var activeTime := totalDuration - totalIdleTime;
      var compressionRatio := if totalDuration > 0.0 then activeTime / totalDuration * 100.0 else 0.0;
      var analysisResult := VideoAnalysis(video.name, totalDuration, |idleSegments|, totalIdleTime,
                                          activeTime, compressionRatio, idleSegments);
      if settings.enablePreview {
        return true, Some(analysisResult);
      }
      var activeSegments := CreateActiveSegments(idleSegments, totalDuration, settings.preserveBuffer);
      if |activeSegments| == 0 {
        return false, Some(analysisResult);
      }
      var rendered, plan := EditVideoSegments(activeSegments, video.probe, video.encoderSucceeds);
      if rendered {
        totalIdleTimeRemoved := totalIdleTimeRemoved + totalIdleTime;
        return true, Some(analysisResult);
      } else {
        return false, Some(analysisResult);
      }
    }

    /** `auto_edit_videos` over the video files found in the input folder,
        processed one after the other; `outputPath` is the fresh output
        folder. */
    method AutoEditVideos(input: InputFolder, videos: seq<VideoFile>, settings: Settings, outputPath: string)
      returns (path: string, reply: Reply, ghost outcomes: seq<(bool, Option<VideoAnalysis>)>)
      modifies this
      ensures input == Missing ==>
        path == "" && reply == InputMissing
        && processedCount == old(processedCount) && totalIdleTimeRemoved == old(totalIdleTimeRemoved)
        && analysisResults == old(analysisResults)
      ensures input == Present && |videos| == 0 ==>
        path == "" && reply == NoVideoFiles
        && processedCount == old(processedCount) && totalIdleTimeRemoved == old(totalIdleTimeRemoved)
        && analysisResults == old(analysisResults)
      ensures input == Present && |videos| > 0 ==>
        && |outcomes| == |videos|
        && (forall i :: 0 <= i < |videos| ==> ProcessOutcome(videos[i], settings, outcomes[i].0, outcomes[i].1))
        && processedCount == SuccessCount(outcomes)
        && analysisResults == RecordsOf(outcomes)
        && totalIdleTimeRemoved == RemovedIdleTime(outcomes, settings.enablePreview)
        && (settings.enablePreview ==> totalIdleTimeRemoved == 0.0)
        && (processedCount == 0 ==> path == "" && reply == NothingProcessed)
        && (processedCount > 0 ==> path == outputPath && reply == Finished(AnalysisSummary(settings.enablePreview)))
    {
      outcomes := [];
      if input == Missing {
        return "", InputMissing, outcomes;
      }
      if |videos| == 0 {
        return "", NoVideoFiles, outcomes;
      }
      processedCount := 0;
      totalIdleTimeRemoved := 0.0;
      analysisResults := [];
      for i := 0 to |videos|
        invariant |outcomes| == i
        invariant forall j :: 0 <= j < i ==> ProcessOutcome(videos[j], settings, outcomes[j].0, outcomes[j].1)
        invariant processedCount == SuccessCount(outcomes)
        invariant analysisResults == RecordsOf(outcomes)
        invariant totalIdleTimeRemoved == RemovedIdleTime(outcomes, settings.enablePreview)
      {
        var success, analysisResult := ProcessSingleVideo(videos[i], settings);
        if success {
          processedCount := processedCount + 1;
        }
        if analysisResult.Some? {
          analysisResults := analysisResults + [analysisResult.value];
        }
        OutcomeAppended(outcomes, (success, analysisResult), settings.enablePreview);
        OutcomesExtend(videos, settings, outcomes, (success, analysisResult));
        outcomes := outcomes + [(success, analysisResult)];
      }
      PreviewRemovesNoIdleTime(outcomes);
      var analysisSummary := AnalysisSummary(settings.enablePreview);
      if processedCount == 0 {
        return "", NothingProcessed, outcomes;
      }
      return outputPath, Finished(analysisSummary), outcomes;
    }

    /** `generate_analysis_summary`: the duration, idle and active totals
        over all records, the average compression as the summed active time
        over the summed duration (the per-video ratio applied to the totals,
        not a mean of the per-video ratios), and the first `DetailLimit`
        records in detail. */
    function AnalysisSummary(enablePreview: bool): (summary: Summary)
      reads this
      ensures summary.NoResults? <==> |analysisResults| == 0
      ensures summary.Report? ==>
        && summary.previewMode == enablePreview
        && summary.videoCount == |analysisResults|
        && summary.processedCount == processedCount
        && summary.details.shown <= analysisResults
        && |summary.details.shown| == (if |analysisResults| < DetailLimit then |analysisResults| else DetailLimit)
        && (summary.details.more.Some? <==> |analysisResults| > DetailLimit)
        && (summary.details.more.Some? ==> summary.details.more.value == |analysisResults| - DetailLimit)
      ensures summary.Report? ==>
        && summary.totalOriginalDuration == SumTotalDuration(analysisResults)
        && summary.totalIdleTime == SumIdleTime(analysisResults)
        && summary.totalActiveTime == SumActiveTime(analysisResults)
        && summary.averageCompression
           == CompressionRatio(SumActiveTime(analysisResults), SumTotalDuration(analysisResults))
    {
      if |analysisResults| == 0 then NoResults
      else
        var totalOriginal := SumTotalDuration(analysisResults);
        var totalIdle := SumIdleTime(analysisResults);
        var totalActive := SumActiveTime(analysisResults);
        var averageCompression := if totalOriginal > 0.0 then totalActive / totalOriginal * 100.0 else 0.0;
        Report(enablePreview, |analysisResults|, processedCount, totalOriginal, totalIdle, totalActive,
               averageCompression, Cap(analysisResults, DetailLimit))
    }

    /** With consistent records the report's average compression is a
        percentage and its active total is its duration total less its idle
        total. */
    lemma SummaryIsConsistent(enablePreview: bool)
      requires forall k :: 0 <= k < |analysisResults| ==>
        && 0.0 <= analysisResults[k].activeTime <= analysisResults[k].totalDuration
        && analysisResults[k].activeTime == analysisResults[k].totalDuration - analysisResults[k].totalIdleTime
      ensures AnalysisSummary(enablePreview).Report? ==>
        && 0.0 <= AnalysisSummary(enablePreview).averageCompression <= 100.0
        && AnalysisSummary(enablePreview).totalActiveTime
           == AnalysisSummary(enablePreview).totalOriginalDuration - AnalysisSummary(enablePreview).totalIdleTime
    {
      SummedTimesAreBounded(analysisResults);
      SummedActiveIsTotalLessIdle(analysisResults);
      var total := SumTotalDuration(analysisResults);
      if total > 0.0 {
        assert SumActiveTime(analysisResults) / total <= 1.0;
      }
    }
  }
}
