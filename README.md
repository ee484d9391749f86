# Game video auto-edit and filename formatter, modelled in Dafny

This project models the two ComfyUI nodes of the `comfyui-yx-easyuse` plugin.

**`GameVideoAutoEditNode`** trims the idle stretches out of gameplay recordings:

- It scores each decoded frame by the fraction of its 320×240 grey pixels that changed by more than a pixel threshold since the previous frame.
- It smooths the scores with a centred three-score moving average.
- It finds the runs of scores below the idle threshold that last at least a minimum duration.
- It keeps the stretches between those runs, shortened by a preserve buffer on each side.
- It hands those stretches to the encoder as one trim or a concatenation of trims, with audio when the probe reports an audio stream.
- Over a batch, it counts the videos processed and the idle time removed, and builds a summary that details at most ten videos.

**`FilenameFormatterNode`** renames every visible file of a folder:

- It cleans the name: optional pinyin for CJK ideographs, symbol and control characters dropped, separator runs and (without pinyin) non-ASCII runs made `_`, underscores collapsed and stripped, "unnamed" for an empty name, a 200-character cap, and a lower-case extension.
- It builds the new name from a prefix, the modification time and the cleaned name.
- It makes the name unique in its directory with a counter suffix `_001` … `_9999`.
- Outside a dry run it renames the file and counts the renames. In either mode it counts as an error a file whose modification time cannot be read; outside a dry run it also counts a rename the operating system refuses.
- Its report lists at most twenty renames.

The model's form follows the source:

- Pure code is functions with lemmas.
- Loops are methods with invariants, each proved equal to a specification function or predicate. These are the frame loop, the smoothing loop, the idle scan, the active-span loop, the cut list, the counter loop and the directory walk.
- The two node classes keep their fields (`processedCount`, `totalIdleTimeRemoved`, `analysisResults`; `processedCount`, `errorCount`, `renameMap`) and update them in place.
- Times and ratios are exact `real` numbers.

The file system, the video decoder, the encoder, the container probe, the Unicode database and the pinyin dictionary are not modelled. What the code learns from them arrives as inputs:

- **A video** (`AutoEdit.VideoFile`) gives:
  - whether it opens, its frame rate and frame count, and its decoded grey frames;
  - the probe's stream list, absent when the probe fails;
  - whether the encoder run succeeds.
- **A listed file** (`FilenameFormatter.FileEntry`) gives:
  - its formatted modification time, absent when it cannot be read;
  - whether the rename is accepted.
- **The file system** is the set of paths that exist.
- **Unicode data** (`FilenameCleaning.UnicodeInfo`) supplies the general categories and the pinyin.

The batch checks only that its input path exists (nodes/game_video_auto_edit.py:432). A path that exists but is not a directory fails later, in the listing, and ends in the outer exception handler (nodes/game_video_auto_edit.py:503-505). The model does not cover that case: it processes the video list it is given.

The formatter's behaviour has one consequence worth knowing. A listed file exists under its own name, so `get_unique_filename` returns that name only when all 9999 numbered candidates exist too. A file that already has its formatted name is therefore renamed again with a `_001` suffix rather than skipped. `FilenameFormatter.KeepsNameOnlyWhenCountersRunOut` states this.

The existence test joins the directory and the name, so the names "", "." and ".." always exist: they name the directory itself or its parent. A file whose new name would be "" (no prefix, no time, a name part that cleans to "unnamed", no extension) or "." is given "_001" or "._001" instead. `FilenameFormatter.ExistingNames` adds those three names to the directory's entries, and `FilenameFormatter.TargetNeverNamesTheDirectory` states the consequence.

## Model

| member | source | states |
|---|---|---|
| FrameDiff.ChangeRatio | nodes/game_video_auto_edit.py:141-150 | the motion score of a frame pair lies in [0, 1], and times the pixel count it is the number of pixels whose absolute difference is strictly above the pixel threshold |
| FrameDiff.ChangedPixelsCountsChangedSet | nodes/game_video_auto_edit.py:143-146 | counting over the pixels in order gives the size of the set of changed pixel positions |
| FrameDiff.ChangeAtThresholdScoresZero | nodes/game_video_auto_edit.py:146 | the comparison is strict: a pair where no pixel changes by more than the threshold scores 0 |
| FrameDiff.ChangeEverywhereScoresOne | nodes/game_video_auto_edit.py:146-148 | a pair where every pixel changes by more than the threshold scores 1 |
| FrameDiff.FrameScores | nodes/game_video_auto_edit.py:132-154 | one score per frame after the first, each in [0, 1] |
| FrameDiff.ScoreFrames | nodes/game_video_auto_edit.py:125-155 | the frame loop counts every frame and produces, for each frame after the first, the change ratio against its predecessor |
| Smoothing.Smoothed | nodes/game_video_auto_edit.py:177-189 | smoothing keeps the number of scores |
| Smoothing.SmoothScores | nodes/game_video_auto_edit.py:177-189 | the loop returns the input itself when it is shorter than the window, and otherwise the mean of each position's window clipped to the sequence |
| Smoothing.WindowAroundIndex | nodes/game_video_auto_edit.py:184-185 | the clipped window of a position lies inside the sequence and contains that position |
| Smoothing.MeanWithinBounds | nodes/game_video_auto_edit.py:186 | a window's mean lies between its least and its greatest score |
| Smoothing.SmoothedWithinWindow | nodes/game_video_auto_edit.py:182-187 | each smoothed score lies between the least and the greatest raw score of its window |
| Smoothing.SmoothedKeepsBounds | nodes/game_video_auto_edit.py:177-189 | scores inside [lo, hi] stay inside [lo, hi] after smoothing |
| Smoothing.SmoothingFixesConstant | nodes/game_video_auto_edit.py:177-189 | a constant score sequence is left unchanged |
| IdleDetection.DetectIdleSegments | nodes/game_video_auto_edit.py:191-226 | the result is exactly the maximal runs of scores strictly below the threshold that last at least the minimum duration, the one reaching the end included. Each is recorded with its start and end frames and times and its duration, in increasing order and separated by a non-idle score |
| IdleDetection.MaximalRunStartIsUnique | nodes/game_video_auto_edit.py:196-212 | two maximal idle runs that end at the same frame start at the same frame |
| ActiveSegments.CreateActiveSegments | nodes/game_video_auto_edit.py:228-259 | the loop's result equals the span list `ActiveIntervals`, which follows the cursor rule of the source |
| ActiveSegments.CursorNeverDecreases | nodes/game_video_auto_edit.py:236-250 | for idle segments sorted inside the video, the cursor never moves back and stays within [0, total] |
| ActiveSegments.ActiveIntervalsShape | nodes/game_video_auto_edit.py:228-259 | every kept span lies inside [0, total] and the spans follow one another. Each keeps clear of every idle segment widened by the buffer, and when something was idle each is longer than 0.5 s |
| ActiveSegments.ActiveIntervalsAvoidIdle | nodes/game_video_auto_edit.py:238-250 | no kept span overlaps an idle segment, buffer included |
| ActiveSegments.NothingIdleKeepsWholeVideo | nodes/game_video_auto_edit.py:232-234 | with no idle segment the whole video is one span, however short |
| ActiveSegments.ExampleMiddleIdle | nodes/game_video_auto_edit.py:238-257 | idle 2–6 s of a 10 s video with a 1 s buffer keeps [0, 1] and [7, 10] |
| ActiveSegments.ExampleLeadingIdle | nodes/game_video_auto_edit.py:238-257 | idle 0–3 s of a 5 s video with a 1 s buffer keeps only [4, 5] |
| Rendering.AudioStreamsComplete | nodes/game_video_auto_edit.py:275-276 | the audio filter finds a stream exactly when some stream's codec type is "audio" |
| Rendering.HasAudioIffAudioStream | nodes/game_video_auto_edit.py:272-279 | the audio track is kept exactly when the probe succeeds and reports an audio stream |
| Rendering.EditVideoSegments | nodes/game_video_auto_edit.py:261-347 | there is no plan, and no success, for an empty span list. Otherwise one span gives a single trim and several give a concatenation, with one cut per span that seeks to its start and lasts its length. Audio is kept iff the probe reports it, and success means the encoder succeeded |
| Rendering.EditedVideoNoLonger | nodes/game_video_auto_edit.py:397-404 | the cuts made from the kept spans add up to no more than the video's length |
| AutoEdit.DetectMotionSimple | nodes/game_video_auto_edit.py:108-175 | scores exist exactly when the video opens, has a positive frame rate and frame count, and yields at least one frame pair. They are the smoothed frame scores, one per frame after the first, and the idle segments are their idle segmentation |
| AutoEdit.DetectedIdleIsSortedWithin | nodes/game_video_auto_edit.py:191-226 | detected idle segments are well formed, sorted and inside the video whenever the scores fit the video's duration |
| AutoEdit.Analyse | nodes/game_video_auto_edit.py:371-387 | the record keeps the name, duration and segments and counts the segments. Idle and active time add up to the duration. The compression ratio is 0 for an empty video, 100 when nothing is idle, and a percentage whenever the idle time fits the duration |
| AutoEdit.IdleTimeIsIdleFramesOverFps | nodes/game_video_auto_edit.py:375 | the summed idle duration is the number of idle frames divided by the frame rate |
| AutoEdit.AnalysisIsConsistent | nodes/game_video_auto_edit.py:371-387 | a video's record counts its idle segments, its idle and active times lie in [0, total] and add up to the total, and its compression ratio lies in [0, 100] |
| AutoEdit.KeptSpansFitTheVideo | nodes/game_video_auto_edit.py:397-404 | the spans cut from an analysed video lie inside it, follow one another, avoid its idle segments and add up to no more than its length |
| AutoEdit.ProcessedVideosHaveRecords | nodes/game_video_auto_edit.py:479-486 | over a batch, every processed video has a record, and there are no more records than videos |
| AutoEdit.RecordsAreTheDecodableVideos | nodes/game_video_auto_edit.py:359-387 | the batch holds one record per video that could be analysed |
| AutoEdit.PreviewRemovesNoIdleTime | nodes/game_video_auto_edit.py:391-407 | in preview mode no outcome adds to the removed idle time |
| AutoEdit.SummedTimesAreBounded | nodes/game_video_auto_edit.py:516-518 | summed active time lies between 0 and the summed original duration |
| AutoEdit.SummedActiveIsTotalLessIdle | nodes/game_video_auto_edit.py:516-518 | summed active time is summed duration less summed idle time |
| AutoEdit.GameVideoAutoEditNode.ProcessSingleVideo | nodes/game_video_auto_edit.py:349-414 | an unanalysable video fails with no record. Otherwise its record is built, and success means preview mode, or some span kept and the encoder succeeded. The removed idle time grows by the video's idle time only on a successful edit |
| AutoEdit.GameVideoAutoEditNode.AutoEditVideos | nodes/game_video_auto_edit.py:416-505 | a missing input or an empty video list returns early and leaves the fields alone. Otherwise the fields are reset and then hold the number of successes, the records, and the idle time removed by successful edits, which is 0 in preview mode. The reply is "nothing processed" with no path when nothing succeeded, else the output path and the summary |
| AutoEdit.GameVideoAutoEditNode.AnalysisSummary | nodes/game_video_auto_edit.py:507-548 | no results gives the empty report. Otherwise it reports the mode and the video and success counts. Its totals are the sums of the records' durations, idle times and active times. Its average compression is the summed active time over the summed duration, times 100, and 0 when that duration is 0: the per-video ratio of the totals, not a mean of ratios. It details the first min(n, 10) records and notes the n − 10 left out exactly when n > 10 |
| AutoEdit.GameVideoAutoEditNode.SummaryIsConsistent | nodes/game_video_auto_edit.py:515-519 | the average compression lies in [0, 100] and total active time is total duration less total idle time |
| Listing.Cap | nodes/game_video_auto_edit.py:533-541 | the first min(n, limit) items are shown, in order, and the count left out is present exactly when n exceeds the limit and equals n − limit |
| FilenameCleaning.SplitExt | nodes/filename_formatter.py:71 | name part and extension concatenate back to the input, and a non-empty extension is a dot followed by neither dots nor slashes |
| FilenameCleaning.ExtensionAfterLastDot | nodes/filename_formatter.py:71 | a root that does not end in "." or "/", a dot, and text without dots or slashes split into that root and the dot with that text: the extension starts at the last dot |
| FilenameCleaning.NoDotNoExtension | nodes/filename_formatter.py:71 | a name without a dot has no extension |
| FilenameCleaning.LeadingDotsNoExtension | nodes/filename_formatter.py:71 | leading dots do not start an extension (".bashrc" has none) |
| FilenameCleaning.Lower | nodes/filename_formatter.py:118 | lowering keeps the length, leaves no upper-case ASCII letter, turns each into its lower-case letter and keeps every other character in place |
| FilenameCleaning.LowerIsIdempotent | nodes/filename_formatter.py:118 | lowering twice is lowering once, and lowering leaves a string unchanged exactly when it holds no upper-case letter |
| FilenameCleaning.ToPinyin | nodes/filename_formatter.py:74-82 | text with no CJK ideograph is left unchanged; a single CJK ideograph becomes its pinyin, and any other single character stays |
| FilenameCleaning.ToPinyinAppend | nodes/filename_formatter.py:76-82 | conversion goes character by character: converting a concatenation concatenates the conversions |
| FilenameCleaning.DropCategories | nodes/filename_formatter.py:89-94 | only characters of the input survive, none of a dropped category, and text without one is left unchanged; a single character is dropped exactly when its category is dropped |
| FilenameCleaning.DropCategoriesAppend | nodes/filename_formatter.py:89-94 | filtering goes character by character: filtering a concatenation concatenates the filtered parts, so the kept characters stay in order |
| FilenameCleaning.StripLeading | nodes/filename_formatter.py:107 | only leading underscores are removed, and the result does not start with one |
| FilenameCleaning.StripTrailing | nodes/filename_formatter.py:116 | only trailing underscores are removed, and the result does not end with one |
| FilenameCleaning.ReplaceRunsCharacters | nodes/filename_formatter.py:97-104 | a run rewrite leaves only input characters outside the class, plus underscores |
| FilenameCleaning.EachRunBecomesOneUnderscore | nodes/filename_formatter.py:97 | each maximal run of class characters becomes exactly one underscore |
| FilenameCleaning.ReplaceRunsIdentity | nodes/filename_formatter.py:97-104 | text with no class character is left unchanged |
| FilenameCleaning.CollapsedHasNoDoubleUnderscore | nodes/filename_formatter.py:104 | after collapsing, no two underscores are adjacent |
| FilenameCleaning.FinishShape | nodes/filename_formatter.py:107-116 | strip, fallback and cap turn text without adjacent underscores into a non-empty name within the cap that has none, and neither starts nor ends with one |
| FilenameCleaning.CleanNameShape | nodes/filename_formatter.py:66-116 | the cleaned name part is non-empty and has no "__". It neither starts nor ends with "_", and it is at most the cap long |
| FilenameCleaning.CleanNameIsAsciiWithoutConversion | nodes/filename_formatter.py:97-116 | without pinyin conversion every character of the cleaned name part is ASCII |
| FilenameCleaning.EmptyNameBecomesUnnamed | nodes/filename_formatter.py:104-111 | a name part made only of underscores cleans to "unnamed" |
| FilenameCleaning.PlainNameIsKept | nodes/filename_formatter.py:66-116 | a name part within the cap that is ASCII, holds no separator and no underscore, and no character of a dropped category cleans to itself |
| FilenameCleaning.FinishCharacters | nodes/filename_formatter.py:107-116 | strip, fallback and cap keep only characters of their input or of "unnamed" |
| FilenameCleaning.CleanNameCharacters | nodes/filename_formatter.py:87-116 | every character of the cleaned name part is "_", a letter of "unnamed", or a character that is no separator and of no symbol or control category |
| FilenameCleaning.LettersAreNoSeparators | nodes/filename_formatter.py:97 | no character from "_" to "z" except the backquote is in the separator class |
| FilenameCleaning.NoSeparatorOrDroppedCategorySurvives | nodes/filename_formatter.py:87-116 | when "_" and the letters of "unnamed" are of no dropped category, as in Unicode, no separator and no symbol, emoji or control character is left in the cleaned name part |
| FilenameCleaning.CleanFilename | nodes/filename_formatter.py:66-118 | the cleaned file name ends with the lower-cased extension. What precedes it is non-empty, at most 200 characters, has no "__", neither starts nor ends with "_", and is ASCII unless pinyin conversion ran |
| FilenameCleaning.TimestampFilename | nodes/filename_formatter.py:120-143 | for every input the new name ends with the extension and is as long as its parts, the separators between them and the extension. It starts with the prefix when there is one, with the prefix and "_" when another part follows, with the prefix, "_" and the time when both are present, and with the time when there is no prefix. A kept name part (not empty, not "unnamed") ends it just before the extension, after a "_" when another part precedes it. With no part it is the bare extension |
| FilenameCleaning.NamePartsPositions | nodes/filename_formatter.py:133-140 | the prefix comes first when present, the time follows it (or comes first without a prefix), and a kept name part comes last |
| FilenameCleaning.TimestampFilenameAllParts | nodes/filename_formatter.py:133-143 | with every part present the new name is prefix, time and name part joined by "_", then the extension |
| FilenameCleaning.JoinUnderscoreLength | nodes/filename_formatter.py:142 | the joined name is as long as its parts plus one underscore between each two |
| FilenameCleaning.JoinUnderscoreStartsWithFirst | nodes/filename_formatter.py:142 | the joined name starts with the first part, then "_" and the second part when there are more |
| FilenameCleaning.JoinUnderscoreEndsWithLast | nodes/filename_formatter.py:142 | the joined name ends with the last part, after a "_" when there are more |
| FilenameCleaning.UnnamedWithoutPrefixIsBareExtension | nodes/filename_formatter.py:133-142 | with no prefix, no time and the "unnamed" placeholder, the new name is the bare extension |
| FilenameCleaning.Pad3 | nodes/filename_formatter.py:154 | the padded counter is all digits and exactly max(3, number of decimal digits) long, so three for every counter below 1000 |
| FilenameCleaning.Pad3Value | nodes/filename_formatter.py:154 | the padded digits denote the counter |
| FilenameCleaning.CandidatesDiffer | nodes/filename_formatter.py:154 | different counters give different candidate names |
| FilenameCleaning.UniqueNameIsFirstFree | nodes/filename_formatter.py:145-161 | a free desired name is kept. Otherwise the result is the candidate with the smallest counter that is free, or the 9999th candidate when all are taken, and every smaller counter's candidate exists |
| FilenameCleaning.UniqueNameTakenOnlyWhenExhausted | nodes/filename_formatter.py:152-159 | the result names an existing file only when the desired name and all 9999 candidates exist |
| FilenameCleaning.UniqueNameAvoidsTheDirectory | nodes/filename_formatter.py:149-161 | with "", "." and ".." counted as existing, the result is none of them, and a desired "" or "." becomes the first candidate when that is free |
| FilenameFormatter.GetUniqueFilename | nodes/filename_formatter.py:145-161 | the counter loop returns the name `UniqueName` characterises |
| FilenameFormatter.WalkCounts | nodes/filename_formatter.py:187-220 | the walk only appends renames, at most one per file. It carries out at most the renames it records, and each file adds at most one to the renamed and error counts together |
| FilenameFormatter.WalkCountsExactly | nodes/filename_formatter.py:187-220 | a dry run adds exactly one error per visible file whose modification time cannot be read. Otherwise renamed plus errors grows by that number plus the number of renames recorded: each recorded rename is carried out or counted as an error |
| FilenameFormatter.WalkRenamesVisibleFiles | nodes/filename_formatter.py:187-210 | every recorded rename belongs to a listed file not starting with ".", stays in its directory and changes its name |
| FilenameFormatter.DryRunChangesNoFile | nodes/filename_formatter.py:212-215 | a dry run leaves the files as they are and counts no rename as carried out |
| FilenameFormatter.KeepsNameOnlyWhenCountersRunOut | nodes/filename_formatter.py:205-208 | an existing file keeps its name only when all 9999 numbered candidates exist too |
| FilenameFormatter.KeptNameMeansExhausted | nodes/filename_formatter.py:149-161 | for any desired name, an existing file whose unique name is its own name has all 9999 numbered candidates taken |
| FilenameFormatter.TargetNeverNamesTheDirectory | nodes/filename_formatter.py:196-208 | the new name of a file is never "", "." or ".."; a file whose time-stamped name is "" or "." gets "_001" or "._001" when that is free |
| FilenameFormatter.FilenameFormatterNode.ProcessDirectory | nodes/filename_formatter.py:163-222 | a missing path or a non-directory fails with its error and changes nothing. Otherwise the recorded renames, the added renamed and error counts, and the resulting files are those of the walk over the listed files |
| FilenameFormatter.FilenameFormatterNode.FormatFilenames | nodes/filename_formatter.py:224-282 | the counts and map are reset, and a failure leaves them so. Otherwise the map holds the renames. The report gives the mode and the planned count, the renamed count outside a dry run, and the errors. It lists the first min(n, 20) renames with n − 20 left out when n > 20, and notes when pinyin was asked for but is unavailable |

## Left out

- Video decoding, resizing, grey conversion, the container probe and the encoder (cv2 and ffmpeg) are foreign calls. Frames arrive already grey at 320×240; the probe result and the encoder outcome are inputs.
- The thread pool of `auto_edit_videos` is modelled as a sequential pass over the videos. The order in which results complete, and thus the order of the records, is not modelled. Nor is the unlocked `self.total_idle_time_removed +=` of the worker threads (nodes/game_video_auto_edit.py:407): two edits finishing together can lose one update, which the model's total never does.
- The output folder name (uuid), the temporary folder with its symbolic links or copies and its clean-up, the glob over video extensions, and path resolution against the ComfyUI folders are left out. The batch receives the video list and the output path as inputs, and the formatter receives the folder kind and its listing.
- The output file name `<stem>_edited.mp4` and the encoder settings (codec, preset, quality) are not modelled.
- Arithmetic is exact: floating-point rounding of scores, means, times and ratios is not modelled.
- The Unicode general categories, the pinyin dictionary and the `strftime` formatting of modification times are inputs, not definitions.
- FilenameCleaning.Lower: only ASCII letters are lowered; Python lowers every cased Unicode character of the extension.
- FilenameFormatter.ExistingNames: a name exists when it matches an entry exactly, as on a case-sensitive file system; on Windows and macOS `os.path.exists` ignores case, so there more names count as taken. A prefix holding "/" makes the source look in, and rename into, a sub-directory; the model keeps every name in its own directory.
- `os.walk` for the recursive mode and `os.listdir` for the flat mode are not modelled; the listing is an input, in the order the walk would yield it.
- Exceptions other than those the source checks for are not modelled. These are the outer handlers of `process_single_video`, `auto_edit_videos` and `format_filenames`, and a batch input that exists but is not a directory. Nor is a rename that replaces another listed file before that file's turn.
- Log lines, progress messages, emoji and the report texts are left out; the replies carry only the counts, the listed items and the flags the texts show.
