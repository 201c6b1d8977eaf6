/**
 * `MP4BoxWrapper`: splitting one video into fixed-length segments and
 * merging a directory of videos into one, by driving the `MP4Box` tool.
 *
 * The tool itself is not modelled. Each run of it is an oracle: `run`
 * says whether a command line exits with status zero, and `probe` gives the
 * report that `MP4Box -info` prints (or `None` when it exits non-zero). The
 * directory listing is an input too.
 */
module Mp4BoxWrapper {
  import opened Results
  import opened PyStr
  import opened Paths
  import opened Ordering
  import opened Segments
  import opened Duration

  const Tool := "MP4Box"
  const VideoExtension := ".mp4"

  /** The four paths the wrapper is constructed with; nothing changes them later. */
  datatype MP4BoxWrapper = MP4BoxWrapper(
    originalVideoPath: string,
    videoSegments: string,
    outputPath: string,
    outputDirectory: string)

  /** The exceptions that escape `split_videos`. */
  datatype SplitError =
    | CalledProcessError               // `MP4Box -info` exited with a non-zero status
    | DurationError(error: ParseError) // its report did not parse
    | ZeroDivisionError                // a segment length of zero, for a video not shorter than that

  // ---------------------------------------------------------------------
  // _get_video_files

  /** The entries of `listing` that end with ".mp4", in listing order. */
  function Mp4Names(listing: seq<string>): (names: seq<string>)
    ensures |names| <= |listing|
    ensures forall i :: 0 <= i < |names| ==> EndsWith(names[i], VideoExtension)
  {
    if listing == [] then []
    else
      var last := listing[|listing| - 1];
      Mp4Names(listing[..|listing| - 1]) + (if EndsWith(last, VideoExtension) then [last] else [])
  }

  /** Each name joined onto `directory`. */
  function JoinAll(directory: string, names: seq<string>): (paths: seq<string>)
    ensures |paths| == |names|
    ensures forall i :: 0 <= i < |names| ==> paths[i] == Join(directory, names[i])
  {
    seq(|names|, i requires 0 <= i < |names| => Join(directory, names[i]))
  }

  /** The filter keeps exactly the ".mp4" entries. */
  lemma {:induction false} Mp4NamesMembers(listing: seq<string>, name: string)
    ensures name in Mp4Names(listing) <==> name in listing && EndsWith(name, VideoExtension)
    decreases |listing|
  {
    if listing != [] {
      var front := listing[..|listing| - 1];
      Mp4NamesMembers(front, name);
      assert listing == front + [listing[|listing| - 1]];
    }
  }

  /** The filter keeps the listing order: filtering a concatenation
      concatenates the filtered parts. */
  lemma {:induction false} Mp4NamesAppend(a: seq<string>, b: seq<string>)
    ensures Mp4Names(a + b) == Mp4Names(a) + Mp4Names(b)
    decreases |b|
  {
    if b == [] {
      assert a + b == a;
    } else {
      var front := b[..|b| - 1];
      assert (a + b)[..|a + b| - 1] == a + front;
      Mp4NamesAppend(a, front);
    }
  }

  /** Entries of a listing of distinct names stay distinct once filtered. */
  lemma {:induction false} Mp4NamesDistinct(listing: seq<string>)
    requires Distinct(listing)
    ensures Distinct(Mp4Names(listing))
    decreases |listing|
  {
    if listing != [] {
      var front := listing[..|listing| - 1];
      var last := listing[|listing| - 1];
      Mp4NamesDistinct(front);
      Mp4NamesMembers(front, last);
      assert last !in front;
    }
  }

  /** `_get_video_files`: the ".mp4" entries of the listing, each joined
      onto the segments directory, in listing order. */
  method GetVideoFiles(w: MP4BoxWrapper, listing: seq<string>) returns (videoFiles: seq<string>)
    ensures videoFiles == JoinAll(w.videoSegments, Mp4Names(listing))
  {
    videoFiles := [];
    for i := 0 to |listing|
      invariant videoFiles == JoinAll(w.videoSegments, Mp4Names(listing[..i]))
    {
      assert listing[..i + 1][..i] == listing[..i];
      if EndsWith(listing[i], VideoExtension) {
        videoFiles := videoFiles + [Join(w.videoSegments, listing[i])];
      }
    }
    assert listing[..|listing|] == listing;
  }

  // ---------------------------------------------------------------------
  // _get_video_duration and _calculate_segment_count

  /** The command `_get_video_duration` runs. */
  function InfoCommand(videoPath: string): seq<string> {
    [Tool, "-info", videoPath]
  }

  /** `_get_video_duration`, in milliseconds: a failing `MP4Box -info`
      raises, otherwise its report is parsed. */
  function VideoDurationMs(videoPath: string, probe: seq<string> -> Option<string>): (r: Result<int, SplitError>)
    ensures probe(InfoCommand(videoPath)).None? ==> r == Failure(CalledProcessError)
    ensures probe(InfoCommand(videoPath)).Some? ==>
              match DurationMs(probe(InfoCommand(videoPath)).value)
              case Success(ms) => r == Success(ms)
              case Failure(e) => r == Failure(DurationError(e))
  {
    match probe(InfoCommand(videoPath))
    case None => Failure(CalledProcessError)
    case Some(report) =>
      match DurationMs(report)
      case Success(ms) => Success(ms)
      case Failure(e) => Failure(DurationError(e))
  }

  /** `_calculate_segment_count` for a segment length of `duration` seconds:
      a failed probe propagates; a video shorter than one segment has no
      segments; otherwise the count is the ceiling of the quotient, and a
      length of zero divides by zero. */
  function CalculateSegmentCount(videoPath: string, duration: int, probe: seq<string> -> Option<string>): (r: Result<int, SplitError>)
    ensures VideoDurationMs(videoPath, probe).Failure? ==> r == Failure(VideoDurationMs(videoPath, probe).error)
    ensures VideoDurationMs(videoPath, probe).Success? ==>
              var ms := VideoDurationMs(videoPath, probe).value;
              && (ms < 1000 * duration ==> r == Success(0))
              && (ms >= 1000 * duration && duration == 0 ==> r == Failure(ZeroDivisionError))
              && (duration != 0 ==> r == Success(SegmentCount(ms, 1000 * duration)))
  {
    match VideoDurationMs(videoPath, probe)
    case Failure(e) => Failure(e)
    case Success(ms) =>
      if ms < 1000 * duration then Success(0)
      else if duration == 0 then Failure(ZeroDivisionError)
      else Success(SegmentCount(ms, 1000 * duration))
  }

  // ---------------------------------------------------------------------
  // split_videos

  /** `f"{start}:{end}"` */
  function RangeArg(start: int, end: int): string {
    IntToString(start) + ":" + IntToString(end)
  }

  /** The source's file name without its extension. */
  function OutputBase(videoPath: string): string {
    StripExtension(Basename(videoPath))
  }

  /** The file name of segment `index` (0-based): `<base>_segment_<index+1>.mp4`,
      where `<base>` is the source's file name without its extension. */
  function SegmentFileName(outputBase: string, index: nat): string {
    outputBase + "_segment_" + NatToString(index + 1) + VideoExtension
  }

  /** The command that cuts segment `index` out of the source. */
  function SplitCommand(w: MP4BoxWrapper, outputBase: string, duration: int, index: nat): seq<string> {
    [Tool, "-splitx", RangeArg(index * duration, index * duration + duration),
     w.originalVideoPath, "-out", Join(w.outputDirectory, SegmentFileName(outputBase, index))]
  }

  /** The commands for segments `0 .. count - 1`, in order. */
  function SplitPlan(w: MP4BoxWrapper, outputBase: string, duration: int, count: nat): (plan: seq<seq<string>>)
    ensures |plan| == count
    ensures forall i :: 0 <= i < count ==> plan[i] == SplitCommand(w, outputBase, duration, i)
  {
    seq(count, i requires 0 <= i < count => SplitCommand(w, outputBase, duration, i))
  }

  /**
   * Running `plan` in order and stopping at the first failure produced
   * `attempted` and the verdict `ok`: the attempted commands are a non-empty
   * prefix of the plan, every attempted command but the last succeeded, the
   * run stopped early only because its last command failed, and the verdict
   * is true exactly when the whole plan ran and its last command succeeded.
   */
  ghost predicate RanUntilFirstFailure(plan: seq<seq<string>>, run: seq<string> -> bool,
                                       attempted: seq<seq<string>>, ok: bool) {
    && 1 <= |attempted| <= |plan|
    && attempted == plan[..|attempted|]
    && (forall j :: 0 <= j < |attempted| - 1 ==> run(attempted[j]))
    && (|attempted| < |plan| ==> !run(attempted[|attempted| - 1]))
    && (ok <==> |attempted| == |plan| && run(attempted[|attempted| - 1]))
  }

  /**
   * `split_videos(duration)`. Exceptions from the duration probe and the
   * division escape (`Failure`); a video shorter than one segment gives
   * `False` with no command run; a negative count (possible only for a
   * negative length) runs nothing and gives `True`; otherwise the split
   * commands run in index order and the first failure ends the run with
   * `False`.
   */
  method SplitVideos(w: MP4BoxWrapper, duration: int,
                     probe: seq<string> -> Option<string>, run: seq<string> -> bool)
    returns (result: Result<bool, SplitError>, attempted: seq<seq<string>>)
    ensures CalculateSegmentCount(w.originalVideoPath, duration, probe).Failure? ==>
              result == Failure(CalculateSegmentCount(w.originalVideoPath, duration, probe).error) && attempted == []
    ensures CalculateSegmentCount(w.originalVideoPath, duration, probe) == Success(0) ==>
              result == Success(false) && attempted == []
    ensures CalculateSegmentCount(w.originalVideoPath, duration, probe).Success? ==>
              var count := CalculateSegmentCount(w.originalVideoPath, duration, probe).value;
              && (count < 0 ==> result == Success(true) && attempted == [])
              && (count > 0 ==> result.Success? && RanUntilFirstFailure(SplitPlan(w, OutputBase(w.originalVideoPath), duration, count),
                                                                         run, attempted, result.value))
  {
    var counted := CalculateSegmentCount(w.originalVideoPath, duration, probe);
    if counted.Failure? {
      return Failure(counted.error), [];
    }
    var segmentCount := counted.value;
    if segmentCount == 0 {
      return Success(false), [];
    }
    var outputBase := OutputBase(w.originalVideoPath);
    if segmentCount < 0 {
      // `range` of a negative count is empty: the loop does not run.
      return Success(true), [];
    }
    var ok;
    ok, attempted := SplitSegments(w, outputBase, duration, segmentCount, run);
    result := Success(ok);
  }

  /** The loop of `split_videos`: run the split command of every segment in
      index order, and give up at the first one that fails. */
  method SplitSegments(w: MP4BoxWrapper, outputBase: string, duration: int, segmentCount: nat,
                       run: seq<string> -> bool)
    returns (ok: bool, attempted: seq<seq<string>>)
    requires segmentCount > 0
    ensures RanUntilFirstFailure(SplitPlan(w, outputBase, duration, segmentCount), run, attempted, ok)
  {
    ghost var plan := SplitPlan(w, outputBase, duration, segmentCount);
    attempted := [];
    var index := 0;
    while index < segmentCount
      invariant 0 <= index <= segmentCount
      invariant attempted == plan[..index]
      invariant forall j :: 0 <= j < index ==> run(attempted[j])
    {
      var startTime := index * duration;
      var outputPath := Join(w.outputDirectory, outputBase + "_segment_" + NatToString(index + 1) + VideoExtension);
      var command := [Tool, "-splitx", IntToString(startTime) + ":" + IntToString(startTime + duration),
                      w.originalVideoPath, "-out", outputPath];
      assert command == plan[index];
      AttemptNext(plan, run, attempted, index);
      attempted := attempted + [command];
      if !run(command) {
        return false, attempted;
      }
      index := index + 1;
    }
    AttemptedAll(plan, run, attempted);
    ok := true;
  }

  /** One more step of the run: the attempted commands stay a prefix of the
      plan, and a failing command ends the run unsuccessfully. */
  lemma AttemptNext(plan: seq<seq<string>>, run: seq<string> -> bool, attempted: seq<seq<string>>, index: nat)
    requires index < |plan|
    requires attempted == plan[..index]
    requires forall j :: 0 <= j < index ==> run(attempted[j])
    ensures attempted + [plan[index]] == plan[..index + 1]
    ensures !run(plan[index]) ==> RanUntilFirstFailure(plan, run, attempted + [plan[index]], false)
  {
    assert plan[..index + 1] == plan[..index] + [plan[index]];
  }

  /** A run in which every command of a non-empty plan succeeded. */
  lemma AttemptedAll(plan: seq<seq<string>>, run: seq<string> -> bool, attempted: seq<seq<string>>)
    requires |plan| > 0
    requires attempted == plan[..|plan|]
    requires forall j :: 0 <= j < |plan| ==> run(attempted[j])
    ensures RanUntilFirstFailure(plan, run, attempted, true)
  {
    assert attempted == plan;
  }

  /** The outcome of a run that stops at the first failure is determined by
      the plan and the tool's answers. */
  lemma RanUntilFirstFailureUnique(plan: seq<seq<string>>, run: seq<string> -> bool,
                                   attempted1: seq<seq<string>>, ok1: bool,
                                   attempted2: seq<seq<string>>, ok2: bool)
    requires RanUntilFirstFailure(plan, run, attempted1, ok1)
    requires RanUntilFirstFailure(plan, run, attempted2, ok2)
    ensures attempted1 == attempted2 && ok1 == ok2
  {
  }

  /** If command `k` fails, nothing after it was attempted and the split failed. */
  lemma SplitStopsAtFailure(plan: seq<seq<string>>, run: seq<string> -> bool,
                            attempted: seq<seq<string>>, ok: bool, k: nat)
    requires RanUntilFirstFailure(plan, run, attempted, ok)
    requires k < |plan| && !run(plan[k])
    ensures |attempted| <= k + 1
    ensures !ok
  {
  }

  /** If command `k` is the first to fail, exactly commands `0..k` were
      attempted and the split failed. */
  lemma SplitRunsThroughFirstFailure(plan: seq<seq<string>>, run: seq<string> -> bool,
                                     attempted: seq<seq<string>>, ok: bool, k: nat)
    requires RanUntilFirstFailure(plan, run, attempted, ok)
    requires k < |plan| && !run(plan[k])
    requires forall j :: 0 <= j < k ==> run(plan[j])
    ensures attempted == plan[..k + 1]
    ensures !ok
  {
  }

  /** The split succeeds exactly when every planned command succeeds, and
      then all of them were attempted. */
  lemma SplitSucceedsIffAllSucceed(plan: seq<seq<string>>, run: seq<string> -> bool,
                                   attempted: seq<seq<string>>, ok: bool)
    requires RanUntilFirstFailure(plan, run, attempted, ok)
    ensures ok <==> forall j :: 0 <= j < |plan| ==> run(plan[j])
    ensures ok ==> attempted == plan
  {
  }

  /** "a:b" splits back into the two numbers. */
  lemma RangeArgReadsBack(start: int, end: int)
    ensures SplitOn(RangeArg(start, end), ':') == [IntToString(start), IntToString(end)]
    ensures ParseInt(IntToString(start)) == Some(start) && ParseInt(IntToString(end)) == Some(end)
  {
    var a, b := IntToString(start), IntToString(end);
    assert ':' !in a;
    assert ':' !in b;
    SplitOnSeparated(a, ':', b);
    SplitOnFree(b, ':');
    ParseIntIntToString(start);
    ParseIntIntToString(end);
  }

  /** The range argument of command `i` splits into the offsets `i*d` and `i*d+d`. */
  lemma SplitRangeParts(w: MP4BoxWrapper, outputBase: string, duration: int, i: nat)
    ensures SplitOn(SplitCommand(w, outputBase, duration, i)[2], ':')
            == [IntToString(i * duration), IntToString(i * duration + duration)]
  {
    var start := i * duration;
    assert SplitCommand(w, outputBase, duration, i)[2] == RangeArg(start, start + duration);
    RangeArgReadsBack(start, start + duration);
  }

  /** The range of command `i` is "i*d:i*d+d"; it reads back as those two offsets. */
  lemma SplitRangeReadsBack(w: MP4BoxWrapper, outputBase: string, duration: int, i: nat)
    ensures var parts := SplitOn(SplitCommand(w, outputBase, duration, i)[2], ':');
            && |parts| == 2
            && ParseInt(parts[0]) == Some(i * duration)
            && ParseInt(parts[1]) == Some(i * duration + duration)
  {
    SplitRangeParts(w, outputBase, duration, i);
    RangeArgReadsBack(i * duration, i * duration + duration);
  }

  /** Consecutive segments abut: segment `i` ends where segment `i + 1` starts. */
  lemma SplitRangesAbut(w: MP4BoxWrapper, outputBase: string, duration: int, i: nat)
    ensures var here := SplitOn(SplitCommand(w, outputBase, duration, i)[2], ':');
            var next := SplitOn(SplitCommand(w, outputBase, duration, i + 1)[2], ':');
            |here| == 2 && |next| == 2 && here[1] == next[0]
  {
    SplitRangeParts(w, outputBase, duration, i);
    SplitRangeParts(w, outputBase, duration, i + 1);
    assert (i + 1) * duration == i * duration + duration;
  }

  lemma DigitsNotSeparator(s: string)
    requires forall i :: 0 <= i < |s| ==> IsDigit(s[i])
    ensures '/' !in s
  {
  }

  /** Segment `i` is written to `<output_directory>/<base>_segment_<i+1>.mp4`:
      its base name is the segment file name, which ends in ".mp4", so a later
      merge of the output directory picks it up. */
  lemma SegmentOutputPath(w: MP4BoxWrapper, outputBase: string, duration: int, i: nat)
    requires '/' !in outputBase
    ensures var out := SplitCommand(w, outputBase, duration, i)[5];
            && Basename(out) == SegmentFileName(outputBase, i)
            && EndsWith(SegmentFileName(outputBase, i), VideoExtension)
  {
    var name := SegmentFileName(outputBase, i);
    DigitsNotSeparator(NatToString(i + 1));
    assert '/' !in name by {
      assert name == outputBase + "_segment_" + NatToString(i + 1) + ".mp4";
    }
    BasenameOfJoin(w.outputDirectory, name);
    assert name[|name| - 4..] == ".mp4";
  }

  /** The base that `split_videos` uses is a plain file name: the video's
      file name, less at most one extension of its own. */
  lemma OutputBaseIsFileName(videoPath: string)
    ensures '/' !in OutputBase(videoPath)
    ensures StartsWith(Basename(videoPath), OutputBase(videoPath))
    ensures var name, base := Basename(videoPath), OutputBase(videoPath);
            base == name || (name[|base|] == '.' && '.' !in name[|base| + 1..])
  {
    var name := Basename(videoPath);
    var base := StripExtension(name);
    assert base == name[..|base|];
  }

  /** Different segments are written to different files. */
  lemma SegmentFileNamesDistinct(outputBase: string, i: nat, j: nat)
    requires SegmentFileName(outputBase, i) == SegmentFileName(outputBase, j)
    ensures i == j
  {
    var prefix := outputBase + "_segment_";
    SameMiddle(prefix, NatToString(i + 1), NatToString(j + 1), VideoExtension);
    NatToStringInjective(i + 1, j + 1);
  }

  /** The planned segments cover the video: each starts before the video
      ends and the last one reaches its end. */
  lemma SplitPlanCoversVideo(ms: int, duration: nat, i: nat)
    requires duration > 0
    requires i < SegmentCount(ms, 1000 * duration)
    ensures 1000 * (i * duration) < ms
    ensures ms <= 1000 * (SegmentCount(ms, 1000 * duration) * duration)
  {
    var n := SegmentCount(ms, 1000 * duration);
    SegmentsCoverVideo(ms, 1000 * duration, i);
    assert i * (1000 * duration) == 1000 * (i * duration);
    assert n * (1000 * duration) == 1000 * (n * duration);
  }

  /** A 90-second video cut into 60-second segments gives two segments,
      0:60 and 60:120. */
  lemma SplitExample(w: MP4BoxWrapper, outputBase: string)
    ensures SegmentCount(90000, 60000) == 2
    ensures SplitCommand(w, outputBase, 60, 0)[2] == RangeArg(0, 60)
    ensures SplitCommand(w, outputBase, 60, 1)[2] == RangeArg(60, 120)
    ensures RangeArg(0, 60) == "0:60" && RangeArg(60, 120) == "60:120"
  {
    SegmentCountIsCeiling(90000, 60000, 2);
    assert NatToString(0) == "0";
    assert NatToString(60) == NatToString(6) + "0" == "60";
    assert NatToString(120) == NatToString(12) + "0" == NatToString(1) + "2" + "0" == "120";
  }

  // ---------------------------------------------------------------------
  // merge_videos

  /** The arguments built for the sorted files: each file preceded by "-add"
      when it equals the first file and by "-cat" otherwise. */
  ghost predicate IsMergeArgs(args: seq<string>, files: seq<string>) {
    && |args| == 2 * |files|
    && forall k :: 0 <= k < |files| ==>
         && args[2 * k] == (if files[k] == files[0] then "-add" else "-cat")
         && args[2 * k + 1] == files[k]
  }

  /** The whole merge command: `MP4Box -force-cat <args> <output_path>`. */
  ghost predicate IsMergeCommand(command: seq<string>, files: seq<string>, outputPath: string) {
    && |command| == 2 * |files| + 3
    && command[0] == Tool && command[1] == "-force-cat"
    && IsMergeArgs(command[2..|command| - 1], files)
    && command[|command| - 1] == outputPath
  }

  /** The loop of `merge_videos` that builds `videos_with_commands`. */
  method BuildMergeArgs(videoFiles: seq<string>) returns (args: seq<string>)
    ensures IsMergeArgs(args, videoFiles)
  {
    args := [];
    for i := 0 to |videoFiles|
      invariant |args| == 2 * i
      invariant forall k :: 0 <= k < i ==>
                  && args[2 * k] == (if videoFiles[k] == videoFiles[0] then "-add" else "-cat")
                  && args[2 * k + 1] == videoFiles[k]
    {
      if videoFiles[i] == videoFiles[0] {
        args := args + ["-add", videoFiles[i]];
      } else {
        args := args + ["-cat", videoFiles[i]];
      }
    }
  }

  /**
   * `merge_videos(sort_function)`: with no ".mp4" entry in the listing it
   * fails and runs nothing; otherwise it sorts the files by `key` and runs
   * one merge command, whose exit status is the verdict.
   */
  method MergeVideos(w: MP4BoxWrapper, listing: seq<string>, key: string -> int, run: seq<string> -> bool)
    returns (ok: bool, issued: Option<seq<string>>)
    ensures Mp4Names(listing) == [] ==> !ok && issued == None
    ensures Mp4Names(listing) != [] ==>
              && issued.Some?
              && IsMergeCommand(issued.value, SortByKey(JoinAll(w.videoSegments, Mp4Names(listing)), key), w.outputPath)
              && ok == run(issued.value)
  {
    var videoFiles := GetVideoFiles(w, listing);
    if |videoFiles| == 0 {
      return false, None;
    }
    // A single file is only reported in the log; the merge goes ahead.
    videoFiles := SortByKey(videoFiles, key);
    var videosWithCommands := BuildMergeArgs(videoFiles);
    var command := [Tool, "-force-cat"] + videosWithCommands + [w.outputPath];
    assert command[2..|command| - 1] == videosWithCommands;
    issued := Some(command);
    ok := run(command);
  }

  /** For distinct files the first is tagged "-add" and every other "-cat":
      the command is `MP4Box -force-cat -add f0 -cat f1 ... -cat fn out`. */
  lemma MergeCommandForDistinctFiles(command: seq<string>, files: seq<string>, outputPath: string)
    requires files != [] && Distinct(files)
    requires IsMergeCommand(command, files, outputPath)
    ensures command[2] == "-add"
    ensures forall k :: 1 <= k < |files| ==> command[2 * k + 2] == "-cat"
    ensures forall k :: 0 <= k < |files| ==> command[2 * k + 3] == files[k]
  {
    var args := command[2..|command| - 1];
    assert args[0] == command[2];
    forall k | 0 <= k < |files|
      ensures command[2 * k + 2] == args[2 * k] && command[2 * k + 3] == args[2 * k + 1]
    {
    }
  }

  /** A listing of distinct plain names yields distinct, sorted merge inputs
      that are a stable permutation of the ".mp4" entries joined onto the
      directory. */
  lemma MergeInputs(w: MP4BoxWrapper, listing: seq<string>, key: string -> int)
    requires Distinct(listing)
    requires forall i :: 0 <= i < |listing| ==> '/' !in listing[i]
    ensures var files := JoinAll(w.videoSegments, Mp4Names(listing));
            var sorted := SortByKey(files, key);
            && Distinct(sorted)
            && SortedByKey(sorted, key)
            && multiset(sorted) == multiset(files)
            && forall k :: WithKey(sorted, key, k) == WithKey(files, key, k)
  {
    var names := Mp4Names(listing);
    var files := JoinAll(w.videoSegments, names);
    Mp4NamesDistinct(listing);
    forall i, j | 0 <= i < j < |files| ensures files[i] != files[j] {
      Mp4NamesMembers(listing, names[i]);
      Mp4NamesMembers(listing, names[j]);
      NotAbsolute(names[i]);
      NotAbsolute(names[j]);
      if files[i] == files[j] {
        JoinInjective(w.videoSegments, names[i], names[j]);
      }
    }
    SortByKeyDistinct(files, key);
    forall k ensures WithKey(SortByKey(files, key), key, k) == WithKey(files, key, k) {
      SortByKeyStable(files, key, k);
    }
  }
}
