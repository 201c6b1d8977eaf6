# MP4Box wrapper, modelled in Dafny

`MP4BoxWrapper` (in `wrapper.py`) cuts one video into fixed-length segments
and merges a directory of `.mp4` files into one, by running the `MP4Box`
command-line tool. This project models the logic around those tool runs:

- the directory filter `_get_video_files`;
- the parsing half of `_get_video_duration`: find the `Duration` line of the
  `MP4Box -info` report, take its second word and read it as
  `hours.minutes.seconds.milliseconds`;
- the segment count of `_calculate_segment_count`;
- the plan of `split_videos`, and its loop that stops at the first failing
  command;
- `merge_videos`: the empty check, the stable sort by the caller's key, the
  `-add`/`-cat` argument list and the final command.

The tool is not modelled. Each tool run is a parameter:

- `probe` gives the text that `MP4Box -info <path>` prints, or `None` when it
  exits with a non-zero status (so `check_output` raises);
- `run` says whether a command line exits with status zero.

The directory listing is an input sequence.

Files and modules:

- `results.dfy` (`Results`): `Option` and `Result`.
- `pystr.dfy` (`PyStr`): the Python `str` operations the wrapper uses.
  - `splitlines()` uses Python's full set of line boundaries, with `"\r\n"` as one boundary.
  - `split()` uses Python's whitespace set.
  - also `split(sep)`, `replace`, `in` and `endswith`.
  - `int()` accepts an optional sign, ASCII digits and single `_` between digits.
  - `str()` of an integer.
- `paths.dfy` (`Paths`): POSIX `os.path.join`, `basename` and `splitext(...)[0]`.
- `ordering.dfy` (`Ordering`): `list.sort(key=...)` with an integer key. It is an insertion sort, proved sorted, a permutation of its input and stable.
- `segments.dfy` (`Segments`): the ceiling division and the segment count.
- `duration.dfy` (`Duration`): the duration parser.
- `wrapper.dfy` (`Mp4BoxWrapper`): the configuration and the wrapper's four operations.

Units: the probe's duration is kept in whole milliseconds. A segment length of
`d` seconds is `1000 * d` milliseconds. The source computes in floating-point
seconds; the model computes the same quantities exactly.

The wrapper's configuration is fixed once the object is built, so
`MP4BoxWrapper` is a datatype and the operations take it as an argument.
The source's loops are the methods `GetVideoFiles`, `SplitSegments` and
`BuildMergeArgs`; `SplitVideos` and `MergeVideos` are methods that call them
and the tool. Each method is proved against a specification function or
predicate:

- `SplitPlan` and `RanUntilFirstFailure` for the split;
- `SortByKey` and `IsMergeCommand` for the merge.

The code catches none of the following errors, and the model keeps them:

- A failing `MP4Box -info` does not give a duration of zero. The
  `CalledProcessError` leaves `_get_video_duration` and `split_videos`, so it
  is a `Failure` here.
- So does an `IndexError` when the `Duration` line has fewer than two words.
- So does a `ValueError` when the word is not four integer fields.
- A segment length that is zero or negative is not rejected:
  - Zero divides by zero (`ZeroDivisionError`), unless the video's duration is negative.
  - A negative length can give a negative count. `range` of that count is empty, so `split_videos` returns `True`.

## Model

| member | source | states |
|---|---|---|
| `Mp4BoxWrapper.GetVideoFiles` | wrapper.py:66-71 | the result is the ".mp4" entries of the listing, in listing order, each joined onto the segments directory |
| `Mp4BoxWrapper.Mp4Names` | wrapper.py:67-68 | the filter keeps no more entries than the listing has, and each kept entry ends with ".mp4" |
| `Mp4BoxWrapper.Mp4NamesMembers` | wrapper.py:67-68 | a name is kept exactly when it is in the listing and ends with ".mp4" |
| `Mp4BoxWrapper.Mp4NamesAppend` | wrapper.py:67-69 | filtering keeps listing order: the filter of a concatenation is the concatenation of the filters |
| `Mp4BoxWrapper.Mp4NamesDistinct` | wrapper.py:67-69 | a listing without repeats gives kept names without repeats |
| `Paths.Join` | wrapper.py:69 | `os.path.join`: an absolute name replaces the directory; otherwise the name follows the directory, with a '/' inserted only when the directory is non-empty and does not already end in '/' |
| `Paths.BasenameOfJoin` | wrapper.py:149-152 | the base name of `join(directory, name)` is `name` for a name without '/' |
| `Paths.JoinInjective` | wrapper.py:69 | joining relative names onto one directory never maps two names to one path |
| `Paths.Basename` | wrapper.py:144-146 | `os.path.basename`: no '/' in the result; it ends the path; the character before it is a '/' |
| `Paths.StripExtension` | wrapper.py:144-146 | `splitext(...)[0]`: a prefix of the name; either the whole name, or cut at its last '.', which has a non-dot before it; the name is kept whole exactly when every '.' in it has only dots before it |
| `Paths.StripExtensionExamples` | wrapper.py:144-146 | "clip.v2.mp4" becomes "clip.v2"; ".profile" stays whole |
| `Mp4BoxWrapper.OutputBaseIsFileName` | wrapper.py:144-146 | the base of the segment names has no '/', begins the source's file name, and is that name less at most one '.'-extension |
| `Mp4BoxWrapper.VideoDurationMs` | wrapper.py:95-122 | a failing `MP4Box -info` is a `CalledProcessError`; otherwise the report's parse result, with parse errors passed on |
| `Duration.FirstContaining` | wrapper.py:105-112 | the index of the first line containing the pattern, or the line count when none does |
| `Duration.DurationMs` | wrapper.py:113-122 | a report with no line containing "Duration" gives 0 |
| `Duration.DurationOfFirstMarkerLine` | wrapper.py:105-114 | when line `j` is the first to contain "Duration", the duration and its errors are those of line `j` |
| `Duration.DurationOfLabelledLine` | wrapper.py:114 | on a line "<tag> <clock> ...", with any leading whitespace and any run of whitespace between tag and clock, the word parsed is the clock, the second whitespace-separated word |
| `Duration.DurationOfLine` | wrapper.py:114 | the line fails with `IndexError` exactly when it has fewer than two words |
| `Duration.DurationOfOneWordLine` | wrapper.py:114 | a line without whitespace (such as "Duration" alone) is an `IndexError` |
| `Duration.ParseClock` | wrapper.py:114-118 | every failure of the clock parse is a `ValueError` |
| `Duration.ParseFields` | wrapper.py:115-118 | the unpacking succeeds exactly when there are four fields and `int()` accepts each; any failure is a `ValueError`; a success is the total in ms |
| `Duration.ParseClockOfFields` | wrapper.py:114-120 | any four fields `int()` accepts (signs and `_` groups included), separated by '.' or ':', give hours*3600000 + minutes*60000 + seconds*1000 + milliseconds |
| `Duration.ParseClockRejectsField` | wrapper.py:114-118 | four separated fields of which `int()` rejects one are a `ValueError` |
| `Duration.ParseClockFieldCount` | wrapper.py:114-118 | a word that does not split into exactly four fields is a `ValueError` |
| `Duration.ParseClockSound` | wrapper.py:114-120 | a word that parses is four fields `int()` accepts joined by three '.'/':' separators, and its value is their total in ms |
| `Duration.ExampleClock` | wrapper.py:114-120 | "01.02.03.004" is 3723004 ms, i.e. 3723.004 s |
| `Duration.ExampleRejectedClock` | wrapper.py:114-118 | "00:01:xx.000" is a `ValueError` |
| `PyStr.SplitLines` | wrapper.py:108 | `splitlines()`: no line holds a line boundary |
| `PyStr.SplitLinesOfLine` | wrapper.py:108 | a line ended by any boundary other than '\r' is split off as it is |
| `PyStr.SplitLinesOfCRLF` | wrapper.py:108 | a line ended by "\r\n" is split off as it is; the pair is one boundary |
| `PyStr.SplitLinesOfCR` | wrapper.py:108 | a line ended by a '\r' that no '\n' follows is split off as it is |
| `PyStr.SplitLinesJoinOn` | wrapper.py:108 | boundary-free lines, the last non-empty, joined with "\n" split back into the same lines |
| `PyStr.Split` | wrapper.py:114 | `split()`: every word is non-empty and holds no whitespace |
| `PyStr.SplitSkipsSpace` | wrapper.py:114 | leading whitespace adds no word |
| `PyStr.SplitOfWordRun` | wrapper.py:114 | a word followed by any non-empty run of whitespace is the first word, and the rest is split on its own |
| `PyStr.SplitJoinOn` | wrapper.py:114 | non-empty words without whitespace, joined with single spaces, split back into the same words |
| `PyStr.ContainsAtOffset` | wrapper.py:109 | `pattern in s` holds exactly when the pattern occurs in `s` at some offset |
| `PyStr.Replace` | wrapper.py:114 | `replace(".", ":")` keeps the length and maps each character on its own |
| `PyStr.EndsWithAppended` | wrapper.py:68 | `s.endswith(suffix)` holds exactly when `s` is some text followed by `suffix` |
| `PyStr.SplitOnJoinOn` | wrapper.py:114-117 | `split(sep)` undoes `sep.join` of parts that do not hold `sep` |
| `PyStr.ParseIntAccepts` | wrapper.py:115-118 | a text `int()` accepts ends in a digit and holds only digits, `_` and a leading sign |
| `PyStr.NumeralGroups` | wrapper.py:115-118 | an `_` between two numerals is accepted and does not change the value |
| `PyStr.UnderscoresRejected` | wrapper.py:115-118 | `int()` rejects "_1", "1_", "1__2" and a lone "-" |
| `PyStr.ParseIntIntToString` | wrapper.py:155 | `int(str(i)) == i` for every integer, negative ones included |
| `PyStr.NatToStringInjective` | wrapper.py:151 | different segment numbers print differently |
| `Segments.CeilDiv` | wrapper.py:86 | `ceil(total / length)`: for a positive length the least `q` with `total <= q * length`; for a negative length the least `q` with `q * length <= total` |
| `Segments.SegmentCount` | wrapper.py:83-86 | 0 when the video is shorter than a segment (and, for a positive length, only then); for a positive length and a video at least a segment long, a count of at least 1 with `(n-1)*segment < total <= n*segment`; for a negative length, the matching bounds of the ceiling |
| `Segments.SegmentCountIsCeiling` | wrapper.py:86 | for a video at least one segment long, the count is the only `n` with `(n-1)*segment < total <= n*segment` |
| `Segments.SegmentsCoverVideo` | wrapper.py:86 | every segment starts before the video ends, and the segments reach its end |
| `Segments.NegativeSegmentCount` | wrapper.py:83-86 | a negative length gives at most one segment, and one only for a duration between that length and zero |
| `Mp4BoxWrapper.CalculateSegmentCount` | wrapper.py:82-86 | probe errors pass through; a video shorter than the length gives 0; a zero length otherwise divides by zero; any other length gives `SegmentCount` in milliseconds |
| `Mp4BoxWrapper.SplitPlan` | wrapper.py:147-158 | command `i` of the plan is `MP4Box -splitx "i*d:i*d+d" <video> -out <dir>/<base>_segment_<i+1>.mp4` |
| `Mp4BoxWrapper.SplitVideos` | wrapper.py:132-174 | count errors are returned and nothing runs; a count of 0 gives `False` and a negative count `True`, and nothing runs; otherwise the plan runs in order until the first failure, with `True` only if every command succeeded |
| `Mp4BoxWrapper.SplitSegments` | wrapper.py:144-174 | the commands attempted are a non-empty prefix of the plan; all but the last succeeded; a shorter run ended with a failure; the verdict is "all ran and the last succeeded" |
| `Mp4BoxWrapper.AttemptNext` | wrapper.py:160-172 | one more attempted command extends the prefix, and a failing one ends the run with `False` |
| `Mp4BoxWrapper.AttemptedAll` | wrapper.py:147-174 | a run in which every planned command succeeded returns `True` |
| `Mp4BoxWrapper.RanUntilFirstFailureUnique` | wrapper.py:147-174 | the attempted commands and the verdict are determined by the plan and the tool's answers |
| `Mp4BoxWrapper.SplitStopsAtFailure` | wrapper.py:166-172 | if command `k` fails, no command after it runs and the split fails |
| `Mp4BoxWrapper.SplitRunsThroughFirstFailure` | wrapper.py:160-172 | if command `k` is the first to fail, exactly commands `0..k` were attempted and the split fails |
| `Mp4BoxWrapper.SplitSucceedsIffAllSucceed` | wrapper.py:160-174 | the split succeeds exactly when every planned command succeeds, and then all were attempted |
| `Mp4BoxWrapper.RangeArgReadsBack` | wrapper.py:155 | "start:end" splits at ':' into the two numbers, which read back as `start` and `end` |
| `Mp4BoxWrapper.SplitRangeReadsBack` | wrapper.py:148-155 | the range of command `i` reads back as `i*d` and `i*d+d` |
| `Mp4BoxWrapper.SplitRangesAbut` | wrapper.py:148-155 | segment `i` ends where segment `i+1` starts |
| `Mp4BoxWrapper.SegmentOutputPath` | wrapper.py:149-152 | segment `i` is written to a file named `<base>_segment_<i+1>.mp4` in the output directory, a name a later merge picks up |
| `Mp4BoxWrapper.SegmentFileNamesDistinct` | wrapper.py:151 | different segments get different file names |
| `Mp4BoxWrapper.SplitPlanCoversVideo` | wrapper.py:147-155 | for a positive length, every planned segment starts inside the video and the last one reaches its end |
| `Mp4BoxWrapper.SplitExample` | wrapper.py:147-155 | a 90 s video in 60 s segments gives two commands, whose range arguments are the texts "0:60" and "60:120" |
| `Mp4BoxWrapper.BuildMergeArgs` | wrapper.py:194-202 | each file, in order, is preceded by "-add" when it equals the first file and by "-cat" otherwise |
| `Mp4BoxWrapper.MergeVideos` | wrapper.py:182-222 | no ".mp4" entry gives `False` and runs nothing; otherwise one `MP4Box -force-cat <args> <output_path>` runs over the files sorted by the key, and its exit status is the result |
| `Mp4BoxWrapper.MergeCommandForDistinctFiles` | wrapper.py:194-209 | for distinct files the command is `-add f0 -cat f1 ... -cat fn` followed by the output path |
| `Mp4BoxWrapper.MergeInputs` | wrapper.py:182-191 | a listing of distinct plain names gives merge inputs that are distinct, sorted by key, a permutation of the joined ".mp4" entries, and in listing order among equal keys |
| `Ordering.SortByKeyDistinct` | wrapper.py:191 | sorting keeps a sequence without repeats free of repeats |
| `Ordering.SortByKey` | wrapper.py:191 | the result is sorted by key and is a permutation of the input |
| `Ordering.SortByKeyStable` | wrapper.py:191 | for every key, the elements with that key keep their input order |
| `Ordering.SortByKeyIsTheStableSort` | wrapper.py:191 | any sequence sorted by key that keeps the input order of each key's elements equals `SortByKey` of the input |
| `Ordering.StableSortUnique` | wrapper.py:191 | two sequences sorted by key that agree key by key on element order are equal |

## Left out

- Running `MP4Box` is not modelled. `subprocess.check_output` and `subprocess.run` are the oracles `probe` and `run`. The model does not decode UTF-8; the report is taken as text.
- `os.listdir` is an input sequence, so directory order is whatever the listing gives.
- The `cd` context manager is not modelled, because it is not used by the wrapper's operations.
- Logging and `traceback.format_exc` are not modelled. This includes the "just one video" message in `merge_videos`, which only logs.
- The `__main__` block is not modelled. Its example key (the number after the last `_`) is just one caller's key.
- Floating point is not modelled. The source keeps the duration in float seconds, with `millisecond * 1e-3`. The model and the source agree while the float total and the quotient still resolve one millisecond (totals well below 10^12 s). Beyond that, rounding can move a total onto a multiple of the segment length, and the source's count is then one less than the model's; near a negative or very large length the `<` test can flip the same way.
- `Mp4BoxWrapper.MergeVideos`: the sort key is a function to `int`. Python allows any ordered key type, and a key that raises an exception is not modelled.
- `PyStr.ParseInt`: `int()` also accepts non-ASCII Unicode digits and surrounding whitespace. The model accepts only ASCII digits. The words it parses come from `split()` and hold no whitespace.
- The `.strip()` after `split()[1]` is the identity on a word of `split()`, so it is left out.
