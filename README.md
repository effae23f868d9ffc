# Video cutter segmentation, modelled in Dafny

The tool transcribes the speech in a video and cuts the video wherever the
word "cut" is spoken. This project models the logic in `VideoCutter`:

- **Cut-point extraction.** `cut_video_recognize` keeps the `end` time of every
  transcript segment whose text matches `\bcut\b` case-insensitively, in
  transcript order.
- **Dispatch.** If at least one cut point was found, it cuts the video in
  tolerant mode. Otherwise it copies the video whole as `0<suffix>` into the
  output folder.
- **Segmentation** (`cut_video`).
  - At the first adjacent pair out of order, the list is replaced by its
    sorted copy.
  - Tolerant mode (`timestamp_exceed_ok`) pops trailing points that exceed
    the duration.
  - Strict mode raises `ValueError` when the last point exceeds the duration.
  - The points, followed by the duration, are then walked to write clips
    `0.mp4` … `n.mp4` from each boundary to the next, starting at 0.
- **`ensure_path_type`** returns a `Path` unchanged, converts a `str`, and
  raises `TypeError` for anything else.

The video is reduced to its duration. Each `subclipped`/`write_videofile`
call is recorded as a `Clip(index, start, end)` in the returned `Written`
value. The copy is recorded as a `Copied` outcome. The transcript the speech
recogniser returns and the video's duration are parameters. Timestamps are
`real`, because they are only compared and copied.

Files:
- `results.dfy`: `Option`, `Result` and the three exceptions (`TypeError`,
  `ValueError`, `IndexError`).
- `paths.dfy`: `ensure_path_type` and the pathlib queries `name`, `suffix`
  and `parent`.
- `word_match.dfy`: the regex `\bcut\b` with `re.IGNORECASE`.
- `transcript.dfy`: the cut points of a transcript, as a specification.
- `timeline.dfy`: the segmentation as a specification, and its properties.
  - Ordering: `Normalized`, `SortedCopy`.
  - The duration policies: `Truncated`, `Bounded`.
  - The clips: `Clips`, `Tiles`, `CutsOf`.
  - The whole pipeline: `Segmentation`.
- `video_cutter.dfy`: the imperative methods. Each loop of the source is a
  `while` loop proved against the specification functions.

Behaviour of the source worth noting:
- The error for a point beyond the duration is `ValueError`.
- On an empty list, strict mode evaluates `cut_timestamps[-1]` and raises
  `IndexError`, although the docstring at `src/VideoCutter.py:68` asks callers
  not to pass an empty list. The model returns `Err(IndexError)` for it.
- `cut_video` is not free of side effects. When no sort happened, the tolerant
  `pop()` calls shorten the caller's own list. `CutVideo` returns that list as
  `callerList`.
- The `output_folder_path is None` branch at `src/VideoCutter.py:38-39` cannot
  run, because lines 21-22 already replaced `None` by the video's parent. Only
  the live branch is modelled.
- Clips are always written as `.mp4`, whatever the source suffix. Only the
  whole-file copy keeps the original suffix.

## Model

| member | source | states |
|---|---|---|
| `Paths.EnsurePathType` | src/VideoCutter.py:43-56 | succeeds exactly for a Path or a str; a Path comes back unchanged, a str is converted, anything else gives TypeError naming its type |
| `Paths.EnsurePathTypeIdempotent` | src/VideoCutter.py:49-50 | converting an already converted path again gives the same result (why the repeated conversion in cut_video is harmless) |
| `Paths.Name` | src/VideoCutter.py:41 | the file name is the part of the path after its last '/', holding no '/' |
| `Paths.Suffix` | src/VideoCutter.py:39-41 | the copy's suffix is a dot followed by at least one non-dot character, taken from the end of the file name and shorter than it; it is non-empty exactly when the name has a dot after its first character and does not end in a dot |
| `Paths.Parent` | src/VideoCutter.py:21-22 | the default output folder is "." for a bare file name, "/" for a name directly under the root, and otherwise the folder that, joined with "/" and the file name, gives back the path |
| `WordMatch.SearchFrom` | src/VideoCutter.py:31 | scanning from position i succeeds exactly when `\bcut\b` matches at some position at or after i |
| `WordMatch.Search` | src/VideoCutter.py:31 | `re.search` succeeds exactly when the text mentions the whole word at some position |
| `WordMatch.MatchesAtIsWholeWord` | src/VideoCutter.py:31 | a match is exactly c, u, t in any case with no word character directly before or after |
| `WordMatch.ScuttleDoesNotMention` | src/VideoCutter.py:31 | "scuttle" holds the letters but not the word |
| `WordMatch.MentionExamples` | src/VideoCutter.py:31 | "please cut now" and "CUT." both mention the word |
| `Transcript.CutPoints` | src/VideoCutter.py:29-32 | the end times of the mentioning segments in transcript order, at most one per segment; its contents and order are stated by the three lemmas below |
| `Transcript.CutPointsSingle` | src/VideoCutter.py:30-32 | one segment contributes its end time exactly when its text mentions the word |
| `Transcript.CutPointsAppend` | src/VideoCutter.py:30-32 | the cut points of a concatenated transcript are the concatenation of the parts' cut points, so transcript order is kept |
| `Transcript.CutPointsMembers` | src/VideoCutter.py:30-32 | a time is a cut point exactly when some mentioning segment ends at it |
| `Transcript.CutPointsExample` | src/VideoCutter.py:29-32 | segments "please cut now"@3.5, "scuttle"@6.0, "CUT."@9.0 give cut points [3.5, 9.0] |
| `VideoCutter.ExtractCutPoints` | src/VideoCutter.py:29-32 | the append loop produces exactly the transcript's cut points |
| `Timeline.AdjacentOrderIsOrder` | src/VideoCutter.py:81-84 | no adjacent inversion holds exactly when the whole list is non-decreasing |
| `Timeline.SortedCopy` | src/VideoCutter.py:83 | `sorted` returns a non-decreasing permutation of the same length |
| `Timeline.SortedUnique` | src/VideoCutter.py:83 | two non-decreasing sequences with the same elements are equal |
| `Timeline.Normalized` | src/VideoCutter.py:81-84 | the list is kept when no adjacent pair is out of order and otherwise sorted; either way the result is a non-decreasing permutation of the input; `NormalizedIsSortedCopy` ties it to `sorted` |
| `Timeline.NormalizedIsSortedCopy` | src/VideoCutter.py:81-84 | sorting on the first inversion gives the sorted copy; an ordered list is kept as it was; the result is an ordered permutation |
| `VideoCutter.NormalizeOrder` | src/VideoCutter.py:81-84 | the scan re-sorts exactly when the input is out of order; the result is a non-decreasing permutation, identical to the input when no sort happened |
| `Timeline.Truncated` | src/VideoCutter.py:87-89 | the result is a prefix of the list; it is empty or ends at most at the duration; every removed point exceeds the duration |
| `Timeline.TruncatedOfSorted` | src/VideoCutter.py:87-89 | on a sorted list the kept points are exactly those within the duration, and they stay sorted |
| `VideoCutter.DropExceeding` | src/VideoCutter.py:87-89 | the pop loop removes only trailing points: a prefix, ending within the duration, with every popped point beyond it |
| `Timeline.Bounded` | src/VideoCutter.py:87-93 | the duration check: a success is a prefix of the ordered list, and only strict mode fails; the two policies are stated by `BoundedTolerant` and `BoundedStrict` |
| `Timeline.BoundedTolerant` | src/VideoCutter.py:87-89 | tolerant mode never fails and keeps a sorted prefix; position k is kept exactly when its point is within the duration, so duplicates keep their multiplicity |
| `Timeline.BoundedStrict` | src/VideoCutter.py:90-93 | strict mode gives IndexError exactly on the empty list, ValueError(last point, duration) when the last point exceeds the duration, fails exactly when some point does, and otherwise leaves the list unchanged |
| `Timeline.BoundedWithin` | src/VideoCutter.py:87-93 | under either policy a successful check leaves a sorted prefix of the ordered list with every point within the duration |
| `VideoCutter.CheckDuration` | src/VideoCutter.py:87-93 | the policy branch; tolerant mode always succeeds, strict mode succeeds exactly for a non-empty list whose last point is within the duration |
| `Timeline.Clips` | src/VideoCutter.py:95-99 | n points give n+1 clips, one from each boundary to the next of 0, the points and the duration; their layout is stated by `ClipsTile`, `CutsOfClips` and `TilingIsClips` |
| `Timeline.ClipsTile` | src/VideoCutter.py:95-99 | n points give n+1 clips numbered 0..n whose first start is 0, each start equal to the previous end, and last end the duration; no points give the single clip (0, duration) |
| `Timeline.CutsOfClips` | src/VideoCutter.py:95-99 | the cut points are recovered from the clips (every clip end but the last) |
| `Timeline.TilingIsClips` | src/VideoCutter.py:95-99 | any numbered tiling of [0, duration] is the clip list of its own cut points |
| `Timeline.ClipsWellFormed` | src/VideoCutter.py:95-99 | for sorted points in [0, duration], no clip starts after it ends |
| `VideoCutter.EmitClips` | src/VideoCutter.py:95-99 | the clip loop produces exactly the clips of the points and duration, and they tile the timeline |
| `Timeline.NatToString` | src/VideoCutter.py:98 | `f"{idx}"`: at least one decimal digit, one digit exactly below 10, and no leading zero except for 0 itself; `DecimalValueOfNatToString` reads it back |
| `Timeline.FileName` | src/VideoCutter.py:98 | a clip's file name is the index in decimal digits with no leading zero (only "0" itself starts with 0), followed by ".mp4" |
| `Timeline.DecimalValueOfNatToString` | src/VideoCutter.py:98 | the index as printed is all digits and reads back as the index |
| `Timeline.NatToStringInjective` | src/VideoCutter.py:98 | different clip indices print differently |
| `Timeline.ClipFileNamesDistinct` | src/VideoCutter.py:96-98 | the clips of one run go to pairwise distinct files, so none overwrites another |
| `Timeline.Segmentation` | src/VideoCutter.py:81-99 | a successful segmentation is never empty |
| `Timeline.SegmentationTiles` | src/VideoCutter.py:81-99 | a successful segmentation tiles [0, duration] with clips 0..n; its cut points are a prefix of the sorted input, each within the duration |
| `Timeline.SegmentationTolerant` | src/VideoCutter.py:81-89 | tolerant mode never fails; its cut points are a prefix of the sorted input holding position k exactly when that point is within the duration, so they are the input points within the duration with their multiplicity |
| `Timeline.SegmentationStrict` | src/VideoCutter.py:81-93 | strict mode: IndexError exactly on an empty list; an error exactly when the list is empty or some point exceeds the duration, and then ValueError naming the largest input point and the duration; otherwise the clips of the full sorted list |
| `Timeline.StrictOverflow` | src/VideoCutter.py:90-93 | when some point exceeds the duration, strict mode fails with ValueError naming the last sorted point |
| `Timeline.SegmentationOrderIndependent` | src/VideoCutter.py:81-84 | two rearrangements of the same points give the same result |
| `Timeline.SegmentationWellFormed` | src/VideoCutter.py:81-99 | with non-negative points and duration, no clip starts after it ends |
| `Timeline.SegmentationExamples` | src/VideoCutter.py:81-99 | [4, 7] and duration 10 give (0,4), (4,7), (7,10); [12] in tolerant mode gives (0,10); [12] in strict mode gives ValueError(12, 10) |
| `VideoCutter.ResolveTargets` | src/VideoCutter.py:20-24 | succeeds exactly when neither path argument has another type; the output folder defaults to the video's parent; a bad video path gives its TypeError, and with a good video path a bad folder gives the folder's TypeError |
| `VideoCutter.ResolveTargetsOfPaths` | src/VideoCutter.py:73-77 | cut_video's repeated conversion of the already converted paths gives back the same targets |
| `VideoCutter.CutVideo` | src/VideoCutter.py:58-99 | path errors propagate; otherwise the result is the segmentation's clips written into the resolved folder, or its error; the caller's list is truncated exactly when tolerant and already ordered |
| `VideoCutter.CutVideoRecognize` | src/VideoCutter.py:12-41 | path errors propagate and nothing else fails; it segments exactly when the transcript has a cut point, in tolerant mode, and otherwise copies the video as "0"+suffix into the folder; with non-negative times every clip has start <= end |

## Left out

- `recognize_audio` and `convert_audio_to_wav`: they call the Whisper
  recogniser and pydub and work through temporary files. The transcript they
  produce is a parameter. Their never-filled `temp_filepaths` list and the
  always-true `suffix != "wav"` test go with them.
- `src/recognizer.py` (an ASR wrapper) and `src/main.py` (argument parsing)
  are not part of this model.
- `VideoFileClip`, `subclipped`, `write_videofile` and `shutil.copy`: media and
  file I/O. The duration is a parameter. Writes and the copy are recorded as
  values. Failures of these collaborators are not modelled.
- `exists()` and `mkdir(parents=True)` on the output folder: filesystem side
  effects. When they succeed they do not change the result. Their failures,
  such as a denied permission or a dangling link, are not modelled.
- Floating point: timestamps and the duration are exact reals. Rounding and
  NaN are not modelled.
- `WordMatch.IsWordChar` and `WordMatch.Fold` cover the ASCII range only.
  Python's Unicode `\w` and Unicode case folding under `re.IGNORECASE` are
  not modelled.
- `Paths.Parent` and `Paths.Suffix` work on the path text with `/` as
  separator:
  - pathlib's normalisation of `Path(str)` (repeated or trailing separators,
    `.` components) is not modelled;
  - `Suffix` follows the pathlib rule of Python 3.11 and earlier.
- `VideoCutter.CutVideo`: the output folder and clip file names are recorded
  separately (`Written.folder`, `Timeline.FileName`). The joined output path
  is not built.
- The TypeError message is reduced to the offending type's name. The
  ValueError message is reduced to the offending point and the duration.
