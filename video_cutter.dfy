/** The VideoCutter operations: reading cut points off a transcript, and cutting
    the video into numbered sub-clips at those points. The video itself is
    reduced to its duration; each clip written is recorded in the result. */
module VideoCutter {
  import opened Results
  import opened Paths
  import opened WordMatch
  import opened Transcript
  import opened Timeline

  /** The input video and the folder the clips are written to. */
  datatype Targets = Targets(video: Path, folder: Path)

  /** The clips written into `folder`, clip `k` as `{k}.mp4`. */
  datatype Written = Written(folder: Path, clips: seq<Clip>)

  /** What cut_video_recognize does: cut the video, or copy it whole as `0<suffix>`. */
  datatype Outcome =
    | Segmented(written: Written)
    | Copied(source: Path, folder: Path, fileName: string)

  /** The path preamble shared by both entry points: the video path is converted,
      and the output folder defaults to the video's parent directory. */
  function ResolveTargets(videoPath: PathArg, outputFolder: Option<PathArg>): (r: Result<Targets>)
    ensures r.Ok? <==> !videoPath.Other? && (outputFolder.Some? ==> !outputFolder.value.Other?)
    ensures r.Ok? ==> Ok(r.value.video) == EnsurePathType(videoPath)
    ensures r.Ok? && outputFolder.None? ==> r.value.folder == Parent(r.value.video)
    ensures r.Ok? && outputFolder.Some? ==> Ok(r.value.folder) == EnsurePathType(outputFolder.value)
    ensures videoPath.Other? ==> r == Err(TypeError(videoPath.typeName))
    ensures !videoPath.Other? && outputFolder.Some? && outputFolder.value.Other? ==>
      r == Err(TypeError(outputFolder.value.typeName))
  {
    var video :- EnsurePathType(videoPath);
    match outputFolder
    case None => Ok(Targets(video, Parent(video)))
    case Some(folder) =>
      var dir :- EnsurePathType(folder);
      Ok(Targets(video, dir))
  }

  /** Passing already-converted paths back in resolves to the same targets. */
  lemma ResolveTargetsOfPaths(video: Path, folder: Path)
    ensures ResolveTargets(PathObj(video), Some(PathObj(folder))) == Ok(Targets(video, folder))
  {
  }

  /** The loop over the transcript segments, keeping the end time of each one
      whose text matches `\bcut\b` case-insensitively. */
  method ExtractCutPoints(segments: seq<Segment>) returns (cuts: seq<real>)
    ensures cuts == CutPoints(segments)
  {
    cuts := [];
    var i := 0;
    while i < |segments|
      invariant 0 <= i <= |segments|
      invariant cuts == CutPoints(segments[..i])
    {
      assert segments[..i + 1][..i] == segments[..i];
      if Search(segments[i].text) {
        cuts := cuts + [segments[i].end];
      }
      i := i + 1;
    }
    assert segments[..|segments|] == segments;
  }

  /** The inversion check: scan adjacent pairs and, at the first pair out of
      order, replace the list by its sorted copy. */
  method NormalizeOrder(points: seq<real>) returns (ordered: seq<real>, resorted: bool)
    ensures resorted <==> !NonDecreasing(points)
    ensures NonDecreasing(ordered) && multiset(ordered) == multiset(points)
    ensures !resorted ==> ordered == points
    ensures resorted ==> ordered == SortedCopy(points)
  {
    ordered, resorted := points, false;
    var i := 0;
    while i + 1 < |points|
      invariant i == 0 || i < |points|
      invariant !resorted && ordered == points
      invariant forall k :: 0 <= k < i ==> points[k] <= points[k + 1]
    {
      if points[i] > points[i + 1] {
        ordered, resorted := SortedCopy(points), true;
        break;
      }
      i := i + 1;
    }
    AdjacentOrderIsOrder(points);
  }

  /** Tolerant mode: pop the last point while it exceeds the duration. */
  method DropExceeding(ordered: seq<real>, duration: real) returns (kept: seq<real>)
    ensures kept == Truncated(ordered, duration)
    ensures |kept| <= |ordered| && kept == ordered[..|kept|]
    ensures kept == [] || kept[|kept| - 1] <= duration
    ensures forall k :: |kept| <= k < |ordered| ==> ordered[k] > duration
  {
    kept := ordered;
    while |kept| >= 1 && kept[|kept| - 1] > duration
      invariant |kept| <= |ordered| && kept == ordered[..|kept|]
      invariant Truncated(kept, duration) == Truncated(ordered, duration)
      decreases |kept|
    {
      kept := kept[..|kept| - 1];
    }
  }

  /** The duration check of either policy. */
  method CheckDuration(ordered: seq<real>, duration: real, exceedOk: bool) returns (r: Result<seq<real>>)
    ensures r == Bounded(ordered, duration, exceedOk)
    ensures exceedOk ==> r.Ok?
    ensures !exceedOk ==> (r.Ok? <==> ordered != [] && ordered[|ordered| - 1] <= duration)
  {
    if exceedOk {
      var kept := DropExceeding(ordered, duration);
      r := Ok(kept);
    } else if |ordered| == 0 {
      r := Err(IndexError);
    } else if ordered[|ordered| - 1] > duration {
      r := Err(ValueError(ordered[|ordered| - 1], duration));
    } else {
      r := Ok(ordered);
    }
  }

  /** The clip loop: walk the points followed by the duration, writing clip
      `idx` from the previous boundary (0 at first) to the current one. */
  method EmitClips(points: seq<real>, duration: real) returns (clips: seq<Clip>)
    ensures clips == Clips(points, duration)
    ensures Tiles(clips, duration)
  {
    var bounds := points + [duration];
    ghost var b := Boundaries(points, duration);
    ghost var spec := Clips(points, duration);
    var curr := 0.0;
    clips := [];
    var idx := 0;
    while idx < |bounds|
      invariant 0 <= idx <= |bounds|
      invariant clips == spec[..idx]
      invariant curr == b[idx]
    {
      assert bounds[idx] == b[idx + 1];
      ClipAt(points, duration, idx);
      assert spec[..idx + 1] == spec[..idx] + [spec[idx]];
      clips := clips + [Clip(idx, curr, bounds[idx])];
      curr := bounds[idx];
      idx := idx + 1;
    }
    assert spec[..|bounds|] == spec;
    ClipsTile(points, duration);
  }

  /** cut_video: resolve the paths, order the points, apply the duration policy
      and write the clips. `callerList` is the caller's list afterwards: the
      pops act on it in place unless a sorted copy replaced it. */
  method CutVideo(videoPath: PathArg, cutTimestamps: seq<real>, outputFolder: Option<PathArg>,
                  exceedOk: bool, duration: real)
    returns (r: Result<Written>, callerList: seq<real>)
    ensures ResolveTargets(videoPath, outputFolder).Err? ==>
      r == Err(ResolveTargets(videoPath, outputFolder).error)
    ensures ResolveTargets(videoPath, outputFolder).Ok? ==>
      r == match Segmentation(cutTimestamps, duration, exceedOk)
           case Ok(clips) => Ok(Written(ResolveTargets(videoPath, outputFolder).value.folder, clips))
           case Err(e) => Err(e)
    ensures callerList ==
      if ResolveTargets(videoPath, outputFolder).Ok? && exceedOk && NonDecreasing(cutTimestamps)
      then Truncated(cutTimestamps, duration) else cutTimestamps
  {
    callerList := cutTimestamps;
    var targets := ResolveTargets(videoPath, outputFolder);
    if targets.Err? {
      return Err(targets.error), callerList;
    }
    var ordered, resorted := NormalizeOrder(cutTimestamps);
    NormalizedIsSortedCopy(cutTimestamps);
    AdjacentOrderIsOrder(cutTimestamps);
    var bounded := CheckDuration(ordered, duration, exceedOk);
    if exceedOk && !resorted {
      callerList := bounded.value;
    }
    match bounded
    case Err(e) =>
      r := Err(e);
    case Ok(kept) =>
      var clips := EmitClips(kept, duration);
      r := Ok(Written(targets.value.folder, clips));
  }

  /** cut_video_recognize: resolve the paths, read the cut points off the
      transcript, then cut in tolerant mode, or copy the file whole as
      `0<suffix>` when the word never occurs. */
  method CutVideoRecognize(videoPath: PathArg, outputFolder: Option<PathArg>,
                           transcript: seq<Segment>, duration: real)
    returns (r: Result<Outcome>)
    ensures ResolveTargets(videoPath, outputFolder).Err? ==>
      r == Err(ResolveTargets(videoPath, outputFolder).error)
    ensures ResolveTargets(videoPath, outputFolder).Ok? ==> r.Ok?
    ensures r.Ok? ==> (r.value.Segmented? <==> CutPoints(transcript) != [])
    ensures r.Ok? && r.value.Segmented? ==>
      r.value.written == Written(ResolveTargets(videoPath, outputFolder).value.folder,
                                 Segmentation(CutPoints(transcript), duration, true).value)
    ensures r.Ok? && r.value.Copied? ==>
      var t := ResolveTargets(videoPath, outputFolder).value;
      r.value == Copied(t.video, t.folder, "0" + Suffix(t.video))
    ensures r.Ok? && r.value.Segmented? && 0.0 <= duration
            && (forall k :: 0 <= k < |transcript| ==> 0.0 <= transcript[k].end) ==>
      forall c :: c in r.value.written.clips ==> c.start <= c.end
  {
    var targets := ResolveTargets(videoPath, outputFolder);
    if targets.Err? {
      return Err(targets.error);
    }
    var video, folder := targets.value.video, targets.value.folder;
    var cuts := ExtractCutPoints(transcript);
    if |cuts| >= 1 {
      ResolveTargetsOfPaths(video, folder);
      SegmentationTolerant(cuts, duration);
      var written, _ := CutVideo(PathObj(video), cuts, Some(PathObj(folder)), true, duration);
      r := Ok(Segmented(written.value));
      if 0.0 <= duration && (forall k :: 0 <= k < |transcript| ==> 0.0 <= transcript[k].end) {
        forall x | x in cuts
          ensures 0.0 <= x
        {
          CutPointsMembers(transcript, x);
        }
        SegmentationWellFormed(cuts, duration, true);
      }
    } else {
      r := Ok(Copied(video, folder, "0" + Suffix(video)));
    }
  }
}
