/**
 * The pure part of `convert_timeline_to_video`: from the timeline, the chosen
 * background style and the main volume to the inputs and filters FFmpeg is
 * started with, the total duration folded after it is started, and the
 * progress percentage reported for each of its progress events.
 */
module Export {
  import opened Wrappers
  import opened Timeline
  import opened FilterGraph
  import opened VideoStyle
  import opened TimeParse

  newtype i32 = x: int | -0x8000_0000 <= x < 0x8000_0000

  /** The main volume, given as a percentage, turned into a gain factor by dividing by 100. */
  function MainVolume(percent: i32): (gain: real)
    ensures gain * 100.0 == percent as real
  {
    percent as real / 100.0
  }

  /**
   * What the encoder is started with: its inputs in order (the image, then
   * each distinct source file), the video and audio filters, and the total
   * duration used for progress.
   */
  datatype ExportPlan = ExportPlan(inputs: seq<string>, videoFilter: string, audioFilter: string, totalDuration: real)

  /** The inputs as added to the command: the image first, then the distinct sources. */
  function Inputs(imagePath: string, clips: seq<Clip>): (inputs: seq<string>)
    ensures |inputs| >= 1 && inputs[0] == imagePath
    ensures inputs[1..] == Dedup(Sources(clips))
    ensures forall x :: x in inputs[1..] <==> x in Sources(clips)
    ensures Distinct(inputs[1..])
    ensures forall i, j :: 1 <= i < j < |inputs| ==>
              inputs[i] in Sources(clips) && inputs[j] in Sources(clips) &&
              FirstIndex(Sources(clips), inputs[i]) < FirstIndex(Sources(clips), inputs[j])
  {
    DedupCorrect(Sources(clips));
    assert ([imagePath] + Dedup(Sources(clips)))[1..] == Dedup(Sources(clips));
    [imagePath] + Dedup(Sources(clips))
  }

  /**
   * The pure steps of `convert_timeline_to_video`: fails when the timeline holds
   * no clip; otherwise builds the inputs and filters of the command from all
   * clips of all tracks, and folds the total duration that divides the progress
   * time (computed in the source after FFmpeg is spawned).
   */
  method PlanTimelineExport(imagePath: string, timeline: TimelineData, backgroundStyle: string,
                            mainAudioVolume: i32, fmt: RealText)
    returns (r: Result<ExportPlan, string>)
    ensures r.Failure? <==> forall t :: 0 <= t < |timeline.tracks| ==> timeline.tracks[t].clips == []
    ensures r.Failure? ==> r.error == NoClipsError
    ensures r.Success? ==>
              var clips := AllClips(timeline.tracks);
              r.value == ExportPlan(Inputs(imagePath, clips), VideoFilter(backgroundStyle),
                                    FilterComplex(clips, MainVolume(mainAudioVolume), fmt), TotalDuration(clips))
  {
    var collected := CollectClips(timeline);
    if collected.Failure? {
      return Failure(collected.error);
    }
    var allClips := collected.value;
    var videoFilter := VideoFilter(backgroundStyle);
    var mainVolume := MainVolume(mainAudioVolume);
    var unique := UniqueSources(allClips);
    var audioFilter := GenerateFilterComplex(allClips, mainVolume, fmt);
    var totalDuration := TotalDuration(allClips);
    return Success(ExportPlan([imagePath] + unique, videoFilter, audioFilter, totalDuration));
  }

  /** The percentage sent with each progress event, from the encoder's time stamp. */
  function ExportProgress(progressTime: string, totalDuration: real, parse: NumberParse): (pct: real)
    ensures pct <= 100.0
    ensures totalDuration <= 0.0 ==> pct == 0.0
    ensures totalDuration > 0.0 && ParseTimeToSeconds(progressTime, parse) >= 0.0 ==> pct >= 0.0
  {
    ProgressPercent(ParseTimeToSeconds(progressTime, parse), totalDuration)
  }

  /** As written, the first clip's segment reads input 0, which is the still image, not an audio file. */
  lemma FirstSegmentReadsImage(imagePath: string, clips: seq<Clip>)
    requires clips != []
    ensures Inputs(imagePath, clips)[ClipFilterOf(0, clips[0]).input] == imagePath
  {
  }

  /**
   * As written, when every clip has a different source, segment i (for i >= 1)
   * reads the file of clip i - 1: the input numbering is one ahead of the clip
   * numbering.
   */
  lemma DistinctSourcesShiftByOne(imagePath: string, clips: seq<Clip>, i: nat)
    requires Distinct(Sources(clips))
    requires 1 <= i < |clips|
    ensures ClipFilterOf(i, clips[i]).input < |Inputs(imagePath, clips)|
    ensures Inputs(imagePath, clips)[ClipFilterOf(i, clips[i]).input] == clips[i - 1].sourceFile
  {
    DedupOfDistinct(Sources(clips));
  }

  /**
   * As written, three or more clips cut from one file make the last segment
   * read an input that the command does not have.
   */
  lemma SharedSourceOverrunsInputs(imagePath: string, clips: seq<Clip>)
    requires |clips| >= 3
    requires forall k :: 0 <= k < |clips| ==> clips[k].sourceFile == clips[0].sourceFile
    ensures |Inputs(imagePath, clips)| == 2
    ensures ClipFilterOf(|clips| - 1, clips[|clips| - 1]).input >= |Inputs(imagePath, clips)|
  {
    var xs := Sources(clips);
    forall x ensures x in [xs[0]] <==> x in xs {
      if x in xs {
        var k :| 0 <= k < |xs| && xs[k] == x;
      }
    }
    DedupUnique(xs, [xs[0]]);
  }

  /** Without repeated files, de-duplication changes nothing. */
  lemma DedupOfDistinct(xs: seq<string>)
    requires Distinct(xs)
    ensures Dedup(xs) == xs
  {
    forall i | 0 <= i < |xs| ensures FirstIndex(xs, xs[i]) == i {
      FirstIndexUnique(xs, xs[i], i);
    }
    DedupUnique(xs, xs);
  }
}
