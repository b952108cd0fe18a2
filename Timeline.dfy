/**
 * The timeline the front end sends for export (`TimelineClip`, `TimelineTrack`,
 * `TimelineData`) and the pure steps `convert_timeline_to_video` takes on it:
 * gathering all clips and the de-duplicated list of source files before
 * FFmpeg is started, and the total duration and the progress percentage
 * while it runs.
 */
module Timeline {
  import opened Wrappers

  /** One placed clip; times are seconds, `f64` in the source, `real` here. */
  datatype Clip = Clip(sourceFile: string, startTime: real, duration: real, trimStart: real, trimEnd: real)

  datatype Track = Track(clips: seq<Clip>, volume: real)

  datatype TimelineData = TimelineData(tracks: seq<Track>)

  const NoClipsError: string := "No audio clips in timeline"

  /** Every track's clips, track after track, each in its own order. */
  function AllClips(tracks: seq<Track>): seq<Clip> {
    if tracks == [] then [] else AllClips(tracks[..|tracks| - 1]) + tracks[|tracks| - 1].clips
  }

  /** Gathering distributes over putting track lists side by side. */
  lemma {:induction false} AllClipsAppend(a: seq<Track>, b: seq<Track>)
    ensures AllClips(a + b) == AllClips(a) + AllClips(b)
    decreases |b|
  {
    if b != [] {
      var b' := b[..|b| - 1];
      assert (a + b)[..|a + b| - 1] == a + b';
      AllClipsAppend(a, b');
    } else {
      assert a + b == a;
    }
  }

  /** Track t's clips occur in the gathered list as one block, after those of the tracks before it. */
  lemma {:induction false} AllClipsBlock(tracks: seq<Track>, t: nat)
    requires t < |tracks|
    ensures AllClips(tracks) == AllClips(tracks[..t]) + tracks[t].clips + AllClips(tracks[t + 1..])
  {
    var front := tracks[..t + 1];
    assert |front| == t + 1 && front[..t] == tracks[..t] && front[t] == tracks[t];
    assert AllClips(front) == AllClips(front[..|front| - 1]) + front[|front| - 1].clips;
    AllClipsAppend(front, tracks[t + 1..]);
    assert front + tracks[t + 1..] == tracks;
  }

  /** A clip is gathered exactly when some track holds it. */
  lemma {:induction false} AllClipsMembership(tracks: seq<Track>, c: Clip)
    ensures c in AllClips(tracks) <==> exists t :: 0 <= t < |tracks| && c in tracks[t].clips
  {
    if tracks != [] {
      var init := tracks[..|tracks| - 1];
      AllClipsMembership(init, c);
      if c in AllClips(init) {
        var t :| 0 <= t < |init| && c in init[t].clips;
        assert tracks[t] == init[t];
      }
      if t :| 0 <= t < |tracks| && c in tracks[t].clips {
        if t < |init| {
          assert init[t] == tracks[t];
        }
      }
    }
  }

  /** Nothing is gathered exactly when every track is empty. */
  lemma {:induction false} AllClipsEmpty(tracks: seq<Track>)
    ensures AllClips(tracks) == [] <==> forall t :: 0 <= t < |tracks| ==> tracks[t].clips == []
  {
    if tracks != [] {
      var init := tracks[..|tracks| - 1];
      AllClipsEmpty(init);
      if AllClips(tracks) == [] {
        forall t | 0 <= t < |tracks| ensures tracks[t].clips == [] {
          if t < |init| {
            assert init[t] == tracks[t];
          }
        }
      }
    }
  }

  /**
   * The gathering loop of `convert_timeline_to_video`, with its empty check:
   * the clips of all tracks in order, or the error when there are none.
   */
  method CollectClips(timeline: TimelineData) returns (r: Result<seq<Clip>, string>)
    ensures r.Failure? <==> forall t :: 0 <= t < |timeline.tracks| ==> timeline.tracks[t].clips == []
    ensures r.Failure? ==> r.error == NoClipsError
    ensures r.Success? ==> r.value == AllClips(timeline.tracks) && |r.value| > 0
  {
    var tracks := timeline.tracks;
    var all: seq<Clip> := [];
    for t := 0 to |tracks|
      invariant all == AllClips(tracks[..t])
    {
      assert tracks[..t + 1][..t] == tracks[..t];
      all := all + tracks[t].clips;
    }
    assert tracks[..|tracks|] == tracks;
    AllClipsEmpty(tracks);
    if all == [] {
      return Failure(NoClipsError);
    }
    return Success(all);
  }

  /** The `source_file` of each clip, in clip order. */
  function Sources(clips: seq<Clip>): (files: seq<string>)
    ensures |files| == |clips|
    ensures forall k :: 0 <= k < |clips| ==> files[k] == clips[k].sourceFile
  {
    seq(|clips|, k requires 0 <= k < |clips| => clips[k].sourceFile)
  }

  predicate Distinct(xs: seq<string>) {
    forall i, j :: 0 <= i < j < |xs| ==> xs[i] != xs[j]
  }

  lemma HeadIsMember(xs: seq<string>)
    requires xs != []
    ensures xs[0] in xs
  {
  }

  /** Position of the first occurrence of `x`. */
  function FirstIndex(xs: seq<string>, x: string): (k: nat)
    requires x in xs
    ensures k < |xs| && xs[k] == x && x !in xs[..k]
  {
    if xs[0] == x then 0
    else
      assert x in xs[1..] by { var j :| 0 <= j < |xs| && xs[j] == x; assert xs[1..][j - 1] == x; }
      var k := FirstIndex(xs[1..], x);
      assert xs[..k + 1] == [xs[0]] + xs[1..][..k];
      1 + k
  }

  /** The first occurrence is the only position before which `x` does not occur. */
  lemma FirstIndexUnique(xs: seq<string>, x: string, k: nat)
    requires k < |xs| && xs[k] == x && x !in xs[..k]
    ensures FirstIndex(xs, x) == k
  {
    var f := FirstIndex(xs, x);
  }

  /** Appending does not move a first occurrence that is already there. */
  lemma FirstIndexAppend(xs: seq<string>, ys: seq<string>, x: string)
    requires x in xs
    ensures FirstIndex(xs + ys, x) == FirstIndex(xs, x)
  {
    var k := FirstIndex(xs, x);
    assert (xs + ys)[..k] == xs[..k];
    FirstIndexUnique(xs + ys, x, k);
  }

  /** Order-preserving de-duplication: keep a value only the first time it is seen. */
  function Dedup(xs: seq<string>): seq<string> {
    if xs == [] then []
    else
      var kept := Dedup(xs[..|xs| - 1]);
      if xs[|xs| - 1] in kept then kept else kept + [xs[|xs| - 1]]
  }

  /**
   * Dedup keeps every value, invents none, repeats none, and lists the values
   * in the order of their first occurrences.
   */
  lemma {:induction false} DedupCorrect(xs: seq<string>)
    ensures forall x :: x in Dedup(xs) <==> x in xs
    ensures Distinct(Dedup(xs))
    ensures forall i, j :: 0 <= i < j < |Dedup(xs)| ==> FirstIndex(xs, Dedup(xs)[i]) < FirstIndex(xs, Dedup(xs)[j])
  {
    if xs != [] {
      var init := xs[..|xs| - 1];
      var y := xs[|xs| - 1];
      var kept := Dedup(init);
      DedupCorrect(init);
      assert xs == init + [y];
      forall x | x in init ensures FirstIndex(xs, x) == FirstIndex(init, x) {
        FirstIndexAppend(init, [y], x);
      }
      if y !in kept {
        assert y !in init;
        FirstIndexUnique(xs, y, |init|);
        forall i | 0 <= i < |kept| ensures FirstIndex(xs, kept[i]) < FirstIndex(xs, y) {
          assert kept[i] in init;
        }
      }
    }
  }

  /** `u` lists the values of `xs` once each, in the order of their first occurrences. */
  ghost predicate IsDedupOf(xs: seq<string>, u: seq<string>) {
    && (forall x :: x in u <==> x in xs)
    && Distinct(u)
    && (forall i, j :: 0 <= i < j < |u| ==> u[i] in xs && u[j] in xs && FirstIndex(xs, u[i]) < FirstIndex(xs, u[j]))
  }

  /** A value seen before keeps its first position when one more value arrives. */
  lemma FirstIndexExtend(init: seq<string>, y: string)
    ensures forall x :: x in init ==> FirstIndex(init + [y], x) == FirstIndex(init, x)
  {
    forall x | x in init ensures FirstIndex(init + [y], x) == FirstIndex(init, x) {
      FirstIndexAppend(init, [y], x);
    }
  }

  /** A repeated last value changes nothing about what a de-duplication must be. */
  lemma IsDedupOfRepeat(init: seq<string>, y: string, u: seq<string>)
    requires y in init
    requires IsDedupOf(init + [y], u)
    ensures IsDedupOf(init, u)
  {
    FirstIndexExtend(init, y);
    forall x ensures x in u <==> x in init {
      if x in u {
        assert x in init + [y];
      }
    }
  }

  /** A value that first appears last must stand last in any de-duplication. */
  lemma NewValueStandsLast(init: seq<string>, y: string, u: seq<string>)
    requires y !in init
    requires IsDedupOf(init + [y], u)
    ensures |u| >= 1 && u[|u| - 1] == y
  {
    var xs := init + [y];
    assert y in u by { assert xs[|init|] == y; }
    var p :| 0 <= p < |u| && u[p] == y;
    var last := |u| - 1;
    // The last entry has the latest first occurrence, which can only be y's, at the very end.
    forall i | 0 <= i < |u| ensures FirstIndex(xs, u[i]) <= FirstIndex(xs, u[last]) {
      if i < last {
        assert FirstIndex(xs, u[i]) < FirstIndex(xs, u[last]);
      }
    }
    assert FirstIndex(xs, u[p]) <= FirstIndex(xs, u[last]);
    FirstIndexUnique(xs, y, |init|);
    var k := FirstIndex(xs, u[last]);
    assert |init| <= k < |xs|;
    assert u[last] == xs[k] == y;
  }

  /** Dropping that last value leaves a de-duplication of what came before. */
  lemma IsDedupOfNew(init: seq<string>, y: string, u: seq<string>)
    requires y !in init
    requires IsDedupOf(init + [y], u)
    ensures |u| >= 1 && u[|u| - 1] == y && IsDedupOf(init, u[..|u| - 1])
  {
    var xs := init + [y];
    NewValueStandsLast(init, y, u);
    var u' := u[..|u| - 1];
    assert u == u' + [y];
    assert y !in u';
    forall x ensures x in u' <==> x in init {
      assert x in u <==> x in xs;
    }
    FirstIndexExtend(init, y);
    forall i, j | 0 <= i < j < |u'|
      ensures u'[i] in init && u'[j] in init && FirstIndex(init, u'[i]) < FirstIndex(init, u'[j])
    {
      assert u'[i] == u[i] && u'[j] == u[j];
      assert u[i] in xs && u[j] in xs && FirstIndex(xs, u[i]) < FirstIndex(xs, u[j]);
    }
  }

  /** Being a de-duplication pins the list down: Dedup is the only one. */
  lemma {:induction false} DedupUnique(xs: seq<string>, u: seq<string>)
    requires IsDedupOf(xs, u)
    ensures u == Dedup(xs)
    decreases |xs|
  {
    if xs != [] {
      var init := xs[..|xs| - 1];
      var y := xs[|xs| - 1];
      assert xs == init + [y];
      if y in init {
        IsDedupOfRepeat(init, y, u);
        DedupUnique(init, u);
        DedupCorrect(init);
      } else {
        IsDedupOfNew(init, y, u);
        DedupUnique(init, u[..|u| - 1]);
        DedupCorrect(init);
        assert u == u[..|u| - 1] + [y];
      }
    } else if u != [] {
      HeadIsMember(u);
      assert false;
    }
  }

  /**
   * The `unique_sources` loop of `convert_timeline_to_video`: each clip's
   * source file, added only if it is not yet in the list.
   */
  method UniqueSources(clips: seq<Clip>) returns (unique: seq<string>)
    ensures unique == Dedup(Sources(clips))
    ensures forall x :: x in unique <==> x in Sources(clips)
    ensures forall x :: x in unique <==> exists k :: 0 <= k < |clips| && clips[k].sourceFile == x
    ensures Distinct(unique)
    ensures forall i, j :: 0 <= i < j < |unique| ==>
              FirstIndex(Sources(clips), unique[i]) < FirstIndex(Sources(clips), unique[j])
  {
    unique := [];
    for k := 0 to |clips|
      invariant unique == Dedup(Sources(clips[..k]))
    {
      assert Sources(clips[..k + 1])[..k] == Sources(clips[..k]);
      if clips[k].sourceFile !in unique {
        unique := unique + [clips[k].sourceFile];
      }
    }
    assert clips[..|clips|] == clips;
    DedupCorrect(Sources(clips));
    forall x ensures x in Sources(clips) <==> exists k :: 0 <= k < |clips| && clips[k].sourceFile == x {
      if x in Sources(clips) {
        var k :| 0 <= k < |clips| && Sources(clips)[k] == x;
        assert clips[k].sourceFile == x;
      }
    }
  }

  /** Where a clip stops on the timeline. */
  function ClipEnd(c: Clip): real {
    c.startTime + c.duration
  }

  function Max(a: real, b: real): real {
    if a >= b then a else b
  }

  /** `fold(acc, f64::max)` over the clips' end times. */
  function FoldMaxEnd(acc: real, clips: seq<Clip>): (m: real)
    ensures m >= acc
    ensures forall k :: 0 <= k < |clips| ==> m >= ClipEnd(clips[k])
    ensures m == acc || exists k :: 0 <= k < |clips| && m == ClipEnd(clips[k])
    decreases |clips|
  {
    if clips == [] then acc
    else
      var m := FoldMaxEnd(Max(acc, ClipEnd(clips[0])), clips[1..]);
      assert forall k :: 1 <= k < |clips| ==> clips[1..][k - 1] == clips[k];
      m
  }

  /**
   * The total duration used for the progress percentage: the latest clip end,
   * folded from 0, so never negative.
   */
  function TotalDuration(clips: seq<Clip>): (total: real)
    ensures total >= 0.0
    ensures forall k :: 0 <= k < |clips| ==> total >= ClipEnd(clips[k])
    ensures total == 0.0 || exists k :: 0 <= k < |clips| && total == ClipEnd(clips[k])
  {
    FoldMaxEnd(0.0, clips)
  }

  /** Once some clip ends at or after 0, the total is the end of one of the clips. */
  lemma TotalDurationAttained(clips: seq<Clip>, k: nat)
    requires k < |clips| && ClipEnd(clips[k]) >= 0.0
    ensures exists j :: 0 <= j < |clips| && TotalDuration(clips) == ClipEnd(clips[j])
  {
    if TotalDuration(clips) == 0.0 {
      assert ClipEnd(clips[k]) == 0.0;
    }
  }

  function Min(a: real, b: real): real {
    if a <= b then a else b
  }

  /** Progress of the encoder: elapsed time as a share of the total, capped at 100; 0 when the total is not positive. */
  function ProgressPercent(current: real, total: real): (pct: real)
    ensures total <= 0.0 ==> pct == 0.0
    ensures pct <= 100.0
    ensures total > 0.0 && current >= 0.0 ==> pct >= 0.0
    ensures total > 0.0 && current >= total ==> pct == 100.0
    ensures total > 0.0 && current <= total ==> pct * total == current * 100.0
  {
    if total > 0.0 then
      RatioAtLeastOne(current, total);
      Min(current / total * 100.0, 100.0)
    else 0.0
  }

  lemma RatioAtLeastOne(current: real, total: real)
    requires total > 0.0
    ensures current >= total ==> current / total >= 1.0
  {
    assert current == (current / total) * total;
  }

  /** Progress never goes backwards while the encoder's clock advances. */
  lemma ProgressMonotone(c1: real, c2: real, total: real)
    requires c1 <= c2
    ensures ProgressPercent(c1, total) <= ProgressPercent(c2, total)
  {
    if total > 0.0 {
      assert c1 / total <= c2 / total by {
        assert c2 / total - c1 / total == (c2 - c1) / total;
      }
    }
  }
}
