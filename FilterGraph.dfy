/**
 * `generate_filter_complex`: the FFmpeg `filter_complex` text that trims,
 * re-times and delays every clip's audio and mixes the results.
 *
 * The rendering of `f64` values (`{}` in `format!`) is left abstract as a
 * parameter `fmt`; integers are rendered exactly (Text.NatToString,
 * Text.IntToString).
 */
module FilterGraph {
  import opened Text
  import opened Timeline

  /** Rust's `Display` for `f64`. */
  type RealText = real -> string

  /** The rendering of a number never contains `;`, the graph's segment separator. */
  ghost predicate NoSemicolon(fmt: RealText) {
    forall x :: ';' !in fmt(x)
  }

  const I64Min: int := -0x8000_0000_0000_0000
  const I64Max: int := 0x7fff_ffff_ffff_ffff

  /** Rust's `x as i64` on a finite `f64`: rounded toward zero and saturated to the range of `i64`. */
  function AsI64(x: real): (n: int)
    ensures I64Min <= n <= I64Max
    ensures 0.0 <= x ==> 0 <= n && n as real <= x && (x < n as real + 1.0 || n == I64Max)
    ensures x < 0.0 ==> n <= 0 && x <= n as real && (n as real - 1.0 < x || n == I64Min)
  {
    var t := if x >= 0.0 then x.Floor else -((-x).Floor);
    if t < I64Min then I64Min else if t > I64Max then I64Max else t
  }

  /**
   * The content of one clip's segment: the input stream number it reads, the
   * kept window of that input, the delay in milliseconds and the number of the
   * label it writes.
   */
  datatype ClipFilter = ClipFilter(input: nat, trimFrom: real, trimTo: real, delayMs: int, output: nat)

  /**
   * The segment for the clip at position i. It reads input i and writes label
   * i: the clip's position, not the position of its source among the inputs.
   */
  function ClipFilterOf(i: nat, clip: Clip): (f: ClipFilter)
    ensures f.input == i && f.output == i
    ensures f.trimFrom == clip.trimStart && f.trimTo - f.trimFrom == clip.duration
    ensures f.delayMs == AsI64(clip.startTime * 1000.0)
  {
    ClipFilter(i, clip.trimStart, clip.duration + clip.trimStart, AsI64(clip.startTime * 1000.0), i)
  }

  /** The stream label `[a<i>]`. */
  function Label(i: nat): string {
    "[a" + NatToString(i) + "]"
  }

  /** The input reference `[<input>:a]`: the audio stream of the input with that number. */
  function InputRef(input: nat): string {
    "[" + NatToString(input) + ":a]"
  }

  /** `atrim=start=<from>:end=<to>,asetpts=PTS-STARTPTS,adelay=<d>|<d>`, one delay per stereo channel. */
  function TrimAndDelay(f: ClipFilter, fmt: RealText): string {
    "atrim=start=" + fmt(f.trimFrom) + ":end=" + fmt(f.trimTo)
      + ",asetpts=PTS-STARTPTS,adelay=" + IntToString(f.delayMs) + "|" + IntToString(f.delayMs)
  }

  /** `[<input>:a]atrim=start=<from>:end=<to>,asetpts=PTS-STARTPTS,adelay=<d>|<d>[a<output>]` */
  function RenderClipFilter(f: ClipFilter, fmt: RealText): string {
    InputRef(f.input) + TrimAndDelay(f, fmt) + Label(f.output)
  }

  /** The label reads back as its number: `[a`, the decimal digits of i, then `]`. */
  lemma LabelValue(i: nat)
    ensures var r := Label(i);
            |r| >= 4 && r[..2] == "[a" && r[|r| - 1..] == "]" && r[2..|r| - 1] == NatToString(i)
            && DigitsValue(r[2..|r| - 1]) == i
  {
    var r := Label(i);
    assert r[2..|r| - 1] == NatToString(i);
    NatToStringRoundTrip(i);
  }

  /** The input reference reads back as its input number: `[`, the digits, then `:a]`. */
  lemma InputRefValue(input: nat)
    ensures var r := InputRef(input);
            |r| >= 5 && r[..1] == "[" && r[|r| - 3..] == ":a]" && r[1..|r| - 3] == NatToString(input)
            && DigitsValue(r[1..|r| - 3]) == input
  {
    var r := InputRef(input);
    assert r[1..|r| - 3] == NatToString(input);
    NatToStringRoundTrip(input);
  }

  /** The mix inputs: the labels `[a0]` to `[a(n-1)]`, one for each clip, in clip order. */
  function StreamLabels(n: nat): (labels: seq<string>)
    ensures |labels| == n
    ensures forall i :: 0 <= i < n ==> labels[i] == Label(i)
  {
    seq(n, i requires 0 <= i => Label(i))
  }

  /** The closing segment: every label, then `amix` over that many inputs at the given volume. */
  function MixSegment(n: nat, volume: real, fmt: RealText): string {
    Join(StreamLabels(n), "") + "amix=inputs=" + NatToString(n) + ":duration=longest,volume=" + fmt(volume)
  }

  /** The per-clip segments, in clip order. */
  function ClipSegments(clips: seq<Clip>, fmt: RealText): (segments: seq<string>)
    ensures |segments| == |clips|
    ensures forall i :: 0 <= i < |clips| ==> segments[i] == RenderClipFilter(ClipFilterOf(i, clips[i]), fmt)
  {
    seq(|clips|, i requires 0 <= i < |clips| => RenderClipFilter(ClipFilterOf(i, clips[i]), fmt))
  }

  /** The whole graph: nothing for no clips, otherwise the clip segments and the mix, joined by `;`. */
  function FilterComplex(clips: seq<Clip>, mainVolume: real, fmt: RealText): string {
    if clips == [] then ""
    else Join(ClipSegments(clips, fmt) + [MixSegment(|clips|, mainVolume, fmt)], ";")
  }

  /** `generate_filter_complex`, with its loop over the clips. */
  method GenerateFilterComplex(clips: seq<Clip>, mainVolume: real, fmt: RealText) returns (filter: string)
    ensures filter == FilterComplex(clips, mainVolume, fmt)
    ensures filter == "" <==> clips == []
  {
    if clips == [] {
      return "";
    }
    ghost var segments := ClipSegments(clips, fmt);
    var parts: seq<string> := [];
    for i := 0 to |clips|
      invariant parts == segments[..i]
    {
      var clip := clips[i];
      var trimEnd := clip.duration + clip.trimStart;
      var delayMs := AsI64(clip.startTime * 1000.0);
      var f := ClipFilter(i, clip.trimStart, trimEnd, delayMs, i);
      assert f == ClipFilterOf(i, clip);
      var segment := RenderClipFilter(f, fmt);
      assert segment == segments[i];
      GrowPrefix(segments, i);
      parts := parts + [segment];
    }
    assert parts == segments;
    parts := parts + [MixSegment(|clips|, mainVolume, fmt)];
    filter := Join(parts, ";");
    FilterComplexEmpty(clips, mainVolume, fmt);
  }

  /** A prefix grows by the next element. */
  lemma GrowPrefix<T>(xs: seq<T>, i: nat)
    requires i < |xs|
    ensures xs[..i] + [xs[i]] == xs[..i + 1]
  {
  }

  lemma NumbersHaveNoSemicolon(n: nat, i: int)
    ensures ';' !in NatToString(n) && ';' !in IntToString(i)
  {
  }

  lemma ClipSegmentHasNoSemicolon(f: ClipFilter, fmt: RealText)
    requires NoSemicolon(fmt)
    ensures ';' !in RenderClipFilter(f, fmt)
  {
    NumbersHaveNoSemicolon(f.input, f.delayMs);
    NumbersHaveNoSemicolon(f.output, 0);
    assert ';' !in fmt(f.trimFrom) && ';' !in fmt(f.trimTo);
    assert ';' !in InputRef(f.input);
    assert ';' !in TrimAndDelay(f, fmt);
    assert ';' !in Label(f.output);
  }

  lemma MixSegmentHasNoSemicolon(n: nat, volume: real, fmt: RealText)
    requires NoSemicolon(fmt)
    ensures ';' !in MixSegment(n, volume, fmt)
  {
    var labels := StreamLabels(n);
    forall i | 0 <= i < |labels| ensures ';' !in labels[i] {
      NumbersHaveNoSemicolon(i, 0);
    }
    JoinKeepsOut(labels, "", ';');
    NumbersHaveNoSemicolon(n, 0);
    assert ';' !in fmt(volume);
  }

  /** No segment contains the separator. */
  lemma SegmentsHaveNoSemicolon(clips: seq<Clip>, mainVolume: real, fmt: RealText)
    requires NoSemicolon(fmt)
    ensures forall i :: 0 <= i < |clips| ==> ';' !in ClipSegments(clips, fmt)[i]
    ensures ';' !in MixSegment(|clips|, mainVolume, fmt)
  {
    forall i | 0 <= i < |clips| ensures ';' !in ClipSegments(clips, fmt)[i] {
      ClipSegmentHasNoSemicolon(ClipFilterOf(i, clips[i]), fmt);
    }
    MixSegmentHasNoSemicolon(|clips|, mainVolume, fmt);
  }

  /** Joining strings that avoid a character with a separator that avoids it gives a string that avoids it. */
  lemma {:induction false} JoinKeepsOut(parts: seq<string>, sep: string, ch: char)
    requires ch !in sep
    requires forall k :: 0 <= k < |parts| ==> ch !in parts[k]
    ensures ch !in Join(parts, sep)
  {
    if |parts| > 1 {
      JoinKeepsOut(parts[1..], sep, ch);
      assert ch !in parts[0];
    }
  }

  /** The graph for no clips is empty and for any clips it is not. */
  lemma FilterComplexEmpty(clips: seq<Clip>, mainVolume: real, fmt: RealText)
    ensures FilterComplex(clips, mainVolume, fmt) == "" <==> clips == []
  {
    if clips != [] {
      var parts := ClipSegments(clips, fmt) + [MixSegment(|clips|, mainVolume, fmt)];
      assert Join(parts, ";") == parts[0] + ";" + Join(parts[1..], ";");
    }
  }

  /**
   * Cutting a non-empty graph at its `;`s gives exactly one segment per clip,
   * in clip order, followed by the mix segment: |clips| + 1 parts.
   */
  lemma FilterComplexParts(clips: seq<Clip>, mainVolume: real, fmt: RealText)
    requires clips != [] && NoSemicolon(fmt)
    ensures Split(FilterComplex(clips, mainVolume, fmt), ';') == ClipSegments(clips, fmt) + [MixSegment(|clips|, mainVolume, fmt)]
    ensures |Split(FilterComplex(clips, mainVolume, fmt), ';')| == |clips| + 1
  {
    var parts := ClipSegments(clips, fmt) + [MixSegment(|clips|, mainVolume, fmt)];
    SegmentsHaveNoSemicolon(clips, mainVolume, fmt);
    forall k | 0 <= k < |parts| ensures ';' !in parts[k] {
      if k < |clips| {
        assert parts[k] == ClipSegments(clips, fmt)[k];
      }
    }
    SplitJoin(parts, ';');
  }

  /** Different positions get different labels, so the mix reads every stream exactly once. */
  lemma StreamLabelsDistinct(n: nat)
    ensures forall i, j :: 0 <= i < j < n ==> StreamLabels(n)[i] != StreamLabels(n)[j]
  {
    forall i, j | 0 <= i < j < n ensures Label(i) != Label(j) {
      LabelInjective(i, j);
    }
  }

  lemma LabelInjective(i: nat, j: nat)
    ensures Label(i) == Label(j) ==> i == j
  {
    if Label(i) == Label(j) {
      assert Label(i)[2..|Label(i)| - 1] == NatToString(i);
      assert Label(j)[2..|Label(j)| - 1] == NatToString(j);
      NatToStringInjective(i, j);
    }
  }

  /**
   * Segment i opens with the input reference `[i:a]` and closes with the label
   * the mix segment lists in position i.
   */
  lemma SegmentWiring(clips: seq<Clip>, fmt: RealText, i: nat)
    requires i < |clips|
    ensures var seg := ClipSegments(clips, fmt)[i];
            var mixLabel := StreamLabels(|clips|)[i];
            |InputRef(i)| + |mixLabel| <= |seg| && seg[..|InputRef(i)|] == InputRef(i) && seg[|seg| - |mixLabel|..] == mixLabel
  {
    var f := ClipFilterOf(i, clips[i]);
    Ends(InputRef(i), TrimAndDelay(f, fmt), Label(i));
  }

  lemma Ends(a: string, b: string, c: string)
    ensures |a| + |c| <= |a + b + c|
    ensures (a + b + c)[..|a|] == a && (a + b + c)[|a + b + c| - |c|..] == c
  {
  }
}
