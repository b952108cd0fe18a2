# Timeline export: from clips to an FFmpeg command

The wavecast back end (`src-tauri/src/lib.rs`) receives the edited timeline as
a list of tracks, each a list of clips (`source_file`, `start_time`,
`duration`, `trim_start`, `trim_end`). Before spawning FFmpeg it gathers the
clips and builds the inputs and filters; after spawning it folds the total
duration, and for each progress event it computes a percentage. This project
models each of these steps and proves what it does:

- **All clips** (`Timeline.CollectClips`). Every track's clips are
  concatenated, track after track. The export fails with "No audio clips in
  timeline" when there are none.
- **Input files** (`Export.Inputs`, built from `Timeline.UniqueSources`). The
  still image comes first, then each distinct source file once, in the order
  it is first used.
- **Video filter** (`VideoStyle.VideoFilter`). The chosen background style
  becomes an FFmpeg video filter. `convert_to_video` repeats the same lookup
  (lib.rs:284-290); it is modelled once.
- **Audio filter graph** (`FilterGraph.GenerateFilterComplex`). Each clip gets
  one `atrim/asetpts/adelay` segment. One `amix` segment follows, and the text
  is joined by `;`.
- **Total duration and progress** (`Timeline.TotalDuration`,
  `Timeline.ProgressPercent`, `TimeParse.ParseTimeToSeconds`). Each progress
  event carries a percentage computed from these.

Numbers are `real`. The two places where the source turns floats into strings
or back have no specification of their own here, so they are parameters:
`fmt: real -> string` stands for Rust's `Display` for `f64`, and
`parse: string -> Option<real>` stands for `str::parse::<f64>`. Integer output
(clip indices, the `i64` delay, the clip count) is rendered exactly, by
`Text.NatToString` and `Text.IntToString`. `str::split(':')` and `join` are
also modelled exactly (`Text.Split`, `Text.Join`), and they are proved to undo
each other.

The segment for clip `i` reads input `[i:a]`. `i` is the clip's position in
the list. It is not the position of the clip's file among the inputs, which
start with the image and skip repeated files. The model keeps this as written;
three lemmas in `Export` describe what it does. Clip 0 reads the image. When
all files are distinct, clip `i` reads the file of clip `i - 1`. When three or
more clips share one file, the last segment reads an input that does not
exist.

Two behaviours of the code are worth knowing when reading the model:

- The code does not check start times, so they may be negative. The total
  duration is folded from 0, so it is 0 when every clip ends before 0, not
  the end of some clip.
- Track `volume`, clip `trim_end` and the background-music arguments reach
  `convert_timeline_to_video` but are never read. The ends of the trim
  windows come from `trim_start + duration`. Only the main volume is applied.

The three records the front end sends are the datatypes `Timeline.Clip`
(`TimelineClip`, lib.rs:22-29), `Timeline.Track` (`TimelineTrack`,
lib.rs:31-35) and `Timeline.TimelineData` (lib.rs:37-40), with the same
fields; `f64` fields are `real`.

## Model

| member | source | states |
|---|---|---|
| `Text.NatToString` | src-tauri/src/lib.rs:75-76 | an unsigned integer renders as at least one decimal digit, with no leading zero except for 0 |
| `Text.NatToStringRoundTrip` | src-tauri/src/lib.rs:75-76 | reading the rendered digits back gives the number |
| `Text.NatToStringInjective` | src-tauri/src/lib.rs:75-76 | two numbers render the same exactly when they are equal |
| `Text.IntToString` | src-tauri/src/lib.rs:75 | an `i64` renders as digits with a leading `-` exactly when it is negative |
| `Text.IntToStringValue` | src-tauri/src/lib.rs:72-76 | the digits after the optional `-` read back as the magnitude of the delay, so the text denotes the `i64` value |
| `Text.IntToStringInjective` | src-tauri/src/lib.rs:75 | two delays render the same exactly when they are equal |
| `Text.Split` | src-tauri/src/lib.rs:44 | splitting on `:` gives one more piece than there are colons, and no piece contains a colon |
| `Text.JoinSplit` | src-tauri/src/lib.rs:44 | joining the pieces with the separator restores the original string |
| `Text.SplitJoin` | src-tauri/src/lib.rs:89 | splitting a join of separator-free parts gives back exactly those parts |
| `Text.Join` | src-tauri/src/lib.rs:89 | `join`: no parts give the empty text, one part gives itself, and neighbours are separated by the separator; `JoinSplit` and `SplitJoin` pin it as the inverse of `Split` |
| `Text.CountZero` | src-tauri/src/lib.rs:46-47 | a string has zero colons exactly when it has no colon |
| `Timeline.CollectClips` | src-tauri/src/lib.rs:106-113 | fails with "No audio clips in timeline" exactly when every track is empty; otherwise returns all tracks' clips, concatenated in track order |
| `Timeline.AllClips` | src-tauri/src/lib.rs:106-109 | the clips of all tracks, track after track, as the `extend` loop gathers them; its lemmas below give its meaning |
| `Timeline.AllClipsAppend` | src-tauri/src/lib.rs:106-109 | gathering the clips of two track lists side by side gives their gathered clips side by side |
| `Timeline.AllClipsBlock` | src-tauri/src/lib.rs:106-109 | track t's clips form one block, in their own order, between the earlier tracks' clips and the later tracks' clips |
| `Timeline.AllClipsMembership` | src-tauri/src/lib.rs:106-109 | a clip is gathered exactly when some track holds it |
| `Timeline.AllClipsEmpty` | src-tauri/src/lib.rs:111-113 | nothing is gathered exactly when every track is empty |
| `Timeline.Sources` | src-tauri/src/lib.rs:141-142 | one source file per clip: entry k is clip k's `source_file` |
| `Timeline.Dedup` | src-tauri/src/lib.rs:140-145 | the source files without repeats in order of first use; `DedupCorrect` and `DedupUnique` characterise it |
| `Timeline.FirstIndex` | src-tauri/src/lib.rs:142 | the position returned holds the value, and the value does not occur before it |
| `Timeline.UniqueSources` | src-tauri/src/lib.rs:140-145 | the list has no repeats, holds exactly the clips' source files, lists them in order of first use, and equals `Dedup` of the source list |
| `Timeline.DedupCorrect` | src-tauri/src/lib.rs:140-145 | order-preserving dedup keeps every value, adds none, repeats none, and orders values by first occurrence |
| `Timeline.DedupUnique` | src-tauri/src/lib.rs:140-145 | any list with those three properties is that dedup, so the properties determine the result |
| `Timeline.ClipEnd` | src-tauri/src/lib.rs:175 | a clip ends at `start_time + duration` |
| `Timeline.FoldMaxEnd` | src-tauri/src/lib.rs:174-176 | folding `f64::max` over the clip ends gives at least the start value and every end, and equals the start value or one of the ends |
| `Timeline.TotalDuration` | src-tauri/src/lib.rs:174-176 | the total is non-negative, is at least every clip's `start_time + duration`, and is 0 or one of those ends |
| `Timeline.TotalDurationAttained` | src-tauri/src/lib.rs:174-176 | once some clip ends at or after 0, the total is the end of one of the clips |
| `Timeline.ProgressPercent` | src-tauri/src/lib.rs:187-191 | the result is 0 when the total is not positive and never above 100; it is 100 once the time reaches the total; below that, it equals `100 * t / total` |
| `Timeline.ProgressMonotone` | src-tauri/src/lib.rs:187-191 | for a fixed total, a later time never gives a smaller percentage |
| `TimeParse.ParseOrZero` | src-tauri/src/lib.rs:49 | `parse().unwrap_or(0.0)`: the parsed number when the text parses, otherwise 0 |
| `TimeParse.ParseTimeToSeconds` | src-tauri/src/lib.rs:42-59 | a stamp whose colon count is neither 0 nor 2 gives 0 |
| `TimeParse.PlainSeconds` | src-tauri/src/lib.rs:47-50 | a stamp without a colon gives its parsed value, or 0 if it does not parse |
| `TimeParse.ClockTime` | src-tauri/src/lib.rs:51-57 | `h:m:s` with colon-free fields gives `h*3600 + m*60 + s`, where each field that does not parse counts 0 |
| `VideoStyle.VideoFilter` | src-tauri/src/lib.rs:125-131 | "repeat" gives the tile filter. "contain" and "center" give the same fit-and-pad filter. "cover" and every other name give the fill-and-crop filter. These three filters are distinct |
| `FilterGraph.AsI64` | src-tauri/src/lib.rs:72 | `x as i64` rounds toward zero and saturates at the bounds of `i64` |
| `FilterGraph.ClipFilterOf` | src-tauri/src/lib.rs:71-76 | segment i reads input i and writes label i; its trim window starts at `trim_start` and is `duration` long; its delay is `start_time * 1000` truncated to `i64` |
| `FilterGraph.InputRef` | src-tauri/src/lib.rs:75-76 | the input reference `[<i>:a]` that opens a clip segment |
| `FilterGraph.InputRefValue` | src-tauri/src/lib.rs:75-76 | the reference is `[`, the decimal digits of i, then `:a]`, and those digits read back as i |
| `FilterGraph.Label` | src-tauri/src/lib.rs:75-76 | the stream label `[a<i>]` that closes clip segment i |
| `FilterGraph.LabelValue` | src-tauri/src/lib.rs:75-76 | the label is `[a`, the decimal digits of i, then `]`, and those digits read back as i |
| `FilterGraph.TrimAndDelay` | src-tauri/src/lib.rs:75-76 | the middle of a clip segment: `atrim` from the window start to its end, `asetpts=PTS-STARTPTS`, then `adelay` with the delay given once per stereo channel |
| `FilterGraph.RenderClipFilter` | src-tauri/src/lib.rs:74-77 | a clip segment is its input reference, the trim-and-delay text and its label, in that order |
| `FilterGraph.StreamLabels` | src-tauri/src/lib.rs:81 | n labels, label i in position i |
| `FilterGraph.MixSegment` | src-tauri/src/lib.rs:82-87 | the closing segment: all labels joined with nothing between them, then `amix=inputs=<n>:duration=longest,volume=<v>` |
| `FilterGraph.ClipSegments` | src-tauri/src/lib.rs:67-78 | the segments the loop pushes: one per clip, in clip order; entry i is the rendering of clip i's segment, reading input i and writing label i |
| `FilterGraph.FilterComplex` | src-tauri/src/lib.rs:62-90 | nothing for no clips; otherwise the clip segments followed by the mix segment, joined by `;` |
| `FilterGraph.GenerateFilterComplex` | src-tauri/src/lib.rs:62-90 | the loop produces the clip segments in clip order and then the mix segment, joined by `;`; the result is empty exactly when there are no clips |
| `FilterGraph.FilterComplexEmpty` | src-tauri/src/lib.rs:62-65 | the graph text is empty exactly when the clip list is empty |
| `FilterGraph.FilterComplexParts` | src-tauri/src/lib.rs:67-89 | splitting a non-empty graph at `;` gives `n + 1` parts: segment i, for clip i, in position i, then the mix segment |
| `FilterGraph.SegmentsHaveNoSemicolon` | src-tauri/src/lib.rs:74-87 | no clip segment and no mix segment contains `;` |
| `FilterGraph.JoinKeepsOut` | src-tauri/src/lib.rs:84 | joining parts that avoid a character, with a separator that avoids it, gives text that avoids it |
| `FilterGraph.StreamLabelsDistinct` | src-tauri/src/lib.rs:81 | the amix labels `[a0]...[a(n-1)]` are pairwise distinct |
| `FilterGraph.LabelInjective` | src-tauri/src/lib.rs:75-76 | two labels are equal only when their numbers are |
| `FilterGraph.SegmentWiring` | src-tauri/src/lib.rs:74-81 | segment i starts with `[i:a]` and ends with the label that the mix segment lists in position i |
| `Export.MainVolume` | src-tauri/src/lib.rs:133 | the gain times 100 is the volume percentage |
| `Export.Inputs` | src-tauri/src/lib.rs:137-149 | the image comes first; the other inputs are exactly the clips' source files, each once, ordered by first use; they are the dedup of the source list |
| `Export.PlanTimelineExport` | src-tauri/src/lib.rs:106-176 | fails with the no-clips error exactly when every track is empty. Otherwise the inputs are the image followed by the deduplicated sources, the video filter comes from the style, the audio filter is the graph at `main_audio_volume / 100`, and the total is the folded maximum |
| `Export.ExportProgress` | src-tauri/src/lib.rs:186-191 | the percentage from a progress time stamp is at most 100, is 0 when the total is not positive, and is non-negative when the stamp is |
| `Export.FirstSegmentReadsImage` | src-tauri/src/lib.rs:137-152 | the first clip's segment reads input 0, which is the still image |
| `Export.DistinctSourcesShiftByOne` | src-tauri/src/lib.rs:137-152 | with distinct source files, segment i (i >= 1) reads an existing input, and that input is clip i-1's file |
| `Export.SharedSourceOverrunsInputs` | src-tauri/src/lib.rs:137-152 | with three or more clips sharing one file there are two inputs, and the last segment's input index is past them |
| `Export.DedupOfDistinct` | src-tauri/src/lib.rs:140-145 | without repeated files the unique-source list is the source list itself |

## Left out

- FFmpeg itself is not modelled: `auto_download`, building and spawning the command, waiting for it, and its event stream (lib.rs:103, 136-171, 179-217). These control an outside process through a foreign library.
- Progress events (`app.emit`) and log lines (`println!`) are not modelled. They are side effects on the user interface and the console.
- The output path is not modelled: the parent directory of the first clip's file, its error "Could not determine audio directory", and `output.mp4` (lib.rs:116-122). This is path and filesystem handling.
- `convert_to_video` is not modelled beyond the style lookup it shares. That covers its concat list, temporary files, cleanup, paths and its fixed `format!` filter strings (lib.rs:222-363). It is filesystem work around FFmpeg.
- `upload_to_vimeo` is not modelled. It is an asynchronous HTTP client (lib.rs:365-430).
- `run` is not modelled. It starts the Tauri application (lib.rs:432-440).
- The exact text of an `f64` and what Rust's float parser accepts are parameters, not definitions. The lemmas about `;` rely on one stated assumption, `FilterGraph.NoSemicolon`: a rendered number never contains `;`.
- IEEE 754 behaviour is not modelled: rounding, infinities and NaN. For example, `f64::max` and `>` treat NaN in their own way, and `NaN as i64` is 0. Arithmetic here is exact.
- Export.PlanTimelineExport: does not model the errors that come from the FFmpeg download, the output directory, spawning, getting the event iterator or waiting (lib.rs:103, 119, 171, 179-180, 213-216). It covers only the no-clips error.
- Export.ExportProgress: states only bounds. The exact value is `Timeline.ProgressPercent` of the parsed time, whose contract is the precise one.
- The interactive editor (split, trim, drag, snapping, playback) is not modelled. Its source is not part of this model.
