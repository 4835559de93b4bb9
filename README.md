# convff: per-file transcode decisions, in Dafny

convff reads a list of video files on standard input. It probes each one with
ffprobe and builds an ffmpeg command that converts it for a target device.
There are two targets. `-v` (DVD player) uses a fixed MPEG profile. `-t`
(digital TV device) uses an MKV profile that copies what the device already
plays and re-encodes the rest. This project models the decision logic:

- **Stream reduction** (`Streams`, `Probe`, `CodecInfo`). ffprobe's decoded
  stream list is reduced to the last audio codec, the last video codec and,
  in main.go, that video stream's integer fps. The fps is `num / den` with
  Go's truncating division. There are two variants of `videoInfo`:
  main.go:136-163 is `Probe.VideoInfo` and video_info.go:81-104 is
  `CodecInfo.VideoInfo`. Both are loops proved against the pure
  specification `Streams.LastOfKind`.
- **Output paths** (`Paths`). `output(inp, opath)` strips `path.Ext(inp)`,
  appends the new extension and joins the result under the destination.
  `path.Ext` is modelled exactly. `Paths.FinalElement` is an independent
  description of it: the suffix after the last slash.
- **Profiles** (`Policy`, `PolicyProperties`). `mpg` emits a constant argument
  list. `mkv` is a step-by-step method proved against `Policy.MkvArgs`. An
  ffmpeg-style argument reader (`Policy.Parse`) reads an argument list back
  into flags, option values and outputs. The policy properties are stated on
  what ffmpeg reads back.
- **Batch** (`Batch`). `commands` fills an array with one entry per input.
  `main` rejects an empty or `"."` destination, builds the commands and starts
  them all.

External processes are parameters. `prober: string -> ProbeOutput` stands for
running ffprobe on a path and decoding its JSON. A command is a value
`Cmd(name, args)`. A nil `*exec.Cmd` or error is `Option.None`.

Behaviour the model follows from the code:

- A file whose probe finds no streams is not an error. It yields empty codecs
  and fps 0.
- The runner (main.go:45-49) does not skip failed builds. It dereferences the
  nil command, which crashes the process. `Batch.Launch` returns `NilCommand`
  in that case. A zero rate denominator crashes the process earlier, during
  the build (`RatePanic`).
- Only the last extension is replaced. `clip.mkv.avi` becomes `clip.mkv.mkv`
  (`PathExamples.OnlyLastExtensionReplaced`). The result's extension is always
  exactly the new one (`Paths.OutputHasExtension`).
- The fps cap applies to the truncated rate. A 30.5 fps source (`61/2`) counts
  as 30 fps and is copied (`Probe.FpsOverCap`).

## Model

| member | source | states |
|---|---|---|
| `Streams.LastOfKind` | video_info.go:92-101 | the result is absent exactly when no stream has the type; otherwise it is a stream of the list with that type |
| `Streams.LastCodec` | video_info.go:92-100 | empty when no stream has the type; a non-empty result is the codec name of some stream of that type |
| `Streams.LastOfKindAt` | video_info.go:92-101 | in index order, the last stream of a type wins: the result is the stream at the last index holding that type |
| `Streams.OtherKindsIgnored` | video_info.go:94-99 | removing every stream that is neither audio nor video changes neither the last audio stream nor the last video stream |
| `CodecInfo.VideoInfo` | video_info.go:81-104 | a probe or JSON error is returned and both codecs stay empty; otherwise no error, and each codec is that of the last stream of its type |
| `Probe.GoQuo` | main.go:154 | Go's truncating `/`: the remainder has the dividend's sign and is smaller than the divisor in magnitude |
| `Probe.FpsOverCap` | main.go:152-154 | for a non-negative rate `num/den`, the truncated fps exceeds 30 exactly when `num >= 31 * den` |
| `Probe.LastFps` | main.go:150-155 | 0 when there is no video stream; otherwise the truncated rate of the last video stream |
| `Probe.ConvParOf` | main.go:136-163 | a probe error is passed on; it succeeds exactly when the probe decoded and every video rate has a non-zero denominator, and otherwise gives `ZeroRate` (Go's division panic); a missing video (audio) stream leaves the video codec and fps (audio codec) empty and zero |
| `Probe.VideoInfo` | main.go:136-163 | the stream loop returns exactly `ConvParOf`: the last audio codec, the last video codec and its fps, or the error; a zero denominator stops it |
| `Paths.Ext` | main.go:74 | `path.Ext`: a suffix of the path that is empty or a dot followed by no dot and no slash |
| `Paths.ExtWithinFinalElement` | main.go:74 | the extension lies inside the final path element and is empty exactly when that element has no dot |
| `Paths.ExtOfFinalElement` | main.go:74 | a path has the same extension as its final element |
| `Paths.TrimExt` | main.go:75 | the stripped input followed by its extension is the input |
| `Paths.ExtOfAppended` | main.go:74-75 | a path ending in an extension has exactly that extension |
| `Paths.OutputHasExtension` | main.go:73-77 | whatever extension the input had, none included, the output path's extension is the new one |
| `Paths.ReplaceExtIdempotent` | main.go:74-75 | replacing the extension twice with the same one equals replacing it once |
| `Paths.OutputKeepsDirectories` | main.go:73-77 | for a destination and input that are clean relative paths with no `..` element, the output is the destination, a slash, all directories of the input, its final element without extension, and the new extension (the lemma states this of the model's `Join`, which does not clean) |
| `Paths.Join` | main.go:76 | `path.Join` of the destination and the renamed input without Go's clean-up step; it has no `ensures` of its own, and its results are described by `OutputKeepsDirectories` and `DotInDirectoryIgnored` |
| `Paths.OutputPath` | main.go:73-77 | the path `output(inp, opath)` gives for an extension; no `ensures` of its own: `OutputHasExtension`, `ReplaceExtIdempotent` and `OutputKeepsDirectories` carry its properties |
| `Paths.Output` | main.go:72-80 | `output(inp, opath)` as a function value, `ext => OutputPath(inp, opath, ext)`; no `ensures` of its own, see `OutputPath` |
| `Paths.FinalElementAfterSlash` | main.go:74 | the final element of `dir/file` is `file` when `file` has no slash |
| `PathExamples.OnlyLastExtensionReplaced` | main.go:74-76 | `clip.mkv.avi` under `out` becomes `out/clip.mkv.mkv` |
| `PathExamples.DotInDirectoryIgnored` | main.go:74-76 | a dot in a directory is not an extension: a dotless file name gets the new extension appended |
| `Policy.MkvArgs` | main.go:94-113 | the MKV argument list: the preamble `-hide_banner -i inp -acodec`, the audio directive (`copy` iff mp3, else `mp3`), `-r 30` when fps > 30, then `-vcodec`, the video directive (`copy` iff h264 at fps <= 30, else `h264`) and the output last; 10 arguments with the rate limit, 8 without |
| `Policy.MkvJob` | main.go:93-117 | what `mkv` returns: it fails exactly when the probe summary fails, with that error; its properties on success are those of `MkvArgs` |
| `Policy.Mkv` | main.go:93-117 | on a probe failure, no command and the probe's error; otherwise no error and the command `ffmpeg` with `MkvArgs` of the probed summary and `oe(".mkv")` |
| `Policy.MkvArgsRoundTrip` | main.go:94-113 | reading the MKV arguments back gives the banner flag, `-i inp`, both directives, `-r 30` exactly when fps > 30, and the output path as the only output |
| `Policy.Mpg` | main.go:84-91 | takes no prober and cannot fail; the command is `ffmpeg` with ten arguments, starting `-hide_banner -i inp` and ending `-target ntsc-dvd` and the `.mpg` output path (full reading in `MpgRoundTrip`, `MpgIgnoresProbe`) |
| `Policy.MpgRoundTrip` | main.go:84-91 | reading the DVD arguments back gives `-i inp`, 1000k video, 128k audio, target ntsc-dvd and the `.mpg` output path as the only output |
| `PolicyProperties.MkvCopiesOnlyCompatible` | main.go:98-113 | audio is `copy` iff it is mp3, else `mp3`; video is `copy` iff h264 at fps <= 30, else `h264`; `-r 30` appears iff fps > 30, and then the video is not copied; the output comes last and alone |
| `PolicyProperties.MkvOutputPlaysOnTarget` | main.go:98-111 | whatever the source, the result is mp3 audio and h264 video at a truncated rate (`num / den`) of no more than 30 fps |
| `PolicyProperties.MkvVideoCopiedByRate` | main.go:104-108 | for a probe with a video stream whose rates are all defined and whose last video stream has `num >= 0` and `den > 0`: the summary succeeds, and the video is copied exactly when that stream is h264 with `num < 31 * den`, so a 30.5 fps (`61/2`) h264 source is copied unchanged (with `Probe.FpsOverCap`) |
| `PolicyProperties.MpgIgnoresProbe` | main.go:84-91 | the DVD options are exactly `-i`, `-b:v`, `-b:a`, `-target`, the target is ntsc-dvd and the `.mpg` path is the only output; no probe is involved |
| `PolicyProperties.MkvClipAt25Fps` | main.go:93-116 | `clip.avi` with aac audio and h264 video at 25 fps gives `-acodec mp3 -vcodec copy out/clip.mkv` |
| `PolicyProperties.MkvClipAt60Fps` | main.go:93-116 | the same clip at 60 fps gives `-acodec mp3 -r 30 -vcodec h264 out/clip.mkv` |
| `Batch.Job` | main.go:38-42 | the selected profile's build (`mpg` for `-v`, `mkv` for `-t`) fails exactly under the MKV profile when the probe fails, and its error is the probe's |
| `Batch.Commands` | main.go:58-69 | one entry per input, with entry `i` built from `fs[i]` and `output(fs[i], opath)`; an entry is nil exactly when its logged error is set, and only for a failed build |
| `Batch.Launch` | main.go:45-49 | the process crashes exactly when some entry is nil; otherwise every command is started |
| `Batch.Run` | main.go:24-50 | fatal error exactly for destination `""` or `"."`, with the source's message; under `-t`, a division panic during the build exactly when some input has a zero rate denominator, else a nil-command crash exactly when some input's probe fails; otherwise one job per input of the selected profile (`-t` wins), none with no profile flag |

## Left out

- Running ffprobe and ffmpeg (`exec.Command`, `Output`, `Run`, stdout and stderr wiring). The prober is the function parameter `prober`, and a command is a value that is never run.
- JSON decoding of ffprobe's output, and the large stream, disposition and tags structs of video_info.go. Only the codec name, codec type and frame rate are modelled.
- `fmt.Sscanf` of `r_frame_rate`. The rate arrives as two integers. A failed or partial scan leaves the denominator 0 (`"25"` gives `25/0`), which is the `ZeroRate` case.
- `Probe.ConvParOf`: a zero denominator makes Go's division at main.go:154 panic inside `commands`, before any ffmpeg command starts and without logging the input. The model returns the error value `ZeroRate` instead. `Batch.Commands` therefore lists that input's `ZeroRate` in `logged`, which Go never logs; `Batch.Run` turns it into the `RatePanic` outcome.
- `forall`, the concurrent fan-out helper, is not part of this model. Its uses are modelled as sequential loops over the indices. Nothing is claimed about concurrent interleaving.
- `Batch.Launch`: does not say which commands had started before the nil-pointer crash. Under concurrent start-up this is unordered.
- Reading standard input, flag parsing, `log.Print` and `log.Fatal`. Logged build errors are the `logged` output of `Batch.Commands`.
- `os.MkdirAll` and its possible failure. A failed MkdirAll is also fatal in the source.
- `Paths.Join`: models `path.Join` without its `Clean` step (collapsing repeated slashes, `.` and `..` elements, trailing slashes). It agrees with Go only when the destination and input are clean relative paths with no `..` element. For `../clip.avi` under `out` the model gives `out/../clip.mkv`, where Go gives `clip.mkv`, outside the destination.
- `Paths.Ext` works on characters where Go works on bytes. This makes no difference, because `.` and `/` never occur inside a multi-byte UTF-8 sequence.
- Go's 64-bit `int`. Rates and fps are unbounded integers, so the overflow of `MinInt64 / -1` is not modelled.
- The XVID and WEBM profiles are not part of this model: they do not appear in main.go or video_info.go.
- json_test.go only logs the result of a library call and asserts nothing.
