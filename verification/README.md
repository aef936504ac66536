# autocaption compositor, modelled in Dafny

A model of the caption-overlay compositor of autocaption. The Python server
takes a video, a list of caption segments (each a list of words with
`"MM:SS:mmm"` start and end strings) and a template name. It renders one PNG
per word, showing the whole segment with that word highlighted. It then
builds an ffmpeg `filter_complex` that scales and pads the video to 720x1280
or 1280x720 and overlays each image during its word's time window. Finally
it runs ffmpeg and tracks the job in an in-memory table that the HTTP API
reads.

Modules, in dependency order:

| module | file | what it models |
|---|---|---|
| `Wrappers` | wrappers.dfy | `Option`, `Result`, and the Python exceptions (`Raised`) |
| `Text` | text.dfy | decimal digits, `str.split` on one character, `rstrip` of one character, `s[-n:]` |
| `PyInt` | pyint.dfy | Python's `int()` on a string: surrounding whitespace, one sign, digit groups separated by `_` |
| `Templates` | templates.dfy | the `TEMPLATES` registry and the fallback to `"classic"` |
| `TimeCodec` | timecodec.dfy | `parse_time_to_seconds` |
| `Renderer` | renderer.dfy | `create_styled_text_image` as a draw plan: canvas size, background, then per word the glow, stroke and main glyph |
| `Schedule` | schedule.dfy | `create_caption_images_with_template`: the list of overlay entries (image path, start, end) |
| `FilterGraph` | filtergraph.dfy | the filter graph of `process_video` as a typed chain of overlay steps, its text, and the ffmpeg argument list |
| `Jobs` | jobs.dfy | the job-state writes of `process_video` |
| `Server` | server.dfy | `upload_video`, `get_status`, `download_video` and `get_templates` over the job table |

Some effects are parameters rather than code:
- **Text measurement.** PIL's `textbbox` width of `word + " "` is `measure: string -> nat`.
- **Float formatting.** Python's formatting of a float inside `enable='between(t,…)'` is `fmt: real -> string`.
- **Running ffmpeg.** This is `ffmpeg: seq<string> -> RunResult`, mapping the argument list to an exit code and stderr.
- **Job id.** The random UUID is an argument of `UploadVideo`.

Times are exact reals.

## Model

| member | source | states |
|---|---|---|
| Templates.Resolve | server/processor.py:70 | the style of a key is its registry entry when the key is present and the classic style otherwise |
| Templates.ResolveFallback | server/processor.py:70 | a registered key resolves to its own entry; any other key resolves to exactly what `"classic"` resolves to |
| Templates.LookupFindsEntry | server/processor.py:7-66 | in a registry with distinct keys, looking up the key of entry i finds entry i's style |
| Templates.RegistryKeysDistinct | server/processor.py:7-66 | the five template keys are pairwise distinct |
| Templates.RegistryWellFormed | server/processor.py:7-66 | every glowing template names a glow colour, every stroked template a stroke colour, and paddings and radii are non-negative |
| Text.JoinSplit | server/processor.py:184 | joining the colon fields back with `:` gives the original string |
| Text.SplitJoin | server/processor.py:184 | splitting a join of colon-free fields gives those fields back |
| Text.RStripChar | server/processor.py:232 | the result is a prefix without a trailing `;`, and everything removed was `;` |
| Text.RStripCharUnique | server/processor.py:232 | any prefix with those two properties is the rstrip result |
| Text.LastChars | server/processor.py:261 | `s[-n:]` is the suffix of `s` whose length is the smaller of `n` and `|s|` |
| Text.NatToStringRoundTrip | server/processor.py:94 | the decimal digits of n have value n |
| Text.NatToStringInjective | server/processor.py:94 | distinct indices get distinct decimal strings |
| PyInt.ParseIntRoundTrip | server/processor.py:186-188 | `int(str(n)) == n` for every integer, negative ones included |
| PyInt.ParseIntZeroPadded | server/processor.py:186-188 | a leading zero is accepted and ignored, as in `"01"` |
| PyInt.ParseIntBlank | server/processor.py:186-188 | an empty or all-whitespace field is rejected |
| PyInt.StripUnpadded | server/processor.py:186-188 | a field without surrounding whitespace is parsed as it stands |
| PyInt.ParseIntSeparatorNotIgnored | server/processor.py:186-188 | a field that starts with one of the ASCII separators U+001C..U+001F is rejected, although `str.isspace()` holds for them |
| PyInt.ParseIntSpaced | server/processor.py:186-188 | one whitespace character on either side of a digit run, ASCII or not, is ignored |
| PyInt.DigitGroupsOfNat | server/processor.py:186-188 | the decimal form of any natural number is a valid digit run for `int()` |
| TimeCodec.ParseTimeToSeconds | server/processor.py:182-190 | a string without exactly three colon fields gives 0.0; with three, success iff all three convert, the value is `m*60 + s + ms/1000`, and the first rejected field is the one reported |
| TimeCodec.DecodeFormatted | server/processor.py:182-190 | decoding `"m:s:ms"` built from any three integers gives back `m*60 + s + ms/1000` |
| TimeCodec.DecodeExample | server/processor.py:182-190 | `"01:02:500"` decodes to 62.5 |
| TimeCodec.DecodeFallbackExamples | server/processor.py:184-190 | `""`, `"bad"` and `"01:02"` decode to 0.0 |
| TimeCodec.DecodeRejectExample | server/processor.py:186 | `"xx:00:000"` raises on the field `"xx"` |
| TimeCodec.SeparatorFieldRejected | server/processor.py:186 | a timestamp whose minutes field starts with a U+001C..U+001F separator raises on that field instead of decoding |
| TimeCodec.SecondsMonotone | server/processor.py:189 | with seconds below 60 and milliseconds below 1000, the value strictly increases in the lexicographic order of the fields |
| TimeCodec.SecondsNotMonotoneUnbounded | server/processor.py:189 | without those bounds distinct field triples can share a value (`0:60:0` and `1:0:0`) |
| Renderer.Positions | server/processor.py:119-126 | word 0 starts at the padding, each next word starts where the previous one's measured width ends, and the last ends at padding plus the sum of widths |
| Renderer.PrefixSumStep | server/processor.py:122-126 | the running offset after word i adds exactly word i's measured width |
| Renderer.GlowLayers | server/processor.py:161-163 | for each glow offset o, a draw at (+o,+o) and then one at (-o,-o), all with the same text and colour |
| Renderer.Render | server/processor.py:118-130 | one plan per word; the height is `130 + padding // 2` and the width is twice the padding plus the measured widths |
| Renderer.RenderLayout | server/processor.py:118-175 | word positions chain from the padding, the canvas ends one padding after the last word, and each main glyph is drawn at (x, 45) in the highlight colour iff its index is the highlighted one |
| Renderer.LayoutIndependentOfHighlight | server/processor.py:118-175 | two renderings that differ only in the highlighted index have the same size, background, positions, glyph places and strokes, and agree on every word highlighted in neither |
| Renderer.HighlightAndGlow | server/processor.py:154-163 | only the highlighted word gets glow, and only when the style glows: six layers at ±6, ±4, ±2 in half-alpha glow colour, falling back to the highlight colour |
| Renderer.PlanWordGlow | server/processor.py:154-163 | the same fact for one word's plan |
| Renderer.NoHighlight | server/processor.py:154-158 | a highlight index outside the words (such as -1) draws every word in the text colour with no glow |
| Renderer.StrokeOffsetsExact | server/processor.py:169-171 | the stroke offsets are exactly the non-zero points of the square of radius w, `(2w+1)^2 - 1` of them, in row-major order |
| Renderer.StrokeGridMembers | server/processor.py:169-171 | the points of the stroke grid from column dx on are exactly the non-zero points of the square from that column |
| Renderer.StrokeGridLength | server/processor.py:169-171 | the stroke grid from column dx has one point per square cell from that column, less the origin |
| Renderer.StrokeGridSorted | server/processor.py:169-171 | the stroke grid is in strictly increasing lexicographic order |
| Renderer.StrokeOutline | server/processor.py:166-172 | with stroke width w > 0 every word gets `(2w+1)^2 - 1` stroke draws, one at each non-zero offset of the square, in the stroke colour (black by default); with w <= 0, none |
| Renderer.PlanWordStroke | server/processor.py:166-172 | the same fact for one word's plan |
| Renderer.StrokeLayersCover | server/processor.py:169-172 | offsets covering the square yield draws covering every outline position |
| Renderer.BackgroundPanel | server/processor.py:137-148 | a background is drawn iff its alpha is positive; it is rounded iff the radius is positive, covers the whole canvas and uses the background colour |
| Renderer.DefaultStyleIsClassic | server/processor.py:110-111 | rendering without a style is rendering with the classic template |
| Renderer.PlainWordCommands | server/processor.py:152-175 | words without glow or stroke contribute exactly their main glyphs, in order |
| Renderer.PlainStyleCommands | server/processor.py:137-175 | for a style without glow or stroke, the draw list is the optional background followed by one main glyph per word, in order |
| Schedule.CreateCaptionImages | server/processor.py:68-106 | the schedule has one entry per word over all segments; a missing or empty word list contributes none |
| Schedule.Locate | server/processor.py:83-91 | every schedule position belongs to exactly one (segment, word) pair, at that segment's offset plus the word index |
| Schedule.OffsetMonotone | server/processor.py:83-91 | a later segment never starts earlier in the schedule |
| Schedule.ScheduleEntry | server/processor.py:83-104 | word k of segment j sits at position offset(j)+k; its image is that segment with word k highlighted, named `seg_{j}_w_{k}`, and it carries that word's own start and end strings |
| Schedule.ScheduleCovers | server/processor.py:83-104 | every schedule entry is the entry of the (segment, word) pair its position locates |
| Schedule.ScheduleOrder | server/processor.py:83-91 | schedule order is segment-then-word order |
| Schedule.ImageNameInjective | server/processor.py:94 | `seg_{j}_w_{k}` determines j and k |
| Schedule.ImagePathInjective | server/processor.py:178 | within one directory the path determines the name |
| Schedule.SchedulePathsDistinct | server/processor.py:92-104 | no two schedule entries share an image path, skipped segments included |
| Schedule.SegmentImagesAligned | server/processor.py:88-97 | all images of one segment have the same size, background and word positions, so only the highlight moves |
| FilterGraph.FrameFor | server/processor.py:210-213 | the target frame is portrait iff the aspect string is exactly `"9:16"`, and it is 720x1280 or 1280x720 |
| FilterGraph.BaseFilterText | server/processor.py:210-213 | the scale-and-pad stage written from the frame's decimal width and height is the 720:1280 filter for `"9:16"` and the 1280:720 filter for any other aspect |
| FilterGraph.DecodeWindows | server/processor.py:222-224 | all windows decode iff every start and end string decodes; window i is the decoded pair of entry i; otherwise the error is the first failing entry's |
| FilterGraph.AssembleGraph | server/processor.py:209-232 | the graph exists iff every timestamp decodes, with its base stage scaled and padded to the frame of the aspect and one step per entry; otherwise it fails with the decoding error |
| FilterGraph.LabelTextInjective | server/processor.py:218-229 | distinct pad labels have distinct names |
| FilterGraph.ChainFromShape | server/processor.py:218-230 | step k reads input k+1, writes `v{k}` (`out` for the last), and reads the previous step's output |
| FilterGraph.ChainIsChained | server/processor.py:218-230 | a chain built from base is well wired: it starts from `base`, labels pass from step to step, only the last writes `out`, and no label is written twice |
| FilterGraph.GraphChained | server/processor.py:218-230 | the assembled graph is well wired in that sense |
| FilterGraph.StepWindows | server/processor.py:222-228 | step i is gated by the decoded start and end of entry i |
| FilterGraph.VisibleWindow | server/processor.py:228 | step i is active at t exactly when start_i <= t <= end_i; a reversed window is never active |
| FilterGraph.EmptyScheduleHasNoOut | server/processor.py:216-232 | with no entries the graph has no steps, so no stage writes `out` |
| FilterGraph.FilterComplex | server/processor.py:216-232 | the filter text is non-empty and has no trailing `;` |
| FilterGraph.FilterComplexIsBody | server/processor.py:216-232 | the rstripped text is the base stage and the steps joined by `;` |
| FilterGraph.FilterEndsWithOut | server/processor.py:226-232 | for a well-wired, non-empty chain the filter text ends with `[out]` |
| FilterGraph.EmptyScheduleFilter | server/processor.py:216-232 | with no entries the filter text is `[0:v]{base_filter}[base]` |
| FilterGraph.ImageInputs | server/processor.py:240-241 | each image path is preceded by its own `-i` |
| FilterGraph.FfmpegInputs | server/processor.py:238-253 | the command starts `ffmpeg -i video`, then `-i path_i` for each image in schedule order, then the filter and the two maps, and ends with the output path |
| Jobs.StatusNameInjective | server/processor.py:195-272 | the status strings name the statuses one-to-one |
| Jobs.ApplyAllAppend | server/processor.py:194-273 | applying two runs of assignments is applying their concatenation |
| Jobs.LastWriteWins | server/processor.py:194-273 | after a run of assignments each key holds the last value assigned to it, or its old value |
| Jobs.TrailsAppend | server/processor.py:194-273 | the progress and status trails of concatenated runs are the concatenated trails |
| Jobs.StartedEffect | server/processor.py:195-207 | before the command is built the job is `processing` at progress 50 with its error untouched |
| Jobs.JobWritesTrails | server/processor.py:194-273 | progress goes 10, 30, 50 on a decoding failure, then 70 on an ffmpeg failure, and then 100 on success; the status goes `processing` then `failed` or `completed` |
| Jobs.ProgressMonotone | server/processor.py:194-273 | progress strictly increases through a prefix of 10, 30, 50, 70, 100 of length at least 3; the status moves from `processing` to exactly one final status |
| Jobs.JobOutcome | server/processor.py:194-273 | the job ends `completed` at 100 iff the command was built and ffmpeg exited 0; otherwise it ends `failed` with `str(e)`, at progress 50 for a timestamp error and 70 for an ffmpeg error |
| Jobs.ProcessVideo | server/processor.py:192-273 | running a job changes only that job's entry |
| Jobs.ProcessVideoOutcome | server/processor.py:192-273 | the table entry after `process_video` is `completed` at 100 iff the command was built and ffmpeg exited 0; a timestamp error leaves it `failed` at 50 with that error's message, and an ffmpeg error leaves it `failed` at 70 with `"FFmpeg failed: "` and the tail of stderr |
| Jobs.FfmpegFailureText | server/processor.py:259-261 | the ffmpeg error is `"FFmpeg failed: "` followed by a suffix of stderr of length at most 500, all of stderr when it is shorter |
| Jobs.BadTimestampFailsJob | server/processor.py:222-224 | if entry i is the first with an undecodable time, building the command fails with that entry's error, so ffmpeg is never run |
| Jobs.NoWordsCommand | server/processor.py:216-246 | with no words the filter is only `[0:v]{base_filter}[base]`, yet the command still maps `[out]` |
| Server.UploadVideo | server/main.py:30-65 | the table gains the id as `queued` at 0 and every other entry is unchanged; the reply carries the id and the stored status; the scheduled background job gets the captions, the aspect, the saved upload `uploads/{id}.mp4` as input, `outputs/{id}.mp4` (the file `/download` serves) as output, and the template (`"classic"` when omitted) |
| Server.GetStatus | server/main.py:78-83 | an unknown id gives "Job not found"; otherwise the stored record |
| Server.DownloadVideo | server/main.py:85-99 | the file `outputs/{id}.mp4` is served iff the job exists and is completed; an unknown id gives "Job not found" and any other status "Video not ready" |
| Server.GetTemplates | server/main.py:67-76 | one `(id, name)` per registry entry, in registry order |
| Server.TemplatesListed | server/main.py:71-76 | the listed ids are distinct, and each resolves to the style whose name is listed beside it |
| Server.FreshUpload | server/main.py:51 | a freshly uploaded job reports `queued` at 0 and is not yet downloadable |
| Server.UploadProcessDownload | server/main.py:51-99 | after upload and processing, the download serves the output path ffmpeg was given iff ffmpeg ran and succeeded, and otherwise reports "Video not ready"; the status reads `completed` or `failed` |
| Server.OtherJobsUnaffected | server/main.py:78-99 | processing one job changes neither the status nor the download result of any other job |

## Left out

- Pixel work: font loading and its fallback chain (server/processor.py:74-80), rasterisation, rounded-corner geometry and PNG encoding are not modelled. The image is its draw plan, and text width is the `measure` parameter.
- The `text.split()` branch of `create_styled_text_image` is not modelled, because its only caller always passes `words_list`.
- Running ffmpeg is the `ffmpeg` parameter. The meaning of the codec flags, of `-map 0:a?`, and whether ffmpeg accepts a `[out]` map that no filter defines are outside the model.
- Filesystem effects are not modelled: saving the upload, creating `temp/<id>`, writing the images, and deleting them and the uploaded video after success.
- Jobs.JobOutcome: assumes the cleanup at server/processor.py:264-266 does not raise. In the source a failing `rmtree` or `os.remove` fails the job at progress 70 even though ffmpeg succeeded.
- Jobs.JobWrites: exceptions raised while building images are not modelled. These include a `KeyError` from a word without `word`, `start` or `end`, and I/O errors while writing the images. In the model such jobs never fail at progress 30. Likewise a failing `temp_dir.mkdir` at server/processor.py:200 would fail the job at progress 10; the model assumes it succeeds. A missing font is not among them: server/processor.py:74-80 falls back to PIL's default font.
- Jobs.JobWrites: the `ffmpeg` parameter always returns. In the source `subprocess.run` at server/processor.py:257 can itself raise, for example when there is no ffmpeg executable or when stderr cannot be decoded as text. The job then fails at progress 70 with that exception's message instead of `"FFmpeg failed: …"`.
- Schedule.Word: the `word`, `start` and `end` keys are always present and are strings, as parsed captions JSON is assumed to provide. Malformed JSON and non-list captions are not modelled.
- TimeCodec.InvalidLiteral: Python builds the message with `repr(field)`. The model uses plain single quotes around the raw field, so quotes, backslashes, control characters (such as `\x1c` or `\t`) and other non-printable characters (such as `\xa0` or `\u2028`) appear unescaped where `repr` would write an escape sequence.
- TimeCodec.SeparatorFieldRejected: the stated error text contains the separator character itself. Python's message writes it as the four characters `\x1c` (or `\x1d`, `\x1e`, `\x1f`), as described under `TimeCodec.InvalidLiteral`.
- TimeCodec.InvalidLiteral: Python formats the field with `%.200R`, so the message shows at most 200 characters of the field's repr. The model puts in the whole field.
- PyInt.ParseInt: accepts ASCII digits only. Python's `int()` also accepts other Unicode decimal digits.
- PyInt.ParseInt: has no length limit. Python's `int()` raises a different `ValueError` ("Exceeds the limit (4300 digits) …") for a digit string longer than 4300 digits, so such a field fails the job where the model decodes it.
- TimeCodec.ParseTimeToSeconds: decodes fields on which Python raises, namely the overflowing fields under `TimeCodec.Seconds` and the over-long digit runs under `PyInt.ParseInt`. It also rejects fields that use the non-ASCII decimal digits listed under `PyInt.ParseInt` (such as `"٠١"`), which Python decodes.
- TimeCodec.Seconds: exact real arithmetic, with no overflow. When a field is too large for a double (about 309 digits or more), `milliseconds / 1000.0` or the int-plus-float addition raises `OverflowError` and the job fails at progress 50, where the model returns a value.
- TimeCodec.Seconds: Python's float rounding in `minutes * 60 + seconds + milliseconds / 1000.0` and the float formatting in the filter text (the `fmt` parameter) are not modelled.
- Server.UploadVideo: the job id is a parameter. A UUID collision, which would overwrite an existing entry, is allowed by the model but not assumed away.
- Server.GetStatus: the handlers return `(body, status_code)` tuples. Only the error message and the intended code are modelled, not how the web framework serialises the tuple.
- Concurrency is not modelled. Background tasks share one dict, and the model applies one job's writes atomically.
- `print` and traceback logging are not modelled.
- Path normalisation by `pathlib.Path` is not modelled. Paths are plain concatenations `dir + "/" + name`.
- Two behaviours of the code are modelled as they are, not smoothed over:
  - Only a string without exactly three colon fields decodes to 0.0. Three fields that are not all integers make `int()` raise, and the job fails at progress 50.
  - With zero overlays the filter is the base stage alone, labelled `base`, while the command still maps `[out]`. `Jobs.NoWordsCommand` states this; the model does not treat the empty schedule as a pass-through.
