# FX-UI frame extractor — a Dafny model

FX-UI is a desktop tool that samples still frames out of video files. Its
background worker, `VideoFrameExtractorThread.run`, walks a list of videos.
For each video it does the following:

- opens the video and checks the frame rate;
- derives a stride of `int(fps * interval)` decoded frames;
- writes every frame whose decoded-frame counter is a multiple of the
  stride, as `<video name>_frame_<counter, 4 digits>.jpg`;
- emits `new_frame_extracted(path)` and then `progress(frame_count)` after
  each write.

Failures are reported through `error(message)`, and the worker then moves on
to the next video. A single `finished` closes the run.

Around the worker, the main window does three more things:

- it toggles the worker's pause flag;
- it adds one gallery item per extracted frame, with the file name cut to 20
  characters as its caption;
- it deletes the selected frames, from disk and from the gallery.

The model turns the worker into a pure function. Its input is a batch of
abstract sources. Each source records whether it opens, whether its frame
rate is positive, its integer stride and its number of decodable frames. The
output is the trace of emitted signals (`Extractor.Run`). Modules:

- `Paths`: POSIX `os.path.basename`, the root of `os.path.splitext`, and
  `os.path.join` for two components.
- `Counter`: Python's `str(n)` and the `{:04d}` padding of the extraction
  counter, with their read-back.
- `Arith`: ceiling division and small division facts.
- `Extractor`: sources, signals, the decode loop (`Scan`), one source
  (`ProcessSource`), the batch, the reference traces (`Expected`, `Writes`)
  and the lemmas relating them.
- `Worker`: the decode loop one pass at a time. A schedule of `is_paused`
  values says which passes are paused.
- `Controls`: `toggle_pause`.
- `Gallery`: `add_gallery_item`'s caption and `delete_selected_images`.
- `ExtractorExamples`: worked instances, such as a 300-frame, 30 fps video
  sampled once a second.

Python's `%` takes the sign of the divisor. It is modelled by
`Extractor.PyMod`. A negative stride therefore samples the same frames as
its absolute value. A stride of 0 makes `frame_count % 0` raise
`ZeroDivisionError` at the first decoded frame. The outer handler turns that
into one error. The text of that exception comes from the Python runtime, so
it is the parameter `zeroDivText`.

## Model

| member | source | states |
|---|---|---|
| Paths.LastIndexOf | FX-UI_v0.2.py:146 | the index of the last occurrence of a character, -1 when absent; no later position holds it |
| Paths.BasenameSpec | FX-UI_v0.2.py:146 | the base name has no '/', is a suffix of the path, and is preceded by '/' when shorter than the path |
| Paths.StemSpec | FX-UI_v0.2.py:146 | the root of `splitext` is a prefix of the path, cut exactly at the extension (the last '.' after the last '/', not at the start of the name), and the whole path when there is none |
| Paths.ExtensionAtLastDot | FX-UI_v0.2.py:146 | the only place an extension can start is the last '.' |
| Paths.StemOfExtension | FX-UI_v0.2.py:146 | the root of a separator-free `<name>.<ext>` with a dot-free extension is `<name>`, unless the name is all dots |
| Paths.StemWithout | FX-UI_v0.2.py:146 | cutting off the extension introduces no character that the path lacks |
| Paths.LastIndexOfAppend | FX-UI_v0.2.py:146 | appending text free of a character does not move its last occurrence |
| Paths.JoinSpec | FX-UI_v0.2.py:164 | `join(a, b)`: an absolute `b` replaces `a`; otherwise the result starts with `a` and ends with `b`, and a '/' is put between them exactly when `a` is non-empty and does not already end in '/' |
| Paths.BasenameOfJoin | FX-UI_v0.2.py:184-187 | the base name of a folder joined with a plain file name is that file name |
| Counter.Decimal | FX-UI_v0.2.py:186 | `str(n)` is non-empty and all digits, has no leading zero, and is one digit exactly for n < 10 |
| Counter.Pad4Spec | FX-UI_v0.2.py:186 | the padded counter is all digits, ends with `str(n)`, is zero-filled on the left, and is 4 long or `str(n)` when longer |
| Counter.ParseDecimal | FX-UI_v0.2.py:186 | reading `str(n)` back as decimal gives n |
| Counter.ParseLeadingZeros | FX-UI_v0.2.py:186 | leading zeros do not change the value read |
| Counter.Pad4RoundTrip | FX-UI_v0.2.py:186 | the padded counter reads back as the counter |
| Counter.Pad4Injective | FX-UI_v0.2.py:186 | different counters give different padded texts |
| Counter.Pad4Width | FX-UI_v0.2.py:186 | the padded counter is exactly 4 characters if and only if the counter is below 10000 |
| Counter.DecimalLength | FX-UI_v0.2.py:186 | the digit count of `str(n)` against the powers of ten up to 10000, both directions |
| Arith.CeilDivLeast | FX-UI_v0.2.py:179 | ceil(n/d) is the least j with j*d >= n, both directions |
| Extractor.PyMod | FX-UI_v0.2.py:179 | Python's `%`: `a == (a // b) * b + r`, with r in [0, b) for b > 0 and in (b, 0] for b < 0 |
| Extractor.SampledIffMultiple | FX-UI_v0.2.py:179 | a frame is written exactly when its counter is a multiple of the absolute stride, whatever the stride's sign |
| Extractor.ScanSkips | FX-UI_v0.2.py:179-193 | frames the test rejects only advance the decoded-frame counter |
| Extractor.ScanPeriod | FX-UI_v0.2.py:170-193 | one stride's worth of frames emits one write and one progress report, then continues at the next multiple |
| Extractor.ScanFromMultiple | FX-UI_v0.2.py:170-193 | from the j-th multiple of the stride, the loop emits writes j up to ceil(n/\|s\|)-1, each followed by its progress report |
| Extractor.WritesIndexed | FX-UI_v0.2.py:188-191 | the recursive description of the writes equals the indexed one: write, progress, write, progress, ... |
| Extractor.SamplingTrace | FX-UI_v0.2.py:158-193 | an opened source with positive fps and non-zero stride emits exactly `Expected`: ceil(n/\|s\|) writes in counter order, each followed by its progress report |
| Extractor.WritesKinds | FX-UI_v0.2.py:188-191 | the writes split into artifact signals and progress signals; they hold no error and no finish |
| Extractor.SamplingCount | FX-UI_v0.2.py:158-193 | exactly ceil(n/\|s\|) artifacts with consecutive counters 0, 1, ..., and the j-th progress value is j*\|s\| |
| Extractor.ProgressBounds | FX-UI_v0.2.py:188-193 | the progress values of a source are below n, multiples of the stride, and strictly increasing |
| Extractor.FailureOutcome | FX-UI_v0.2.py:148-156 | a source that does not open, has fps <= 0, or has stride 0 with a frame to decode yields exactly one error, and that error names its path |
| Extractor.SourceOutcome | FX-UI_v0.2.py:145-199 | per source: one error when it fails, none otherwise; ceil(n/\|s\|) artifacts and as many progress reports when sampled, none otherwise; never a finish; a zero stride over a video with no frames gives no signal at all |
| Extractor.OnlyAppend | FX-UI_v0.2.py:144-199 | counting signals of one kind distributes over concatenated traces |
| Extractor.BatchAppend | FX-UI_v0.2.py:144-199 | sources are processed independently: the batch's trace is the concatenation of the parts' traces |
| Extractor.FailingSourceSkipped | FX-UI_v0.2.py:148-156 | a source that does not open or has fps <= 0 contributes only its error; the sources around it are processed as if it were absent |
| Extractor.BatchCounts | FX-UI_v0.2.py:144-199 | the batch's errors number the failing sources and its artifacts the sum of the yields |
| Extractor.RunOutcome | FX-UI_v0.2.py:144-201 | the run has one error per failing source, the sum of the yields as artifacts, and exactly one finish, as its last signal |
| Extractor.VideoNameNoSlash | FX-UI_v0.2.py:146 | the video name never contains a separator |
| Extractor.VideoNameOfFile | FX-UI_v0.2.py:146 | a bare file name `<root>.<ext>` names the video `<root>` |
| Extractor.FrameFileNameStem | FX-UI_v0.2.py:186 | the `splitext` root of a frame file name is `<name>_frame_<counter>`: only ".jpg" is cut |
| Extractor.FrameFileNameCounter | FX-UI_v0.2.py:186 | the characters between "_frame_" and ".jpg" are the padded counter and read back as the counter |
| Extractor.FrameFileNameNoSlash | FX-UI_v0.2.py:186 | the frame file name of a separator-free video name contains no separator |
| Extractor.ArtifactNaming | FX-UI_v0.2.py:184-187 | the artifact's base name is `<video name>_frame_<counter>.jpg`, its `splitext` root drops just ".jpg", and its digits read back as the counter, four of them exactly when the counter is below 10000 |
| Extractor.ArtifactPathsDistinct | FX-UI_v0.2.py:184-189 | within one source, different counters give different paths, so no write overwrites another |
| Extractor.ArtifactLocation | FX-UI_v0.2.py:163-168 | every artifact lies under the output folder and is named `<video name>_frame_<counter>.jpg`; with separate folders it is exactly `<output>/<video name>/<that name>`, otherwise `<output>/<that name>` |
| Worker.Unpaused | FX-UI_v0.2.py:171-173 | removing the paused passes keeps exactly the unpaused ones: as many passes as the schedule has unpaused entries, none of an all-paused schedule |
| Worker.UnpausedIsFalse | FX-UI_v0.2.py:171-173 | the schedule with paused passes removed holds no paused pass |
| Worker.UnpausedAfterPause | FX-UI_v0.2.py:171-173 | a leading run of paused passes disappears from the unpaused schedule |
| Worker.PauseInvisible | FX-UI_v0.2.py:171-173 | paused passes consume no frame, emit nothing and change no counter: a schedule behaves as its unpaused passes |
| Worker.PauseThenResume | FX-UI_v0.2.py:171-173 | pausing for any number of passes and then resuming continues exactly where the loop stood |
| Worker.IterateStep | FX-UI_v0.2.py:170-193 | one pass of the loop: it never raises for a non-zero stride, waits exactly when paused, ends exactly when unpaused with no frame left, otherwise consumes exactly one frame, and what it emits followed by the rest of the loop is the loop from before the pass |
| Worker.DriveResumes | FX-UI_v0.2.py:170-193 | under any schedule, the signals so far followed by the rest of the loop are the unpaused trace; a non-zero stride never raises |
| Worker.DriveCompletes | FX-UI_v0.2.py:170-195 | with more unpaused passes than frames left, the loop ends with exactly the unpaused trace |
| Worker.SourceUnderSchedule | FX-UI_v0.2.py:170-199 | pausing does not change what an opened source reports, including the zero-stride error |
| Controls.TogglePause | FX-UI_v0.2.py:452-455 | with a worker, the pause flag flips and the caption names the next action; without one, nothing changes |
| Controls.ToggleTwice | FX-UI_v0.2.py:452-454 | two toggles restore the pause flag, and the whole window when the caption agreed with the flag |
| Gallery.Label | FX-UI_v0.2.py:478-480 | a caption has at most 20 characters; a short name is kept; a long one becomes its first 17 characters and "..." |
| Gallery.LabelFixedPoints | FX-UI_v0.2.py:479-480 | truncation is idempotent, and leaves a name unchanged exactly when it has at most 20 characters |
| Gallery.AddItem | FX-UI_v0.2.py:470-488 | the gallery grows by one item at the end, which stands for the path and is captioned with the truncated base name of that path, which has no separator |
| Gallery.LabelNoSlash | FX-UI_v0.2.py:478-480 | truncating a name never introduces a separator |
| Gallery.CollectAppends | FX-UI_v0.2.py:578 | delivering a trace appends exactly its artifact paths, in order, one item per written frame |
| Gallery.GalleryAfterRun | FX-UI_v0.2.py:567-578 | after a run, the cleared gallery holds one item per written frame |
| Gallery.Sweep | FX-UI_v0.2.py:655-663 | only selected items whose file exists and can be removed are taken out, and their files are gone from disk |
| Gallery.SweepEffects | FX-UI_v0.2.py:655-663 | the files left on disk are the old ones minus exactly those of the items taken out; the warnings are exactly about the selected files that exist but fail to delete: each warning is about one, and each one is warned about |
| Gallery.SweepWarnsAll | FX-UI_v0.2.py:657-663 | every selected file that exists but whose removal fails gets its warning, also when several items share the file |
| Gallery.DeletableStep | FX-UI_v0.2.py:655-661 | with one item per file, the deletable selection is its first item when that item's file exists and can be removed, plus the deletable rest judged after that file is gone |
| Gallery.SweepExact | FX-UI_v0.2.py:655-661 | with one item per file, the items taken out are exactly the selected ones whose file exists and can be removed |
| Gallery.KeepMembers | FX-UI_v0.2.py:661 | the remaining gallery keeps every item at a position not taken out, and nothing from outside |
| Gallery.KeepPositions | FX-UI_v0.2.py:661 | each remaining item moves up by the number of items taken out before it, and the gallery is as long as the number of positions kept |
| Gallery.RankGrows | FX-UI_v0.2.py:661 | an item that stays comes before every later item in the new gallery |
| Gallery.KeepOrder | FX-UI_v0.2.py:661 | two items that both stay keep their relative order |
| Gallery.KeepLength | FX-UI_v0.2.py:661 | the gallery shrinks by exactly the number of positions taken out |
| Gallery.KeepAll | FX-UI_v0.2.py:661 | taking out no position leaves the gallery unchanged |
| Gallery.DeleteFilter | FX-UI_v0.2.py:647-663 | unselected items and selected items whose file is missing stay; disk and gallery lose the same items; with one item per file exactly the deletable selection goes |
| ExtractorExamples.ClipName | FX-UI_v0.2.py:146 | "clip.mp4" gives the video name "clip" |
| ExtractorExamples.CounterZero | FX-UI_v0.2.py:186 | counter 0 is written "0000" |
| ExtractorExamples.CounterNine | FX-UI_v0.2.py:186 | counter 9 is written "0009" |
| ExtractorExamples.FrameNames | FX-UI_v0.2.py:186 | the first and tenth frames of "clip" are "clip_frame_0000.jpg" and "clip_frame_0009.jpg" |
| ExtractorExamples.ClipSampler | FX-UI_v0.2.py:146-168 | a source at "clip.mp4" is sampled under the job's folder for "clip" |
| ExtractorExamples.JoinExamples | FX-UI_v0.2.py:164 | joins of "/out" with a sub-folder and with frame file names |
| ExtractorExamples.GroupingExample | FX-UI_v0.2.py:163-168 | the first frame of "clip.mp4" lands at "/out/clip/clip_frame_0000.jpg" with separate folders and at "/out/clip_frame_0000.jpg" without |
| ExtractorExamples.ThirtyFpsExample | FX-UI_v0.2.py:158-193 | 300 frames at stride 30 give 10 artifacts, "clip_frame_0000.jpg" to "clip_frame_0009.jpg", and the last progress report is frame 270 |

## Left out

- The Qt window, its widgets, dialogs, stylesheet, help page and thumbnails
  are not modelled. A gallery item is only its caption and its path.
- OpenCV is replaced by the abstract `Source` record, whose fields are
  whether the video opens, the sign of its frame rate, the stride and the
  number of decodable frames. `cv2.imwrite` becomes the `Artifact` signal;
  the pixels are not modelled.
- The stride `int(fps * interval)` is an integer input. Floating-point fps
  and interval values are not modelled.
- Threads, `msleep` and the delivery of Qt signals are not modelled. The
  flag the window sets is read by the worker as a schedule of `is_paused`
  values, one per loop pass.
- Worker.SourceUnderSchedule: only schedules with more unpaused passes
  than the source has frames are related to the uninterrupted trace.
  Shorter schedules are covered by `Worker.DriveResumes`, whose trace is a
  prefix of the uninterrupted one.
- Folder creation (`os.path.exists` / `os.makedirs`) is not modelled. A
  failing `makedirs` would end in the outer handler, like any other error.
  The output folder is a path value only.
- Paths follow POSIX `posixpath` rules. Windows drive letters and
  backslashes (`ntpath`) are not modelled.
- Strings are sequences of characters. Python's `len` counts code points,
  and the caption truncation is modelled at that level.
- The `use_gpu` placeholder, the unused `total_frames` and the unused
  `deleted_count` have no behaviour, so they are not modelled.
- `process_videos` is dead code: it refers to an attribute the window does
  not have. The settings file (`configparser`) is file I/O. Neither is
  modelled.
- The text of exceptions raised by OpenCV or the file system cannot be
  seen. The zero-divide text is the parameter `zeroDivText`, and the delete
  errors' texts are the values of the `failing` map. Exceptions other than
  the zero divide are not generated by the model.
- The outer `except` of `delete_selected_images` only guards Qt calls, so
  it is not modelled. The early return on an empty selection is the empty
  `Sweep`.
- Controls.ToggleTwice: the window's initial caption is "暂停 (Pause)".
  That caption does not agree with the flag, so the whole window is
  restored by two toggles only once the first toggle has relabelled the
  button.
- Gallery.SweepExact: when two selected items stand for the same file, the
  second finds the file gone and stays in the gallery. The exact
  characterisation is stated only for selections with one item per file;
  `Gallery.Sweep` and `Gallery.SweepEffects` cover every selection.
