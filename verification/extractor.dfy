/** The frame-sampling worker, `VideoFrameExtractorThread.run`, as a pure
    function from a batch of abstract video sources to the trace of signals
    the worker emits. The decoder is abstracted to what the loop observes of
    each source: whether it opens, whether its frame rate is positive, the
    stride `int(fps * interval)` and how many frames decode before the end of
    the stream. */
module Extractor {

  import opened Paths
  import opened Counter
  import opened Arith

  /** One input video as the decoder reports it. */
  datatype Source = Source(path: string, opens: bool, fpsPositive: bool, stride: int, frames: nat)

  /** The worker's settings that shape its output. */
  datatype Job = Job(outputFolder: string, separateFolders: bool)

  /** The worker's signals: `new_frame_extracted`, `progress`, `error`, `finished`. */
  datatype Event = Artifact(path: string) | Progress(frameCount: nat) | Error(message: string) | Finished

  datatype Kind = Written | Reported | Failed | Done

  function KindOf(e: Event): Kind {
    match e
    case Artifact(_) => Written
    case Progress(_) => Reported
    case Error(_) => Failed
    case Finished => Done
  }

  /** How one opened source is sampled: the path its `e`-th written frame
      goes to, and the stride. */
  datatype Sampler = Sampler(pathOf: nat -> string, stride: int)

  function Abs(x: int): nat {
    if x < 0 then -x else x
  }

  // ---------------------------------------------------------------- naming

  /** `os.path.splitext(os.path.basename(path))[0]`. */
  function VideoName(path: string): string {
    Stem(Basename(path))
  }

  /** `f"{video_name}_frame_{extracted_count:04d}.jpg"`. */
  function FrameFileName(name: string, extracted: nat): string {
    name + "_frame_" + Pad4(extracted) + ".jpg"
  }

  /** The folder a source's frames go to: a sub-folder named after the video
      when separate folders are requested, else the output folder itself. */
  function OutputFolder(job: Job, name: string): string {
    if job.separateFolders then Join(job.outputFolder, name) else job.outputFolder
  }

  /** `os.path.join(video_output_folder, <frame file name>)`. */
  function FramePath(folder: string, name: string, extracted: nat): string {
    Join(folder, FrameFileName(name, extracted))
  }

  function ArtifactPath(sp: Sampler, extracted: nat): string {
    sp.pathOf(extracted)
  }

  function SamplerFor(job: Job, src: Source): Sampler {
    var name := VideoName(src.path);
    var folder := OutputFolder(job, name);
    Sampler((e: nat) => FramePath(folder, name, e), src.stride)
  }

  function OpenFailedMessage(path: string): string {
    "Could not open video: " + path
  }

  function InvalidFpsMessage(path: string): string {
    "Invalid FPS for video: " + path
  }

  /** The message of the catch-all handler; `reason` is `str(e)`. */
  function ProcessingErrorMessage(path: string, reason: string): string {
    "Error processing video " + path + ": " + reason
  }

  // -------------------------------------------------------------- sampling

  /** Python's `a // b`. */
  function PyDiv(a: int, b: int): int
    requires b != 0
  {
    if b < 0 && a % b != 0 then a / b - 1 else a / b
  }

  /** Python's `a % b`: the remainder takes the sign of the divisor. */
  function PyMod(a: int, b: int): (r: int)
    requires b != 0
    ensures a == PyDiv(a, b) * b + r
    ensures b > 0 ==> 0 <= r < b
    ensures b < 0 ==> b < r <= 0
  {
    assert a == (a / b) * b + a % b;
    if b < 0 && a % b != 0 then a % b + b else a % b
  }

  /** The sampling test `frame_count % interval_frames == 0`. */
  predicate Sampled(k: nat, stride: int)
    requires stride != 0
  {
    PyMod(k, stride) == 0
  }

  /** A frame is sampled exactly when its counter is a multiple of the stride's
      magnitude. */
  lemma SampledIffMultiple(k: nat, stride: int)
    requires stride != 0
    ensures Sampled(k, stride) <==> k % Abs(stride) == 0
  {
    if stride < 0 {
      var q, r := k / stride, k % stride;
      assert k == (-q) * (-stride) + r;
      DivModUnique(k, -stride, -q, r);
    }
  }

  /** The decode loop of one opened source, from decoded-frame counter `k`
      and extracted counter `e`, in a stream of `n` frames. */
  function Scan(sp: Sampler, k: nat, e: nat, n: nat): seq<Event>
    requires sp.stride != 0
    decreases n - k
  {
    if k >= n then []
    else if Sampled(k, sp.stride) then
      [Artifact(ArtifactPath(sp, e)), Progress(k)] + Scan(sp, k + 1, e + 1, n)
    else Scan(sp, k + 1, e, n)
  }

  /** What one iteration of the outer loop emits for one source. */
  function ProcessSource(job: Job, src: Source, zeroDivText: string): seq<Event> {
    if !src.opens then [Error(OpenFailedMessage(src.path))]
    else if !src.fpsPositive then [Error(InvalidFpsMessage(src.path))]
    else if src.stride == 0 then
      // `frame_count % 0` raises ZeroDivisionError at the first decoded frame
      if src.frames == 0 then [] else [Error(ProcessingErrorMessage(src.path, zeroDivText))]
    else Scan(SamplerFor(job, src), 0, 0, src.frames)
  }

  function Batch(job: Job, srcs: seq<Source>, zeroDivText: string): seq<Event>
    decreases |srcs|
  {
    if |srcs| == 0 then []
    else ProcessSource(job, srcs[0], zeroDivText) + Batch(job, srcs[1..], zeroDivText)
  }

  /** `run`: every source in order, then the single `finished` signal.
      `zeroDivText` is the interpreter's text for an integer modulo by zero. */
  function Run(job: Job, srcs: seq<Source>, zeroDivText: string): seq<Event> {
    Batch(job, srcs, zeroDivText) + [Finished]
  }

  // ------------------------------------------------ reference descriptions

  /** The `i`-th signal of an opened source's trace: writes and progress
      reports alternate, the `j`-th write is counter `j` and is reported at
      decoded frame `j * |stride|`. */
  function ExpectedAt(sp: Sampler, i: nat): Event {
    if i % 2 == 0 then Artifact(ArtifactPath(sp, i / 2))
    else Progress((i / 2) * Abs(sp.stride))
  }

  /** The trace of an opened source that yields `c` frames. */
  function Expected(sp: Sampler, c: nat): seq<Event> {
    seq(2 * c, i requires 0 <= i => ExpectedAt(sp, i))
  }

  /** A source the worker reports as an error. */
  predicate Fails(src: Source) {
    !src.opens || !src.fpsPositive || (src.stride == 0 && src.frames > 0)
  }

  /** The number of frames a source yields: ceil(n / |stride|) when it is
      sampled at all. */
  function Yield(src: Source): nat {
    if Fails(src) || src.stride == 0 then 0 else CeilDiv(src.frames, Abs(src.stride))
  }

  function FailureCount(srcs: seq<Source>): nat
    decreases |srcs|
  {
    if |srcs| == 0 then 0 else (if Fails(srcs[0]) then 1 else 0) + FailureCount(srcs[1..])
  }

  function TotalYield(srcs: seq<Source>): nat
    decreases |srcs|
  {
    if |srcs| == 0 then 0 else Yield(srcs[0]) + TotalYield(srcs[1..])
  }

  /** The events of one kind, in trace order. */
  function Only(t: seq<Event>, k: Kind): seq<Event>
    decreases |t|
  {
    if |t| == 0 then []
    else (if KindOf(t[0]) == k then [t[0]] else []) + Only(t[1..], k)
  }

  predicate Mentions(msg: string, s: string) {
    exists i :: 0 <= i <= |msg| && IsPrefix(s, msg[i..])
  }

  // ----------------------------------------------------------------- lemmas

  lemma {:induction false} OnlyAppend(a: seq<Event>, b: seq<Event>, k: Kind)
    ensures Only(a + b, k) == Only(a, k) + Only(b, k)
    decreases |a|
  {
    if |a| == 0 {
      assert a + b == b;
    } else {
      assert (a + b)[1..] == a[1..] + b;
      OnlyAppend(a[1..], b, k);
    }
  }

  /** Frames strictly between two multiples of the stride are not sampled, so
      the loop skips them without emitting anything. */
  lemma {:induction false} ScanSkips(sp: Sampler, a: nat, b: nat, e: nat, n: nat)
    requires sp.stride != 0
    requires a <= b
    requires forall k: nat :: a <= k < b ==> !Sampled(k, sp.stride)
    ensures Scan(sp, a, e, n) == Scan(sp, b, e, n)
    decreases b - a
  {
    if a < b && a < n {
      ScanSkips(sp, a + 1, b, e, n);
    }
  }

  lemma NotSampledBetween(stride: int, j: nat, k: nat)
    requires stride != 0
    requires j * Abs(stride) < k < (j + 1) * Abs(stride)
    ensures !Sampled(k, stride)
  {
    var d := Abs(stride);
    SampledIffMultiple(k, stride);
    DivModUnique(k, d, j, k - j * d);
  }

  /** One period of the loop: the frame at the `j`-th multiple of the stride
      is written as counter `j`, the frames up to the next multiple are not. */
  lemma ScanPeriod(sp: Sampler, j: nat, n: nat)
    requires sp.stride != 0
    requires j * Abs(sp.stride) < n
    ensures Scan(sp, j * Abs(sp.stride), j, n)
         == [Artifact(ArtifactPath(sp, j)), Progress(j * Abs(sp.stride))]
            + Scan(sp, (j + 1) * Abs(sp.stride), j + 1, n)
  {
    var d := Abs(sp.stride);
    var m := j * d;
    SampledIffMultiple(m, sp.stride);
    DivModUnique(m, d, j, 0);
    assert (j + 1) * d == m + d;
    forall k: nat | m + 1 <= k < m + d
      ensures !Sampled(k, sp.stride)
    {
      NotSampledBetween(sp.stride, j, k);
    }
    ScanSkips(sp, m + 1, m + d, j + 1, n);
  }

  /** Writes `j` to `c - 1` of an opened source, each followed by its
      progress report. */
  function Writes(sp: Sampler, j: nat, c: nat): seq<Event>
    decreases c - j
  {
    if j >= c then []
    else [Artifact(ArtifactPath(sp, j)), Progress(j * Abs(sp.stride))] + Writes(sp, j + 1, c)
  }

  /** From the `j`-th multiple of the stride on, the loop emits the writes
      from counter `j` on. */
  lemma {:induction false} ScanFromMultiple(sp: Sampler, j: nat, n: nat)
    requires sp.stride != 0
    ensures Scan(sp, j * Abs(sp.stride), j, n) == Writes(sp, j, CeilDiv(n, Abs(sp.stride)))
    decreases n - j * Abs(sp.stride)
  {
    var d := Abs(sp.stride);
    CeilDivLeast(n, d, j);
    if j * d < n {
      ScanPeriod(sp, j, n);
      assert (j + 1) * d == j * d + d;
      ScanFromMultiple(sp, j + 1, n);
    }
  }

  lemma ExpectedPair(sp: Sampler, j: nat)
    ensures ExpectedAt(sp, 2 * j) == Artifact(ArtifactPath(sp, j))
    ensures ExpectedAt(sp, 2 * j + 1) == Progress(j * Abs(sp.stride))
  {
    assert (2 * j) % 2 == 0 && (2 * j) / 2 == j;
    assert (2 * j + 1) % 2 == 1 && (2 * j + 1) / 2 == j;
  }

  /** The recursive description of the writes agrees with the indexed one. */
  lemma {:induction false} WritesIndexed(sp: Sampler, j: nat, c: nat)
    requires j <= c
    ensures |Writes(sp, j, c)| == 2 * (c - j)
    ensures forall i :: 0 <= i < 2 * (c - j) ==> Writes(sp, j, c)[i] == ExpectedAt(sp, 2 * j + i)
    decreases c - j
  {
    if j < c {
      WritesIndexed(sp, j + 1, c);
      WritesStep(sp, j, c, Writes(sp, j + 1, c));
    }
  }

  lemma WritesStep(sp: Sampler, j: nat, c: nat, rest: seq<Event>)
    requires j < c
    requires rest == Writes(sp, j + 1, c)
    requires |rest| == 2 * (c - (j + 1))
    requires forall i :: 0 <= i < |rest| ==> rest[i] == ExpectedAt(sp, 2 * (j + 1) + i)
    ensures |Writes(sp, j, c)| == 2 * (c - j)
    ensures forall i :: 0 <= i < 2 * (c - j) ==> Writes(sp, j, c)[i] == ExpectedAt(sp, 2 * j + i)
  {
    var t := Writes(sp, j, c);
    ExpectedPair(sp, j);
    forall i | 0 <= i < 2 * (c - j)
      ensures t[i] == ExpectedAt(sp, 2 * j + i)
    {
      if i >= 2 {
        assert t[i] == rest[i - 2];
        assert 2 * (j + 1) + (i - 2) == 2 * j + i;
      }
    }
  }

  /** Sampling positions and order: an opened source with a positive frame
      rate and a non-zero stride `s` emits, for each `j` below ceil(n / |s|),
      the write of counter `j` followed by the progress report of decoded
      frame `j * |s|`, and nothing else. */
  lemma SamplingTrace(job: Job, src: Source, zeroDivText: string)
    requires src.opens && src.fpsPositive && src.stride != 0
    ensures ProcessSource(job, src, zeroDivText)
         == Expected(SamplerFor(job, src), CeilDiv(src.frames, Abs(src.stride)))
  {
    var sp := SamplerFor(job, src);
    var c := CeilDiv(src.frames, Abs(src.stride));
    ScanFromMultiple(sp, 0, src.frames);
    assert 0 * Abs(src.stride) == 0;
    WritesIndexed(sp, 0, c);
  }

  lemma ExpectedIsWrites(sp: Sampler, c: nat)
    ensures Expected(sp, c) == Writes(sp, 0, c)
  {
    WritesIndexed(sp, 0, c);
  }

  /** The artifact signals of writes `j` to `c - 1`. */
  function ArtifactsFrom(sp: Sampler, j: nat, c: nat): seq<Event>
    decreases c - j
  {
    if j >= c then [] else [Artifact(ArtifactPath(sp, j))] + ArtifactsFrom(sp, j + 1, c)
  }

  /** The progress signals of writes `j` to `c - 1`. */
  function ReportsFrom(sp: Sampler, j: nat, c: nat): seq<Event>
    decreases c - j
  {
    if j >= c then [] else [Progress(j * Abs(sp.stride))] + ReportsFrom(sp, j + 1, c)
  }

  lemma OnlyPair(x: Event, y: Event, k: Kind)
    ensures Only([x, y], k) == (if KindOf(x) == k then [x] else []) + (if KindOf(y) == k then [y] else [])
  {
    assert [x, y][1..] == [y];
    assert [y][1..] == [];
    assert Only([y], k) == (if KindOf(y) == k then [y] else []) + Only([], k);
  }

  /** Split of the writes into artifacts and progress reports. */
  lemma {:induction false} WritesKinds(sp: Sampler, j: nat, c: nat)
    ensures Only(Writes(sp, j, c), Written) == ArtifactsFrom(sp, j, c)
    ensures Only(Writes(sp, j, c), Reported) == ReportsFrom(sp, j, c)
    ensures Only(Writes(sp, j, c), Failed) == []
    ensures Only(Writes(sp, j, c), Done) == []
    decreases c - j
  {
    if j < c {
      var a := Artifact(ArtifactPath(sp, j));
      var p := Progress(j * Abs(sp.stride));
      var w := Writes(sp, j + 1, c);
      WritesKinds(sp, j + 1, c);
      forall k: Kind
        ensures Only(Writes(sp, j, c), k) == Only([a, p], k) + Only(w, k)
      {
        OnlyAppend([a, p], w, k);
      }
      OnlyPair(a, p, Written);
      OnlyPair(a, p, Reported);
      OnlyPair(a, p, Failed);
      OnlyPair(a, p, Done);
    }
  }

  lemma {:induction false} ArtifactsIndexed(sp: Sampler, j: nat, c: nat)
    requires j <= c
    ensures |ArtifactsFrom(sp, j, c)| == c - j
    ensures forall i :: 0 <= i < c - j ==> ArtifactsFrom(sp, j, c)[i] == Artifact(ArtifactPath(sp, j + i))
    decreases c - j
  {
    if j < c {
      ArtifactsIndexed(sp, j + 1, c);
      var t := ArtifactsFrom(sp, j, c);
      var rest := ArtifactsFrom(sp, j + 1, c);
      forall i | 1 <= i < c - j
        ensures t[i] == Artifact(ArtifactPath(sp, j + i))
      {
        assert t[i] == rest[i - 1];
      }
    }
  }

  lemma {:induction false} ReportsIndexed(sp: Sampler, j: nat, c: nat)
    requires j <= c
    ensures |ReportsFrom(sp, j, c)| == c - j
    ensures forall i :: 0 <= i < c - j ==> ReportsFrom(sp, j, c)[i] == Progress((j + i) * Abs(sp.stride))
    decreases c - j
  {
    if j < c {
      ReportsIndexed(sp, j + 1, c);
      var t := ReportsFrom(sp, j, c);
      var rest := ReportsFrom(sp, j + 1, c);
      forall i | 1 <= i < c - j
        ensures t[i] == Progress((j + i) * Abs(sp.stride))
      {
        assert t[i] == rest[i - 1];
        assert j + 1 + (i - 1) == j + i;
      }
    }
  }

  /** Sampling positions and count: an opened source with a positive frame
      rate and stride `s` writes exactly ceil(n / |s|) frames, with consecutive
      counters 0, 1, ..., and reports progress at decoded frames 0, |s|, 2|s|,
      ..., all below `n`, strictly increasing. */
  lemma SamplingCount(job: Job, src: Source, zeroDivText: string)
    requires src.opens && src.fpsPositive && src.stride != 0
    ensures var t := ProcessSource(job, src, zeroDivText);
            var sp := SamplerFor(job, src);
            var c := CeilDiv(src.frames, Abs(src.stride));
            && |Only(t, Written)| == c
            && (forall j :: 0 <= j < c ==> Only(t, Written)[j] == Artifact(ArtifactPath(sp, j)))
            && |Only(t, Reported)| == c
            && (forall j :: 0 <= j < c ==> Only(t, Reported)[j] == Progress(j * Abs(src.stride)))
  {
    var sp := SamplerFor(job, src);
    var c := CeilDiv(src.frames, Abs(src.stride));
    SamplingTrace(job, src, zeroDivText);
    ExpectedIsWrites(sp, c);
    WritesKinds(sp, 0, c);
    ArtifactsIndexed(sp, 0, c);
    ReportsIndexed(sp, 0, c);
  }

  /** The progress values of a sampled source are multiples of the stride,
      below the number of frames, and strictly increasing. */
  lemma ProgressBounds(job: Job, src: Source, zeroDivText: string)
    requires src.opens && src.fpsPositive && src.stride != 0
    ensures var p := Only(ProcessSource(job, src, zeroDivText), Reported);
            && (forall j :: 0 <= j < |p| ==> p[j].Progress? && p[j].frameCount < src.frames)
            && (forall j :: 0 <= j < |p| ==> p[j].Progress? && p[j].frameCount % Abs(src.stride) == 0)
            && (forall a, b :: 0 <= a < b < |p| ==>
                  p[a].Progress? && p[b].Progress? && p[a].frameCount < p[b].frameCount)
  {
    var p := Only(ProcessSource(job, src, zeroDivText), Reported);
    var d := Abs(src.stride);
    SamplingCount(job, src, zeroDivText);
    forall j | 0 <= j < |p|
      ensures p[j].Progress? && p[j].frameCount < src.frames && p[j].frameCount % d == 0
    {
      MultipleBelowCeil(src.frames, d, j);
    }
    forall a, b | 0 <= a < b < |p|
      ensures p[a].Progress? && p[b].Progress? && p[a].frameCount < p[b].frameCount
    {
      MulStrict(a, b, d);
    }
  }

  lemma MentionsInside(pre: string, s: string, post: string)
    ensures Mentions(pre + s + post, s)
  {
    var msg := pre + s + post;
    assert msg[|pre|..][..|s|] == s;
  }

  /** A failing source yields exactly one error, which names its path. */
  lemma FailureOutcome(job: Job, src: Source, zeroDivText: string)
    requires Fails(src)
    ensures var t := ProcessSource(job, src, zeroDivText);
            |t| == 1 && t[0].Error? && Mentions(t[0].message, src.path)
  {
    if !src.opens {
      MentionsInside("Could not open video: ", src.path, "");
      assert OpenFailedMessage(src.path) + "" == OpenFailedMessage(src.path);
    } else if !src.fpsPositive {
      MentionsInside("Invalid FPS for video: ", src.path, "");
      assert InvalidFpsMessage(src.path) + "" == InvalidFpsMessage(src.path);
    } else {
      MentionsInside("Error processing video ", src.path, ": " + zeroDivText);
      assert "Error processing video " + src.path + ": " + zeroDivText
          == "Error processing video " + src.path + (": " + zeroDivText);
    }
  }

  /** Per-source outcome: a failing source yields one error and no frame; any
      other source yields ceil(n / |stride|) frames and no error; no source
      yields `finished`. */
  lemma SourceOutcome(job: Job, src: Source, zeroDivText: string)
    ensures var t := ProcessSource(job, src, zeroDivText);
            && |Only(t, Failed)| == (if Fails(src) then 1 else 0)
            && |Only(t, Written)| == Yield(src)
            && |Only(t, Reported)| == Yield(src)
            && Only(t, Done) == []
            && (src.opens && src.fpsPositive && src.stride == 0 && src.frames == 0 ==> t == [])
  {
    var t := ProcessSource(job, src, zeroDivText);
    if Fails(src) {
      FailureOutcome(job, src, zeroDivText);
      assert t == [t[0]];
    } else if src.stride != 0 {
      var sp := SamplerFor(job, src);
      var c := CeilDiv(src.frames, Abs(src.stride));
      SamplingTrace(job, src, zeroDivText);
      ExpectedIsWrites(sp, c);
      WritesKinds(sp, 0, c);
      ArtifactsIndexed(sp, 0, c);
      ReportsIndexed(sp, 0, c);
    }
  }

  lemma {:induction false} BatchAppend(job: Job, a: seq<Source>, b: seq<Source>, zeroDivText: string)
    ensures Batch(job, a + b, zeroDivText) == Batch(job, a, zeroDivText) + Batch(job, b, zeroDivText)
    decreases |a|
  {
    if |a| == 0 {
      assert a + b == b;
    } else {
      assert (a + b)[1..] == a[1..] + b;
      BatchAppend(job, a[1..], b, zeroDivText);
    }
  }

  /** A source that does not open or has a non-positive frame rate is reported
      once and skipped; the sources before and after it are processed as if it
      were not there. */
  lemma FailingSourceSkipped(job: Job, before: seq<Source>, bad: Source, after: seq<Source>, zeroDivText: string)
    requires !bad.opens || !bad.fpsPositive
    ensures Run(job, before + [bad] + after, zeroDivText)
         == Batch(job, before, zeroDivText)
            + [Error(if !bad.opens then OpenFailedMessage(bad.path) else InvalidFpsMessage(bad.path))]
            + Batch(job, after, zeroDivText)
            + [Finished]
  {
    var e := Error(if !bad.opens then OpenFailedMessage(bad.path) else InvalidFpsMessage(bad.path));
    assert ProcessSource(job, bad, zeroDivText) == [e];
    assert Batch(job, [bad], zeroDivText) == [e] by {
      assert [bad][1..] == [];
    }
    BatchAppend(job, before + [bad], after, zeroDivText);
    BatchAppend(job, before, [bad], zeroDivText);
  }

  /** Errors and frames of a batch add up over its sources. */
  lemma {:induction false} BatchCounts(job: Job, srcs: seq<Source>, zeroDivText: string)
    ensures |Only(Batch(job, srcs, zeroDivText), Failed)| == FailureCount(srcs)
    ensures |Only(Batch(job, srcs, zeroDivText), Written)| == TotalYield(srcs)
    ensures Only(Batch(job, srcs, zeroDivText), Done) == []
    decreases |srcs|
  {
    if |srcs| > 0 {
      var head := ProcessSource(job, srcs[0], zeroDivText);
      var tail := Batch(job, srcs[1..], zeroDivText);
      assert |Only(head, Failed)| == (if Fails(srcs[0]) then 1 else 0)
          && |Only(head, Written)| == Yield(srcs[0])
          && Only(head, Done) == [] by {
        SourceOutcome(job, srcs[0], zeroDivText);
      }
      BatchCounts(job, srcs[1..], zeroDivText);
      OnlyAppend(head, tail, Failed);
      OnlyAppend(head, tail, Written);
      OnlyAppend(head, tail, Done);
    }
  }

  /** The whole run: one error per failing source, ceil(n / |stride|) frames
      per sampled source, and exactly one `finished`, as the last signal. */
  lemma RunOutcome(job: Job, srcs: seq<Source>, zeroDivText: string)
    ensures var t := Run(job, srcs, zeroDivText);
            && |Only(t, Failed)| == FailureCount(srcs)
            && |Only(t, Written)| == TotalYield(srcs)
            && Only(t, Done) == [Finished]
            && t[|t| - 1] == Finished
  {
    var b := Batch(job, srcs, zeroDivText);
    BatchCounts(job, srcs, zeroDivText);
    OnlyAppend(b, [Finished], Failed);
    OnlyAppend(b, [Finished], Written);
    OnlyAppend(b, [Finished], Done);
  }

  // ---------------------------------------------------------------- naming

  /** The video name never contains a separator. */
  lemma VideoNameNoSlash(path: string)
    ensures '/' !in VideoName(path)
  {
    BasenameSpec(path);
    StemWithout(Basename(path), '/');
  }

  /** A bare file name `<root>.<ext>` names the video `<root>`. */
  lemma VideoNameOfFile(root: string, ext: string)
    requires '/' !in root && '/' !in ext && '.' !in ext
    requires !AllDots(root)
    ensures VideoName(root + "." + ext) == root
  {
    LastIndexOfAbsent(root + "." + ext, '/');
    StemOfExtension(root, ext);
  }

  lemma FrameFileNameNoSlash(name: string, e: nat)
    requires '/' !in name
    ensures '/' !in FrameFileName(name, e)
  {
    Pad4Spec(e);
    assert '/' !in Pad4(e);
    assert '/' !in "_frame_" && '/' !in ".jpg";
  }

  /** The root of the frame file name is everything before ".jpg". */
  lemma FrameFileNameStem(name: string, e: nat)
    requires '/' !in name
    ensures Stem(FrameFileName(name, e)) == name + "_frame_" + Pad4(e)
  {
    var root := name + "_frame_" + Pad4(e);
    FrameFileNameNoSlash(name, e);
    assert FrameFileName(name, e) == root + ".jpg";
    assert '/' !in root by {
      assert forall i :: 0 <= i < |root| ==> root[i] == (root + ".jpg")[i];
    }
    assert root[|name|] == '_';
    assert root + ".jpg" == root + "." + "jpg";
    StemOfExtension(root, "jpg");
  }

  /** The digits between "_frame_" and ".jpg" are the padded counter, and
      they read back as the counter. */
  lemma FrameFileNameCounter(name: string, e: nat)
    ensures var f := FrameFileName(name, e);
            var digits := f[|name| + 7..|f| - 4];
            && digits == Pad4(e)
            && AllDigits(digits)
            && ParseDigits(digits) == e
            && (e < 10000 <==> |digits| == 4)
  {
    var f := FrameFileName(name, e);
    Pad4Spec(e);
    Pad4RoundTrip(e);
    Pad4Width(e);
    assert f[|name| + 7..|f| - 4] == Pad4(e);
  }

  /** The path of a source's `e`-th frame, written out. */
  lemma SamplerPath(job: Job, src: Source, e: nat)
    ensures var name := VideoName(src.path);
            ArtifactPath(SamplerFor(job, src), e) == FramePath(OutputFolder(job, name), name, e)
  {}

  /** The artifact's file name is `<video name>_frame_<counter>.jpg`: its base
      name is that file name, its `splitext` root drops just ".jpg", and the
      four-or-more digit counter in it reads back as the extraction counter. */
  lemma ArtifactNaming(job: Job, src: Source, e: nat)
    ensures var name := VideoName(src.path);
            var f := FrameFileName(name, e);
            var digits := f[|name| + 7..|f| - 4];
            && Basename(ArtifactPath(SamplerFor(job, src), e)) == f
            && Stem(f) == name + "_frame_" + Pad4(e)
            && AllDigits(digits)
            && ParseDigits(digits) == e
            && (e < 10000 <==> |digits| == 4)
  {
    var name := VideoName(src.path);
    SamplerPath(job, src, e);
    VideoNameNoSlash(src.path);
    FrameFileNameNoSlash(name, e);
    BasenameOfJoin(OutputFolder(job, name), FrameFileName(name, e));
    FrameFileNameStem(name, e);
    FrameFileNameCounter(name, e);
  }

  /** Within one source, different counters give different artifact paths, so
      no write overwrites an earlier one. */
  lemma ArtifactPathsDistinct(job: Job, src: Source, e1: nat, e2: nat)
    ensures e1 != e2 ==> ArtifactPath(SamplerFor(job, src), e1) != ArtifactPath(SamplerFor(job, src), e2)
  {
    ArtifactNaming(job, src, e1);
    ArtifactNaming(job, src, e2);
  }

  /** Output folder: every artifact lies under the output folder, and under
      the video's own sub-folder `<output>/<name>` when separate folders are
      requested; the base name is always the frame file name. */
  lemma ArtifactLocation(job: Job, src: Source, e: nat)
    ensures var name := VideoName(src.path);
            var path := ArtifactPath(SamplerFor(job, src), e);
            && Basename(path) == FrameFileName(name, e)
            && IsPrefix(job.outputFolder, path)
            && (job.separateFolders ==> IsPrefix(Join(job.outputFolder, name), path))
            && (job.separateFolders ==> path == Join(Join(job.outputFolder, name), FrameFileName(name, e)))
            && (!job.separateFolders ==> path == Join(job.outputFolder, FrameFileName(name, e)))
  {
    var name := VideoName(src.path);
    var folder := OutputFolder(job, name);
    var f := FrameFileName(name, e);
    SamplerPath(job, src, e);
    VideoNameNoSlash(src.path);
    FrameFileNameNoSlash(name, e);
    BasenameOfJoin(folder, f);
    assert f[0] != '/';
    JoinSpec(folder, f);
    if job.separateFolders {
      if |name| > 0 {
        assert name[0] != '/';
      }
      JoinSpec(job.outputFolder, name);
      PrefixTrans(job.outputFolder, folder, Join(folder, f));
    } else {
      assert folder == job.outputFolder;
    }
  }
}
