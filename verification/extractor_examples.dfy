/** Worked instances of the extractor's behaviour on concrete inputs. */
module ExtractorExamples {

  import opened Paths
  import opened Counter
  import opened Arith
  import opened Extractor

  lemma ClipName()
    ensures VideoName("clip.mp4") == "clip"
  {
    assert "clip.mp4" == "clip" + "." + "mp4";
    assert "clip"[0] != '.';
    VideoNameOfFile("clip", "mp4");
  }

  lemma CounterZero()
    ensures Pad4(0) == "0000"
  {
    assert Decimal(0) == "0";
    assert Zeros(3) == "000";
  }

  lemma CounterNine()
    ensures Pad4(9) == "0009"
  {
    assert Decimal(9) == "9";
    assert Zeros(3) == "000";
  }

  lemma FrameNames()
    ensures FrameFileName("clip", 0) == "clip_frame_0000.jpg"
    ensures FrameFileName("clip", 9) == "clip_frame_0009.jpg"
  {
    CounterZero();
    CounterNine();
  }

  lemma ClipSampler(job: Job, src: Source, e: nat)
    requires src.path == "clip.mp4"
    ensures ArtifactPath(SamplerFor(job, src), e) == FramePath(OutputFolder(job, "clip"), "clip", e)
    ensures SamplerFor(job, src).stride == src.stride
  {
    ClipName();
    SamplerPath(job, src, e);
  }

  lemma JoinClipFolder()
    ensures Join("/out", "clip") == "/out/clip"
  {
    assert "/out" + "/" + "clip" == "/out/clip";
  }

  lemma JoinGroupedFrame()
    ensures Join("/out/clip", "clip_frame_0000.jpg") == "/out/clip/clip_frame_0000.jpg"
  {
    assert "/out/clip" + "/" + "clip_frame_0000.jpg" == "/out/clip/clip_frame_0000.jpg";
  }

  lemma JoinFlatFirst()
    ensures Join("/out", "clip_frame_0000.jpg") == "/out/clip_frame_0000.jpg"
  {
    assert "/out" + "/" + "clip_frame_0000.jpg" == "/out/clip_frame_0000.jpg";
  }

  lemma JoinFlatTenth()
    ensures Join("/out", "clip_frame_0009.jpg") == "/out/clip_frame_0009.jpg"
  {
    assert "/out" + "/" + "clip_frame_0009.jpg" == "/out/clip_frame_0009.jpg";
  }

  lemma JoinExamples()
    ensures Join("/out", "clip") == "/out/clip"
    ensures Join("/out/clip", "clip_frame_0000.jpg") == "/out/clip/clip_frame_0000.jpg"
    ensures Join("/out", "clip_frame_0000.jpg") == "/out/clip_frame_0000.jpg"
    ensures Join("/out", "clip_frame_0009.jpg") == "/out/clip_frame_0009.jpg"
  {
    JoinClipFolder();
    JoinGroupedFrame();
    JoinFlatFirst();
    JoinFlatTenth();
  }

  /** A video at "clip.mp4" is sampled under "/out/clip/" with separate
      folders and directly under "/out/" without. */
  lemma GroupingExample(src: Source)
    requires src.path == "clip.mp4"
    ensures ArtifactPath(SamplerFor(Job("/out", true), src), 0) == "/out/clip/clip_frame_0000.jpg"
    ensures ArtifactPath(SamplerFor(Job("/out", false), src), 0) == "/out/clip_frame_0000.jpg"
  {
    ClipSampler(Job("/out", true), src, 0);
    ClipSampler(Job("/out", false), src, 0);
    JoinExamples();
    FrameNames();
  }

  /** A 300-frame video at 30 fps sampled every second (stride 30): ten
      frames, counters 0000 to 0009, reported at decoded frames 0, 30, ...,
      270. */
  lemma ThirtyFpsExample(src: Source, zeroDivText: string)
    requires src.path == "clip.mp4" && src.opens && src.fpsPositive
    requires src.stride == 30 && src.frames == 300
    ensures var t := ProcessSource(Job("/out", false), src, zeroDivText);
            && |Only(t, Written)| == 10
            && Only(t, Written)[0] == Artifact("/out/clip_frame_0000.jpg")
            && Only(t, Written)[9] == Artifact("/out/clip_frame_0009.jpg")
            && |Only(t, Reported)| == 10
            && Only(t, Reported)[9] == Progress(270)
  {
    var job := Job("/out", false);
    SamplingCount(job, src, zeroDivText);
    assert CeilDiv(300, 30) == 10;
    ClipSampler(job, src, 0);
    ClipSampler(job, src, 9);
    FrameNames();
    JoinExamples();
  }
}
