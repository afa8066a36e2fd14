/** The decode loop of `run` pass by pass, with the worker's `is_paused` flag
    read at the top of every pass. A schedule is the sequence of values the
    flag has at successive passes; the thread's `msleep` and the signal
    delivery are not modelled, only that a paused pass does nothing. */
module Worker {

  import opened Extractor

  /** The loop's counters: frames decoded so far and frames written so far.
      The decoder's position is `frameCount`: every decoded frame is counted. */
  datatype Cursor = Cursor(frameCount: nat, extracted: nat)

  /** What one pass through the loop body does. */
  datatype Pass = Waited | EndOfStream | Raised | Decoded(events: seq<Event>, next: Cursor)

  function Iterate(sp: Sampler, cur: Cursor, n: nat, paused: bool): Pass {
    if paused then Waited
    else if cur.frameCount >= n then EndOfStream
    else if sp.stride == 0 then Raised
    else if Sampled(cur.frameCount, sp.stride) then
      Decoded([Artifact(ArtifactPath(sp, cur.extracted)), Progress(cur.frameCount)],
               Cursor(cur.frameCount + 1, cur.extracted + 1))
    else Decoded([], Cursor(cur.frameCount + 1, cur.extracted))
  }

  datatype Status = Running(cursor: Cursor) | Ended | Crashed

  /** The signals emitted so far and where the loop stands. */
  datatype Progressed = Progressed(events: seq<Event>, status: Status)

  /** The loop driven through one pass per entry of `flags`. */
  function Drive(sp: Sampler, cur: Cursor, n: nat, flags: seq<bool>): Progressed
    decreases |flags|
  {
    if |flags| == 0 then Progressed([], Running(cur))
    else match Iterate(sp, cur, n, flags[0])
      case Waited => Drive(sp, cur, n, flags[1..])
      case EndOfStream => Progressed([], Ended)
      case Raised => Progressed([], Crashed)
      case Decoded(evs, next) =>
        var rest := Drive(sp, next, n, flags[1..]);
        Progressed(evs + rest.events, rest.status)
  }

  /** The schedule with its paused passes removed. */
  function Unpaused(flags: seq<bool>): (r: seq<bool>)
    ensures |r| <= |flags|
    ensures |r| == multiset(flags)[false]
    ensures false !in flags ==> r == []
    decreases |flags|
  {
    if |flags| == 0 then []
    else
      assert flags == [flags[0]] + flags[1..];
      if flags[0] then Unpaused(flags[1..])
      else [false] + Unpaused(flags[1..])
  }

  /** `k` consecutive paused passes. */
  function PausedFor(k: nat): seq<bool> {
    seq(k, _ => true)
  }

  /** The signals of a source processed under `flags`: those of the loop,
      then the caught exception's error if the loop raised. */
  function Outcome(src: Source, p: Progressed, zeroDivText: string): seq<Event> {
    if p.status.Crashed? then p.events + [Error(ProcessingErrorMessage(src.path, zeroDivText))]
    else p.events
  }

  // ----------------------------------------------------------------- lemmas

  /** Paused passes are invisible: they consume no frame, emit nothing and
      leave both counters unchanged, so only the unpaused passes matter. */
  lemma {:induction false} PauseInvisible(sp: Sampler, cur: Cursor, n: nat, flags: seq<bool>)
    ensures Drive(sp, cur, n, flags) == Drive(sp, cur, n, Unpaused(flags))
    decreases |flags|
  {
    if |flags| > 0 {
      var u := Unpaused(flags[1..]);
      if flags[0] {
        PauseInvisible(sp, cur, n, flags[1..]);
      } else {
        assert Unpaused(flags) == [false] + u;
        assert ([false] + u)[1..] == u;
        match Iterate(sp, cur, n, false)
        case Waited =>
        case EndOfStream =>
        case Raised =>
        case Decoded(evs, next) =>
          PauseInvisible(sp, next, n, flags[1..]);
      }
    }
  }

  /** Pausing for any number of passes and then resuming continues exactly
      where the loop stood: no frame is skipped or replayed. */
  lemma PauseThenResume(sp: Sampler, cur: Cursor, n: nat, k: nat, flags: seq<bool>)
    ensures Drive(sp, cur, n, PausedFor(k) + flags) == Drive(sp, cur, n, flags)
  {
    PauseInvisible(sp, cur, n, PausedFor(k) + flags);
    PauseInvisible(sp, cur, n, flags);
    UnpausedAfterPause(k, flags);
  }

  lemma {:induction false} UnpausedAfterPause(k: nat, flags: seq<bool>)
    ensures Unpaused(PausedFor(k) + flags) == Unpaused(flags)
    decreases k
  {
    if k > 0 {
      var s := PausedFor(k) + flags;
      assert s[0];
      assert s[1..] == PausedFor(k - 1) + flags;
      UnpausedAfterPause(k - 1, flags);
    } else {
      assert PausedFor(k) + flags == flags;
    }
  }

  /** One pass of the loop is one step of the uninterrupted loop: with a
      non-zero stride it never raises, it waits exactly when paused, it ends
      exactly when no frame is left, otherwise it consumes one frame, and
      what it emits followed by the rest of the loop is the rest of the loop
      from before the pass. */
  lemma IterateStep(sp: Sampler, cur: Cursor, n: nat, paused: bool)
    requires sp.stride != 0
    ensures var pass := Iterate(sp, cur, n, paused);
            && !pass.Raised?
            && (pass.Waited? <==> paused)
            && (pass.EndOfStream? <==> !paused && cur.frameCount >= n)
            && (pass.Decoded? ==> pass.next.frameCount == cur.frameCount + 1)
            && (pass.EndOfStream? ==> Scan(sp, cur.frameCount, cur.extracted, n) == [])
            && (pass.Decoded? ==>
                  Scan(sp, cur.frameCount, cur.extracted, n)
                  == pass.events + Scan(sp, pass.next.frameCount, pass.next.extracted, n))
  {}

  /** Whatever the schedule, the signals emitted so far followed by the rest
      of the loop from the current cursor are the unpaused trace; a loop
      with a non-zero stride never raises. */
  lemma {:induction false} DriveResumes(sp: Sampler, cur: Cursor, n: nat, flags: seq<bool>)
    requires sp.stride != 0
    ensures var p := Drive(sp, cur, n, flags);
            && !p.status.Crashed?
            && (p.status.Ended? ==> p.events == Scan(sp, cur.frameCount, cur.extracted, n))
            && (p.status.Running? ==>
                  p.events + Scan(sp, p.status.cursor.frameCount, p.status.cursor.extracted, n)
                  == Scan(sp, cur.frameCount, cur.extracted, n))
    decreases |flags|
  {
    if |flags| > 0 {
      var pass := Iterate(sp, cur, n, flags[0]);
      IterateStep(sp, cur, n, flags[0]);
      if pass.Waited? {
        DriveResumes(sp, cur, n, flags[1..]);
      } else if pass.Decoded? {
        var evs := pass.events;
        var rest := Drive(sp, pass.next, n, flags[1..]);
        DriveResumes(sp, pass.next, n, flags[1..]);
        assert Drive(sp, cur, n, flags) == Progressed(evs + rest.events, rest.status);
        if rest.status.Running? {
          var c := rest.status.cursor;
          assert (evs + rest.events) + Scan(sp, c.frameCount, c.extracted, n)
              == evs + (rest.events + Scan(sp, c.frameCount, c.extracted, n));
        }
      }
    }
  }

  /** Given more unpaused passes than there are frames left, the loop reaches
      the end of the stream having emitted exactly the unpaused trace. */
  lemma {:induction false} DriveCompletes(sp: Sampler, cur: Cursor, n: nat, flags: seq<bool>)
    requires sp.stride != 0
    requires cur.frameCount <= n
    requires |Unpaused(flags)| > n - cur.frameCount
    ensures Drive(sp, cur, n, flags) == Progressed(Scan(sp, cur.frameCount, cur.extracted, n), Ended)
    decreases |flags|
  {
    if flags[0] {
      DriveCompletes(sp, cur, n, flags[1..]);
    } else {
      assert Unpaused(flags) == [false] + Unpaused(flags[1..]);
      match Iterate(sp, cur, n, false)
      case Waited =>
      case EndOfStream =>
      case Raised =>
      case Decoded(evs, next) =>
        DriveCompletes(sp, next, n, flags[1..]);
    }
  }

  /** Pausing does not change what a source yields: under any schedule with
      more unpaused passes than the source has frames, an opened source with
      a positive frame rate reports exactly what the uninterrupted worker
      reports, including the zero-stride error. */
  lemma SourceUnderSchedule(job: Job, src: Source, flags: seq<bool>, zeroDivText: string)
    requires src.opens && src.fpsPositive
    requires |Unpaused(flags)| > src.frames
    ensures Outcome(src, Drive(SamplerFor(job, src), Cursor(0, 0), src.frames, flags), zeroDivText)
         == ProcessSource(job, src, zeroDivText)
  {
    var sp := SamplerFor(job, src);
    if src.stride != 0 {
      DriveCompletes(sp, Cursor(0, 0), src.frames, flags);
    } else {
      PauseInvisible(sp, Cursor(0, 0), src.frames, flags);
      var u := Unpaused(flags);
      assert u[0] == false by {
        UnpausedIsFalse(flags);
      }
    }
  }

  lemma {:induction false} UnpausedIsFalse(flags: seq<bool>)
    ensures true !in Unpaused(flags)
    decreases |flags|
  {
    if |flags| > 0 {
      UnpausedIsFalse(flags[1..]);
    }
  }
}
