/**
 Running a child process: an event machine that settles its promise once. Chunks, timers, aborts,
 errors and the close of the child may come in any order and any number of times.
 */
module ProcessRunner {
  import opened Sorting
  import opened Wrappers

  type Bytes = seq<bv8>

  datatype StreamName = Stdout | Stderr
  datatype Signal = SigTerm | SigKill
  /** The abort signal may be set already when the run is asked for. */
  datatype Options = Options(maxBufferBytes: int, truncate: bool, allowNonZeroExit: bool, signalAborted: bool)

  datatype Result = Result(stdout: Bytes, stderr: Bytes, code: Option<int>, signal: Option<string>,
    timedOut: bool, stdoutTruncated: bool, stderrTruncated: bool)
  datatype Error = AbortError | SpawnError | StdinError | BufferError(stream: StreamName) | ExitError(result: Result)
  datatype Outcome = Resolved(result: Result) | Rejected(error: Error)

  datatype Event =
    | Data(stream: StreamName, chunk: Bytes)
    | Abort
    | TimeoutFires
    | ForceKillFires
    | ChildError
    | Close(code: Option<int>, signal: Option<string>)
    | StdinFails

  datatype Buffer = Buffer(bytes: Bytes, truncated: bool)

  /** The outcomes are those the promise was settled with. */
  datatype Run = Run(stdout: Buffer, stderr: Buffer, timedOut: bool, aborted: bool, settled: bool,
    timeoutArmed: bool, forceKillArmed: bool, kills: seq<Signal>, outcomes: seq<Outcome>)

  /** With the signal set already the run rejects before anything is spawned, and counts as aborted. */
  function Started(o: Options): Run {
    Run(Buffer([], false), Buffer([], false), false, o.signalAborted, o.signalAborted, !o.signalAborted, false, [],
      if o.signalAborted then [Rejected(AbortError)] else [])
  }

  function BufferOf(r: Run, stream: StreamName): Buffer {
    if stream.Stdout? then r.stdout else r.stderr
  }

  /* ---------- Bounded buffers ---------- */

  function AppendChunkWithinLimit(target: Bytes, chunk: Bytes, maxBytes: int): (r: Buffer)
    requires |target| <= maxBytes || target == []
    ensures target <= r.bytes && r.bytes <= target + chunk
    ensures |r.bytes| == if maxBytes <= 0 then 0 else if |target| + |chunk| < maxBytes then |target| + |chunk|
      else maxBytes
    ensures r.truncated <==> maxBytes <= |target| || maxBytes < |target| + |chunk|
  {
    var remaining := maxBytes - |target|;
    if remaining <= 0 then Buffer(target, true)
    else if |chunk| <= remaining then Buffer(target + chunk, false)
    else Buffer(target + chunk[..remaining], true)
  }

  predicate Fits(b: Buffer, o: Options) {
    o.truncate ==> |b.bytes| <= o.maxBufferBytes || b.bytes == []
  }

  function Appended(b: Buffer, chunk: Bytes, o: Options): Buffer
    requires Fits(b, o)
    ensures Fits(Appended(b, chunk, o), o)
  {
    if o.truncate then
      var appended := AppendChunkWithinLimit(b.bytes, chunk, o.maxBufferBytes);
      Buffer(appended.bytes, b.truncated || appended.truncated)
    else Buffer(b.bytes + chunk, b.truncated)
  }

  /* ---------- One step ---------- */

  predicate Bounded(r: Run, o: Options) {
    Fits(r.stdout, o) && Fits(r.stderr, o)
  }

  function Finalized(r: Run, outcome: Outcome): Run {
    if r.settled then r
    else r.(settled := true, timeoutArmed := false, forceKillArmed := false, outcomes := r.outcomes + [outcome])
  }

  function Killed(r: Run, signal: Signal): Run {
    r.(kills := r.kills + [signal])
  }

  function FailedWith(r: Run, error: Error): Run {
    Finalized(Killed(r, SigTerm), Rejected(error))
  }

  function ResultOf(r: Run, code: Option<int>, signal: Option<string>): Result {
    Result(r.stdout.bytes, r.stderr.bytes, code, signal, r.timedOut, r.stdout.truncated, r.stderr.truncated)
  }

  function Hear(r: Run, stream: StreamName, chunk: Bytes, o: Options): Run
    requires Bounded(r, o)
  {
    var buffer := Appended(BufferOf(r, stream), chunk, o);
    if stream.Stdout? then r.(stdout := buffer) else r.(stderr := buffer)
  }

  predicate IsOverLimit(r: Run, stream: StreamName, o: Options) {
    !o.truncate && |BufferOf(r, stream).bytes| > o.maxBufferBytes
  }

  function Step(r: Run, e: Event, o: Options): Run
    requires Bounded(r, o)
  {
    match e
    case Data(stream, chunk) =>
      if r.aborted then r
      else
        var heard := Hear(r, stream, chunk, o);
        if IsOverLimit(heard, stream, o) then FailedWith(heard, BufferError(stream)) else heard
    case Abort =>
      if r.settled || r.aborted || r.timedOut then r
      else Killed(r, SigTerm).(aborted := true, timeoutArmed := false, forceKillArmed := true)
    case TimeoutFires =>
      if r.timeoutArmed then Killed(r, SigTerm).(timedOut := true, timeoutArmed := false, forceKillArmed := true) else r
    case ForceKillFires =>
      if r.forceKillArmed then Killed(r, SigKill).(forceKillArmed := false) else r
    case ChildError => Finalized(r, Rejected(if r.aborted then AbortError else SpawnError))
    case Close(code, signal) =>
      var result := ResultOf(r, code, signal);
      Finalized(r,
        if r.aborted then Rejected(AbortError)
        else if !o.allowNonZeroExit && (r.timedOut || (code.Some? && code.value != 0)) then Rejected(ExitError(result))
        else Resolved(result))
    case StdinFails => if r.aborted then r else FailedWith(r, StdinError)
  }

  /* ---------- The runner ---------- */

  class ProcessRun {
    const options: Options
    var stdout: Bytes
    var stderr: Bytes
    var stdoutBytes: nat
    var stderrBytes: nat
    var stdoutTruncated: bool
    var stderrTruncated: bool
    var timedOut: bool
    var aborted: bool
    var settled: bool
    var timeoutTimer: bool
    var forceKillTimer: bool
    var kills: seq<Signal>
    var outcomes: seq<Outcome>

    ghost function View(): Run
      reads this
    {
      Run(Buffer(stdout, stdoutTruncated), Buffer(stderr, stderrTruncated), timedOut, aborted, settled,
        timeoutTimer, forceKillTimer, kills, outcomes)
    }

    ghost predicate Valid()
      reads this
    {
      Bounded(View(), options) && stdoutBytes == |stdout| && stderrBytes == |stderr|
    }

    constructor (options: Options)
      ensures Valid() && this.options == options && View() == Started(options)
    {
      this.options := options;
      stdout, stderr, stdoutBytes, stderrBytes := [], [], 0, 0;
      stdoutTruncated, stderrTruncated, timedOut, aborted := false, false, false, options.signalAborted;
      settled, timeoutTimer, forceKillTimer := options.signalAborted, !options.signalAborted, false;
      kills, outcomes := [], if options.signalAborted then [Rejected(AbortError)] else [];
    }

    method KillChild(signal: Signal)
      modifies this`kills
      ensures kills == old(kills) + [signal]
    {
      kills := kills + [signal];
    }

    method Finalize(outcome: Outcome)
      requires Valid()
      modifies this`settled, this`timeoutTimer, this`forceKillTimer, this`outcomes
      ensures Valid() && View() == Finalized(old(View()), outcome)
    {
      if settled { return; }
      settled := true;
      timeoutTimer := false;
      forceKillTimer := false;
      outcomes := outcomes + [outcome];
    }

    method Fail(error: Error)
      requires Valid()
      modifies this`settled, this`timeoutTimer, this`forceKillTimer, this`outcomes, this`kills
      ensures Valid() && View() == FailedWith(old(View()), error)
    {
      KillChild(SigTerm);
      Finalize(Rejected(error));
    }

    method AppendOutput(stream: StreamName, chunk: Bytes) returns (error: Option<Error>)
      requires Valid() && !aborted
      modifies this`stdout, this`stderr, this`stdoutBytes, this`stderrBytes, this`stdoutTruncated, this`stderrTruncated
      ensures Valid() && View() == Hear(old(View()), stream, chunk, options)
      ensures error == if IsOverLimit(View(), stream, options) then Some(BufferError(stream)) else None
    {
      if stream.Stdout? {
        if options.truncate {
          var appended := AppendChunkWithinLimit(stdout, chunk, options.maxBufferBytes);
          stdout, stdoutBytes := appended.bytes, |appended.bytes|;
          stdoutTruncated := stdoutTruncated || appended.truncated;
          return None;
        }
        stdout, stdoutBytes := stdout + chunk, stdoutBytes + |chunk|;
        error := if stdoutBytes > options.maxBufferBytes then Some(BufferError(Stdout)) else None;
      } else {
        if options.truncate {
          var appended := AppendChunkWithinLimit(stderr, chunk, options.maxBufferBytes);
          stderr, stderrBytes := appended.bytes, |appended.bytes|;
          stderrTruncated := stderrTruncated || appended.truncated;
          return None;
        }
        stderr, stderrBytes := stderr + chunk, stderrBytes + |chunk|;
        error := if stderrBytes > options.maxBufferBytes then Some(BufferError(Stderr)) else None;
      }
    }

    method OnData(stream: StreamName, chunk: Bytes)
      requires Valid()
      modifies this
      ensures Valid() && View() == Step(old(View()), Data(stream, chunk), options)
    {
      if aborted { return; }
      var error := AppendOutput(stream, chunk);
      if error.Some? {
        Fail(error.value);
      }
    }

    method OnAbort()
      requires Valid()
      modifies this
      ensures Valid() && View() == Step(old(View()), Abort, options)
    {
      if settled || aborted || timedOut { return; }
      aborted := true;
      timeoutTimer := false;
      KillChild(SigTerm);
      forceKillTimer := true;
    }

    method OnTimeout()
      requires Valid()
      modifies this
      ensures Valid() && View() == Step(old(View()), TimeoutFires, options)
    {
      if !timeoutTimer { return; }
      timeoutTimer := false;
      timedOut := true;
      KillChild(SigTerm);
      forceKillTimer := true;
    }

    method OnForceKill()
      requires Valid()
      modifies this
      ensures Valid() && View() == Step(old(View()), ForceKillFires, options)
    {
      if !forceKillTimer { return; }
      forceKillTimer := false;
      KillChild(SigKill);
    }

    method OnChildError()
      requires Valid()
      modifies this
      ensures Valid() && View() == Step(old(View()), ChildError, options)
    {
      Finalize(Rejected(if aborted then AbortError else SpawnError));
    }

    method OnClose(code: Option<int>, signal: Option<string>)
      requires Valid()
      modifies this
      ensures Valid() && View() == Step(old(View()), Close(code, signal), options)
    {
      var result := Result(stdout, stderr, code, signal, timedOut, stdoutTruncated, stderrTruncated);
      if aborted {
        Finalize(Rejected(AbortError));
      } else if !options.allowNonZeroExit && (timedOut || (code.Some? && code.value != 0)) {
        Finalize(Rejected(ExitError(result)));
      } else {
        Finalize(Resolved(result));
      }
    }

    method OnStdinError()
      requires Valid()
      modifies this
      ensures Valid() && View() == Step(old(View()), StdinFails, options)
    {
      if aborted { return; }
      Fail(StdinError);
    }
  }

  /* ---------- Whole runs ---------- */

  lemma StepKeepsBounded(r: Run, e: Event, o: Options)
    requires Bounded(r, o)
    ensures Bounded(Step(r, e, o), o)
  {
  }

  ghost function After(events: seq<Event>, o: Options): (r: Run)
    ensures Bounded(r, o)
  {
    if events == [] then Started(o)
    else
      var k := |events| - 1;
      StepKeepsBounded(After(events[..k], o), events[k], o);
      Step(After(events[..k], o), events[k], o)
  }

  /** What every event keeps. */
  ghost predicate RunInv(r: Run) {
    && |r.outcomes| == (if r.settled then 1 else 0)
    && !(r.timedOut && r.aborted)
    && (r.settled ==> (r.aborted <==> r.outcomes[0] == Rejected(AbortError)))
    && (r.settled ==> !r.timeoutArmed && !r.forceKillArmed)
    && (r.timeoutArmed ==> !r.timedOut && !r.aborted)
    && (!r.settled && !r.timedOut && !r.aborted ==> r.timeoutArmed)
    && (!r.settled && (r.timedOut || r.aborted) ==> r.forceKillArmed || SigKill in r.kills)
  }

  lemma StepKeepsRunInv(r: Run, e: Event, o: Options)
    requires Bounded(r, o) && RunInv(r)
    ensures RunInv(Step(r, e, o))
    ensures r.settled ==> Step(r, e, o).outcomes == r.outcomes
    ensures r.settled ==> Step(r, e, o).aborted == r.aborted && Step(r, e, o).timedOut == r.timedOut
    ensures r.aborted ==> Step(r, e, o).aborted
    ensures r.timedOut ==> Step(r, e, o).timedOut
  {
    hide Appended;
    assert SigKill in r.kills ==> SigKill in r.kills + [SigTerm];
  }

  lemma {:induction false} EveryRunIsSafe(events: seq<Event>, o: Options)
    ensures RunInv(After(events, o))
  {
    if events != [] {
      EveryRunIsSafe(events[..|events| - 1], o);
      StepKeepsRunInv(After(events[..|events| - 1], o), events[|events| - 1], o);
    }
  }

  /** A promise that is settled keeps its one outcome, and a cause that is set stays set. */
  lemma {:induction false} OutcomeIsFinal(events: seq<Event>, o: Options, i: nat)
    requires i <= |events|
    ensures var before, after := After(events[..i], o), After(events, o);
      && |after.outcomes| <= 1
      && (before.settled ==> after.settled && after.outcomes == before.outcomes)
      && (before.aborted ==> after.aborted) && (before.timedOut ==> after.timedOut)
  {
    EveryRunIsSafe(events, o);
    if i == |events| {
      assert events[..i] == events;
    } else {
      var k := |events| - 1;
      assert events[..k][..i] == events[..i];
      OutcomeIsFinal(events[..k], o, i);
      EveryRunIsSafe(events[..k], o);
      StepKeepsRunInv(After(events[..k], o), events[k], o);
    }
  }

  /** An abort that comes before settlement and before the timeout decides: nothing but the abort error can follow. */
  lemma AbortDecides(events: seq<Event>, o: Options, i: nat)
    requires i < |events| && events[i].Abort?
    requires !After(events[..i], o).settled && !After(events[..i], o).timedOut
    ensures var r := After(events, o); !r.timedOut && r.outcomes == if r.settled then [Rejected(AbortError)] else []
  {
    var prefix := events[..i + 1];
    assert prefix[..i] == events[..i] && prefix[i] == events[i];
    assert After(prefix, o).aborted;
    OutcomeIsFinal(events, o, i + 1);
    EveryRunIsSafe(events, o);
  }

  /** A timeout that comes first is never relabelled an abort. */
  lemma TimeoutDecides(events: seq<Event>, o: Options, i: nat)
    requires i < |events| && After(events[..i], o).timedOut
    ensures var r := After(events, o); !r.aborted && Rejected(AbortError) !in r.outcomes
  {
    hide After;
    OutcomeIsFinal(events, o, i);
    EveryRunIsSafe(events, o);
  }

  /* ---------- What a run has heard ---------- */

  /** The events before the abort took effect: later output is dropped. */
  ghost function Heard(events: seq<Event>, o: Options): seq<Event> {
    if events == [] then []
    else
      var k := |events| - 1;
      Heard(events[..k], o) + if After(events[..k], o).aborted then [] else [events[k]]
  }

  lemma AbortStays(events: seq<Event>, o: Options, i: nat)
    requires i <= |events|
    ensures After(events[..i], o).aborted ==> After(events, o).aborted
  {
    hide After;
    OutcomeIsFinal(events, o, i);
  }

  lemma {:induction false} EverythingIsHeardWithoutAbort(events: seq<Event>, o: Options)
    requires !After(events, o).aborted
    ensures Heard(events, o) == events
  {
    if events != [] {
      var k := |events| - 1;
      hide After;
      AbortStays(events, o, k);
      EverythingIsHeardWithoutAbort(events[..k], o);
      assert events == events[..k] + [events[k]];
    }
  }

  function Chunks(events: seq<Event>, stream: StreamName): seq<Bytes> {
    if events == [] then []
    else
      var k := |events| - 1;
      Chunks(events[..k], stream) + if events[k].Data? && events[k].stream == stream then [events[k].chunk] else []
  }

  /** A chunk that finds the buffer full, or does not fit what is left of it. */
  ghost predicate OverflowsAt(chunks: seq<Bytes>, i: nat, limit: int)
    requires i < |chunks|
  {
    limit <= |Concat(chunks[..i])| || limit < |Concat(chunks[..i])| + |chunks[i]|
  }

  ghost predicate Overflows(chunks: seq<Bytes>, limit: int) {
    exists i :: 0 <= i < |chunks| && OverflowsAt(chunks, i, limit)
  }

  ghost function Kept(bytes: Bytes, limit: int): Bytes {
    if limit <= 0 then [] else if |bytes| <= limit then bytes else bytes[..limit]
  }

  ghost predicate Holds(b: Buffer, chunks: seq<Bytes>, o: Options) {
    if o.truncate then b == Buffer(Kept(Concat(chunks), o.maxBufferBytes), Overflows(chunks, o.maxBufferBytes))
    else b == Buffer(Concat(chunks), false)
  }

  lemma OverflowsSnoc(chunks: seq<Bytes>, chunk: Bytes, limit: int)
    ensures Overflows(chunks + [chunk], limit)
      <==> Overflows(chunks, limit) || limit <= |Concat(chunks)| || limit < |Concat(chunks)| + |chunk|
  {
    var all := chunks + [chunk];
    assert all[..|chunks|] == chunks;
    forall i | 0 <= i < |chunks| ensures OverflowsAt(all, i, limit) <==> OverflowsAt(chunks, i, limit) {
      assert all[..i] == chunks[..i];
    }
    if Overflows(chunks, limit) {
      var i :| 0 <= i < |chunks| && OverflowsAt(chunks, i, limit);
      assert OverflowsAt(all, i, limit);
    }
    assert OverflowsAt(all, |chunks|, limit) <==> limit <= |Concat(chunks)| || limit < |Concat(chunks)| + |chunk|;
  }

  lemma AppendHolds(b: Buffer, chunks: seq<Bytes>, chunk: Bytes, o: Options)
    requires Fits(b, o) && Holds(b, chunks, o)
    ensures Holds(Appended(b, chunk, o), chunks + [chunk], o)
  {
    var all := chunks + [chunk];
    assert all[..|chunks|] == chunks;
    assert Concat(all) == Concat(chunks) + chunk;
    OverflowsSnoc(chunks, chunk, o.maxBufferBytes);
    hide Overflows;
    if o.truncate {
      var r := AppendChunkWithinLimit(b.bytes, chunk, o.maxBufferBytes).bytes;
      assert r == (b.bytes + chunk)[..|r|];
      assert r == Kept(Concat(all), o.maxBufferBytes);
    }
  }

  lemma StepBuffers(r: Run, e: Event, o: Options, stream: StreamName)
    requires Bounded(r, o)
    ensures BufferOf(Step(r, e, o), stream)
      == if e.Data? && e.stream == stream && !r.aborted then Appended(BufferOf(r, stream), e.chunk, o)
        else BufferOf(r, stream)
  {
    hide Appended, Fits;
  }

  lemma HeardChunks(events: seq<Event>, o: Options, stream: StreamName)
    requires events != []
    ensures var k := |events| - 1; var before := Chunks(Heard(events[..k], o), stream);
      Chunks(Heard(events, o), stream)
      == if events[k].Data? && events[k].stream == stream
        && !After(events[..k], o).aborted then before + [events[k].chunk] else before
  {
    hide After;
    var k := |events| - 1;
    var heard := Heard(events[..k], o);
    if After(events[..k], o).aborted {
      assert heard + [] == heard;
    } else {
      assert (heard + [events[k]])[..|heard|] == heard;
      assert Chunks(heard, stream) + [] == Chunks(heard, stream);
    }
  }

  /** At any time the buffers hold what was heard: all of it, or in truncate mode its first bytes up to the limit. */
  lemma {:induction false} BuffersHoldWhatWasHeard(events: seq<Event>, o: Options, stream: StreamName)
    ensures Holds(BufferOf(After(events, o), stream), Chunks(Heard(events, o), stream), o)
  {
    if events != [] {
      hide Step, Holds, Appended, BufferOf, Chunks, Heard;
      var k := |events| - 1;
      var r, before := After(events[..k], o), Chunks(Heard(events[..k], o), stream);
      BuffersHoldWhatWasHeard(events[..k], o, stream);
      StepBuffers(r, events[k], o, stream);
      HeardChunks(events, o, stream);
      if events[k].Data? && events[k].stream == stream && !r.aborted {
        BufferFits(r, o, stream);
        AppendHolds(BufferOf(r, stream), before, events[k].chunk, o);
      }
    }
  }

  lemma BufferFits(r: Run, o: Options, stream: StreamName)
    requires Bounded(r, o)
    ensures Fits(BufferOf(r, stream), o)
  {
  }

  lemma AfterSnoc(events: seq<Event>, o: Options)
    requires events != []
    ensures After(events, o) == Step(After(events[..|events| - 1], o), events[|events| - 1], o)
  {
  }

  lemma OpenStepIsWithinTheLimit(r: Run, e: Event, o: Options, stream: StreamName)
    requires !o.truncate && Bounded(r, o) && !Step(r, e, o).settled
    requires var bytes := BufferOf(r, stream).bytes; bytes == [] || |bytes| <= o.maxBufferBytes
    ensures var bytes := BufferOf(Step(r, e, o), stream).bytes; bytes == [] || |bytes| <= o.maxBufferBytes
  {
  }

  /** In error mode a run that is still open is within the limit. */
  lemma {:induction false} OpenRunsAreWithinTheLimit(events: seq<Event>, o: Options, stream: StreamName)
    requires !o.truncate && !After(events, o).settled
    ensures var bytes := BufferOf(After(events, o), stream).bytes; bytes == [] || |bytes| <= o.maxBufferBytes
  {
    if events != [] {
      hide RunInv, After;
      var k := |events| - 1;
      OutcomeIsFinal(events, o, k);
      OpenRunsAreWithinTheLimit(events[..k], o, stream);
      OpenStepIsWithinTheLimit(After(events[..k], o), events[k], o, stream);
      AfterSnoc(events, o);
    }
  }

  /* ---------- What each event brings about ---------- */

  lemma AfterPrefix(events: seq<Event>, o: Options, i: nat)
    requires i < |events|
    ensures After(events[..i + 1], o) == Step(After(events[..i], o), events[i], o)
    ensures After(events[..i + 1], o).settled ==> After(events, o).outcomes == After(events[..i + 1], o).outcomes
  {
    assert events[..i + 1][..i] == events[..i] && events[..i + 1][i] == events[i];
    AfterSnoc(events[..i + 1], o);
    OutcomeIsFinal(events, o, i + 1);
  }

  /** The run resolves at a close with this code, as far as code and timeout go. */
  predicate GoodExit(o: Options, timedOut: bool, code: Option<int>) {
    o.allowNonZeroExit || (!timedOut && (code == None || code == Some(0)))
  }

  /** The close of the child settles an open run for ever: with the abort error, the result, or the exit error. */
  lemma CloseSettles(events: seq<Event>, o: Options, i: nat)
    requires i < |events| && events[i].Close? && !After(events[..i], o).settled
    ensures var r, e, outcomes := After(events[..i], o), events[i], After(events, o).outcomes;
      var result := Result(r.stdout.bytes, r.stderr.bytes, e.code, e.signal, r.timedOut,
                           r.stdout.truncated, r.stderr.truncated);
      && (r.aborted ==> outcomes == [Rejected(AbortError)])
      && (!r.aborted ==> (outcomes == [Resolved(result)] <==> GoodExit(o, r.timedOut, e.code)))
      && (!r.aborted && !GoodExit(o, r.timedOut, e.code) ==> outcomes == [Rejected(ExitError(result))])
  {
    hide After;
    AfterPrefix(events, o, i);
    EveryRunIsSafe(events[..i], o);
    var outcomes := After(events, o).outcomes;
    assert |outcomes| == 1;
    assert forall x :: outcomes == [x] ==> outcomes[0] == x;
  }

  /** An error of the child or of its input settles an open run for ever; the latter also stops the child. */
  lemma ErrorsSettle(events: seq<Event>, o: Options, i: nat)
    requires i < |events| && !After(events[..i], o).settled
    ensures var r, outcomes := After(events[..i], o), After(events, o).outcomes;
      && (events[i].ChildError? ==> outcomes == [Rejected(if r.aborted then AbortError else SpawnError)])
      && (events[i].StdinFails? && !r.aborted ==>
            outcomes == [Rejected(StdinError)] && After(events[..i + 1], o).kills == r.kills + [SigTerm])
      && (events[i].StdinFails? && r.aborted ==> After(events[..i + 1], o) == r)
  {
    hide After;
    AfterPrefix(events, o, i);
    EveryRunIsSafe(events[..i], o);
  }

  /** A chunk settles an open run exactly when, in error mode, what its stream has said is then over the limit. */
  lemma OutputSettlesIff(events: seq<Event>, o: Options, i: nat)
    requires i < |events| && events[i].Data? && !After(events[..i], o).settled && !After(events[..i], o).aborted
    ensures var stream := events[i].stream; var r := After(events[..i + 1], o);
      && (r.settled <==> !o.truncate && |Concat(Chunks(events[..i + 1], stream))| > o.maxBufferBytes)
      && (r.settled ==> After(events, o).outcomes == [Rejected(BufferError(stream))])
      && (r.settled ==> r.kills == After(events[..i], o).kills + [SigTerm])
  {
    var prefix := events[..i + 1];
    assert prefix[..i] == events[..i];
    AfterPrefix(events, o, i);
    EveryRunIsSafe(events[..i], o);
    assert !After(prefix, o).aborted;
    hide After;
    BuffersHoldWhatWasHeard(prefix, o, events[i].stream);
    EverythingIsHeardWithoutAbort(prefix, o);
  }

  /** The timeout and an abort each stop a run that is open and not told to stop before; the forced kill follows. */
  lemma StopsTheChild(events: seq<Event>, o: Options, i: nat)
    requires i < |events|
    ensures var r, s, e := After(events[..i], o), After(events[..i + 1], o), events[i];
      var running := !r.settled && !r.timedOut && !r.aborted;
      && (e.TimeoutFires? && running ==> s.timedOut && s.kills == r.kills + [SigTerm] && s.forceKillArmed)
      && (e.Abort? && running ==> s.aborted && !s.timeoutArmed && s.kills == r.kills + [SigTerm] && s.forceKillArmed)
      && (e.ForceKillFires? && !r.settled && (r.timedOut || r.aborted) ==> SigKill in s.kills)
      && ((e.TimeoutFires? || e.Abort?) && !running ==> s.timedOut == r.timedOut && s.aborted == r.aborted)
  {
    hide After;
    AfterPrefix(events, o, i);
    EveryRunIsSafe(events[..i], o);
    var r := After(events[..i], o);
    assert (r.kills + [SigKill])[|r.kills|] == SigKill;
  }

  /* ---------- Why a run rejects ---------- */

  lemma StepFlags(r: Run, e: Event, o: Options)
    requires Bounded(r, o)
    ensures Step(r, e, o).aborted ==> r.aborted || e.Abort?
    ensures Step(r, e, o).timedOut ==> r.timedOut || e.TimeoutFires?
  {
    hide Appended, IsOverLimit;
  }

  lemma {:induction false} AbortedByAbort(events: seq<Event>, o: Options)
    requires After(events, o).aborted
    ensures o.signalAborted || exists j :: 0 <= j < |events| && events[j].Abort?
  {
    if events != [] {
      var k := |events| - 1;
      AfterSnoc(events, o);
      StepFlags(After(events[..k], o), events[k], o);
      hide After, Step;
      if After(events[..k], o).aborted { AbortedByAbort(events[..k], o); }
    }
  }

  lemma {:induction false} TimedOutByTimeout(events: seq<Event>, o: Options)
    requires After(events, o).timedOut
    ensures exists j :: 0 <= j < |events| && events[j].TimeoutFires?
  {
    if events != [] {
      var k := |events| - 1;
      AfterSnoc(events, o);
      StepFlags(After(events[..k], o), events[k], o);
      hide After, Step;
      if After(events[..k], o).timedOut { TimedOutByTimeout(events[..k], o); }
    }
  }

  /** The event that made a run reject with this error, in the state in which it came. */
  ghost predicate Causes(events: seq<Event>, o: Options, i: nat, error: Error)
    requires i < |events|
  {
    var r := After(events[..i], o);
    match error
    case AbortError => (events[i].Close? || events[i].ChildError?) && r.aborted
    case SpawnError => events[i].ChildError? && !r.aborted
    case StdinError => events[i].StdinFails? && !r.aborted
    case BufferError(stream) =>
      && events[i].Data? && events[i].stream == stream && !o.truncate
      && |Concat(Chunks(Heard(events[..i + 1], o), stream))| > o.maxBufferBytes
    case ExitError(result) =>
      && events[i].Close? && !r.aborted && !o.allowNonZeroExit && result.code == events[i].code
      && result.timedOut == r.timedOut && (r.timedOut || (result.code.Some? && result.code.value != 0))
  }

  /** What the step itself tells of the cause. */
  lemma StepTells(r: Run, e: Event, o: Options, error: Error)
    requires RunInv(r) && Bounded(r, o)
    requires Rejected(error) in Step(r, e, o).outcomes && Rejected(error) !in r.outcomes
    ensures error.AbortError? ==> (e.Close? || e.ChildError?) && r.aborted
    ensures error.SpawnError? ==> e.ChildError? && !r.aborted
    ensures error.StdinError? ==> e.StdinFails? && !r.aborted
    ensures error.BufferError? ==>
      e.Data? && e.stream == error.stream && !r.aborted && IsOverLimit(Hear(r, e.stream, e.chunk, o), e.stream, o)
    ensures error.ExitError? ==>
      && e.Close? && error.result == ResultOf(r, e.code, e.signal) && !r.aborted && !o.allowNonZeroExit
      && (r.timedOut || (e.code.Some? && e.code.value != 0))
  {
    hide IsOverLimit, Appended;
  }

  lemma StepRejects(events: seq<Event>, o: Options, error: Error)
    requires events != []
    requires Rejected(error) in After(events, o).outcomes
    requires Rejected(error) !in After(events[..|events| - 1], o).outcomes
    ensures Causes(events, o, |events| - 1, error)
  {
    var k := |events| - 1;
    hide After, Concat, Chunks, Heard;
    AfterSnoc(events, o);
    EveryRunIsSafe(events[..k], o);
    assert events[..k + 1] == events;
    StepTells(After(events[..k], o), events[k], o, error);
    if error.BufferError? {
      BuffersHoldWhatWasHeard(events, o, error.stream);
      hide Appended;
    } else {
      hide Step;
    }
  }

  /** Every rejection has its cause: nothing else makes a run reject. */
  lemma {:induction false} RejectionHasACause(events: seq<Event>, o: Options, error: Error) returns (i: nat)
    requires Rejected(error) in After(events, o).outcomes && !o.signalAborted
    ensures i < |events| && Causes(events, o, i, error)
    ensures error.AbortError? ==> exists j :: 0 <= j < i && events[j].Abort?
    ensures error.ExitError? && error.result.timedOut ==> exists j :: 0 <= j < i && events[j].TimeoutFires?
  {
    i := |events| - 1;
    var init := events[..i];
    if Rejected(error) in After(init, o).outcomes {
      hide After;
      i := RejectionHasACause(init, o, error);
      assert init[..i] == events[..i] && init[..i + 1] == events[..i + 1] && init[i] == events[i];
      assert forall j :: 0 <= j < i ==> init[j] == events[j];
    } else {
      StepRejects(events, o, error);
      hide After;
      if error.AbortError? { AbortedByAbort(init, o); }
      if error.ExitError? && error.result.timedOut { TimedOutByTimeout(init, o); }
    }
  }

  lemma OnlyACloseResolves(r: Run, e: Event, o: Options, result: Result)
    requires Bounded(r, o) && RunInv(r)
    requires Resolved(result) in Step(r, e, o).outcomes && Resolved(result) !in r.outcomes
    ensures e.Close? && !r.settled && !r.aborted && result == ResultOf(r, e.code, e.signal)
    ensures !o.allowNonZeroExit ==> !r.timedOut && (e.code == None || e.code == Some(0))
  {
    hide Appended, Fits;
  }

  /** A run resolves only at a close of the child, with what the buffers hold then. */
  lemma {:induction false} ResolvedAtClose(events: seq<Event>, o: Options, result: Result) returns (i: nat)
    requires Resolved(result) in After(events, o).outcomes
    ensures i < |events| && events[i].Close?
    ensures var r := After(events[..i], o);
      !r.settled && !r.aborted && result == ResultOf(r, events[i].code, events[i].signal)
    ensures !o.allowNonZeroExit ==> !result.timedOut && (result.code == None || result.code == Some(0))
  {
    hide Step, RunInv;
    i := |events| - 1;
    EveryRunIsSafe(events[..i], o);
    if Resolved(result) in After(events[..i], o).outcomes {
      var init := events[..i];
      i := ResolvedAtClose(init, o, result);
      assert init[..i] == events[..i];
    } else {
      OnlyACloseResolves(After(events[..i], o), events[i], o, result);
    }
  }

  /** In error mode a resolved run holds the complete output up to the close, and that is within the limit. */
  lemma ResolvedOutputIsComplete(events: seq<Event>, o: Options, result: Result) returns (i: nat)
    requires !o.truncate && Resolved(result) in After(events, o).outcomes
    ensures i < |events| && events[i].Close?
    ensures result.stdout == Concat(Chunks(events[..i], Stdout)) && result.stderr == Concat(Chunks(events[..i], Stderr))
    ensures result.stdout == [] || |result.stdout| <= o.maxBufferBytes
    ensures result.stderr == [] || |result.stderr| <= o.maxBufferBytes
    ensures !result.stdoutTruncated && !result.stderrTruncated
  {
    i := ResolvedAtClose(events, o, result);
    EverythingIsHeardWithoutAbort(events[..i], o);
    BuffersHoldWhatWasHeard(events[..i], o, Stdout);
    BuffersHoldWhatWasHeard(events[..i], o, Stderr);
    OpenRunsAreWithinTheLimit(events[..i], o, Stdout);
    OpenRunsAreWithinTheLimit(events[..i], o, Stderr);
  }

  /**
   In truncate mode it holds the first bytes up to the limit, and says for each stream whether a chunk did not
   fit.
   */
  lemma ResolvedOutputIsAPrefix(events: seq<Event>, o: Options, result: Result) returns (i: nat)
    requires o.truncate && Resolved(result) in After(events, o).outcomes
    ensures i < |events| && events[i].Close?
    ensures result.stdout == Kept(Concat(Chunks(events[..i], Stdout)), o.maxBufferBytes)
    ensures result.stderr == Kept(Concat(Chunks(events[..i], Stderr)), o.maxBufferBytes)
    ensures result.stdoutTruncated <==> Overflows(Chunks(events[..i], Stdout), o.maxBufferBytes)
    ensures result.stderrTruncated <==> Overflows(Chunks(events[..i], Stderr), o.maxBufferBytes)
  {
    i := ResolvedAtClose(events, o, result);
    EverythingIsHeardWithoutAbort(events[..i], o);
    BuffersHoldWhatWasHeard(events[..i], o, Stdout);
    BuffersHoldWhatWasHeard(events[..i], o, Stderr);
  }

  ghost predicate FindsBufferFull(chunks: seq<Bytes>, limit: int) {
    exists i :: 0 <= i < |chunks| && limit <= |Concat(chunks[..i])|
  }

  /** The flag says that bytes were lost, or that some chunk, perhaps an empty one, found the buffer full. */
  lemma {:induction false} OverflowsIff(chunks: seq<Bytes>, limit: nat)
    ensures Overflows(chunks, limit) <==> limit < |Concat(chunks)| || FindsBufferFull(chunks, limit)
    ensures (forall i :: 0 <= i < |chunks| ==> chunks[i] != []) ==>
      (Overflows(chunks, limit) <==> limit < |Concat(chunks)|)
  {
    if chunks != [] {
      var k := |chunks| - 1;
      var init := chunks[..k];
      OverflowsIff(init, limit);
      OverflowsSnoc(init, chunks[k], limit);
      assert chunks == init + [chunks[k]];
      assert FindsBufferFull(chunks, limit) <==> FindsBufferFull(init, limit) || limit <= |Concat(init)| by {
        hide Concat;
        assert forall i :: 0 <= i < k ==> init[..i] == chunks[..i];
        if FindsBufferFull(init, limit) {
          var i :| 0 <= i < k && limit <= |Concat(init[..i])|;
          assert limit <= |Concat(chunks[..i])|;
        }
        if FindsBufferFull(chunks, limit) {
          var i :| 0 <= i <= k && limit <= |Concat(chunks[..i])|;
          assert i < k ==> limit <= |Concat(init[..i])|;
        }
      }
    }
  }

  /**
   As `AppendChunkWithinLimit` goes, an empty chunk after exactly the limit is reported as truncation although
   nothing is lost.
   */
  lemma EmptyChunkIsReported()
    ensures var chunks: seq<Bytes> := [[7], []]; Overflows(chunks, 1) && Kept(Concat(chunks), 1) == Concat(chunks)
  {
    var chunks: seq<Bytes> := [[7], []];
    assert chunks[..1] == [[7]] && Concat([[7]]) == Concat([]) + [7] == [7] by { assert [[7 as bv8]][..0] == []; }
    assert Concat(chunks) == [7] + [];
    assert OverflowsAt(chunks, 1, 1);
  }
}
