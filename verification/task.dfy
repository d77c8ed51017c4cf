/** `FileCompressTask::call`: compressing one file. The file system, the
    input stream and the compressed-stream sink are abstract: what the
    task observes of them is passed in, and the model states what the task
    decides and returns. */
module Task {
  import opened Wrappers
  import opened Text
  import opened Errors
  import Paths
  import Listeners
  import opened Jobs

  /** What `stat` reports about a path. */
  datatype PathKind = Missing | Directory | NotDirectory

  /** The file-system questions the driver asks: `stat`, `samePaths`,
      whether an `ofstream` can be created and whether an `ifstream` opens. */
  datatype FileSystem = FileSystem(
    kind: string -> PathKind,
    samePath: (string, string) -> bool,
    canCreate: string -> bool,
    canOpen: string -> bool)

  /** Where the compressed bytes go. */
  datatype Sink = NullSink | StdoutSink | FileSink

  /** One file's unit of work, as the driver builds it. */
  datatype TaskSpec = TaskSpec(
    inputName: string,
    outputName: string,
    overwrite: bool,
    checksum: bool,
    codec: string,
    transform: string,
    blockSize: int,
    jobs: int,
    listeners: seq<Listeners.Listener>)

  /** `FileCompressResult`: code 0 is success. */
  datatype TaskResult = TaskResult(code: int, read: int, written: int)

  /** Events sent to every registered listener. */
  datatype Event = CompressionStart | CompressionEnd(written: int)

  /** A task either returns its result (with the events it sent), or the
      sink fails to close and the process exits with `ERR_WRITE_FILE` after
      sending `sent`. */
  datatype TaskOutcome =
    | Returned(result: TaskResult, events: seq<Event>)
    | ProcessExit(code: int, sent: seq<Event>)

  /** Choosing and checking the output target (lines 555-591), in the order
      the code does it. Special outputs skip every file check. */
  function OpenOutput(t: TaskSpec, fs: FileSystem): (r: Result<Sink, int>)
    ensures Paths.IsSpecialOutput(t.outputName) <==> r.Success? && r.value != FileSink
    ensures !Paths.IsSpecialOutput(t.outputName) && fs.samePath(t.inputName, t.outputName)
      ==> r == Failure(ERR_CREATE_FILE)
    ensures (!Paths.IsSpecialOutput(t.outputName) && !fs.samePath(t.inputName, t.outputName)
      && fs.kind(t.outputName).Directory?) ==> r == Failure(ERR_OUTPUT_IS_DIR)
    ensures r == Failure(ERR_OVERWRITE_FILE) <==>
      !Paths.IsSpecialOutput(t.outputName) && !fs.samePath(t.inputName, t.outputName)
      && fs.kind(t.outputName).NotDirectory? && !t.overwrite
    ensures r == Success(FileSink) <==>
      !Paths.IsSpecialOutput(t.outputName)
      && !fs.samePath(t.inputName, t.outputName) && !fs.kind(t.outputName).Directory?
      && (fs.kind(t.outputName).Missing? || t.overwrite) && fs.canCreate(t.outputName)
    ensures (!Paths.IsSpecialOutput(t.outputName)
      && !fs.samePath(t.inputName, t.outputName) && !fs.kind(t.outputName).Directory?
      && (fs.kind(t.outputName).Missing? || t.overwrite) && !fs.canCreate(t.outputName))
      ==> r == Failure(ERR_CREATE_FILE)
    ensures Paths.IsSpecialOutput(t.outputName) && Paths.PrefixIgnoringCase(t.outputName, "NONE")
      ==> r == Success(NullSink)
    ensures Paths.IsSpecialOutput(t.outputName) && !Paths.PrefixIgnoringCase(t.outputName, "NONE")
      ==> r == Success(StdoutSink)
  {
    if Paths.IsSpecialOutput(t.outputName) then
      if HasPrefix(Upper(t.outputName), "NONE") then Success(NullSink) else Success(StdoutSink)
    else if fs.samePath(t.inputName, t.outputName) then Failure(ERR_CREATE_FILE)
    else if fs.kind(t.outputName).Directory? then Failure(ERR_OUTPUT_IS_DIR)
    else if fs.kind(t.outputName).NotDirectory? && !t.overwrite then Failure(ERR_OVERWRITE_FILE)
    else if !fs.canCreate(t.outputName) then Failure(ERR_CREATE_FILE)
    else Success(FileSink)
  }

  /** A special output is decided without looking at the file system or at
      the overwrite flag. */
  lemma SpecialOutputSkipsChecks(t: TaskSpec, fs1: FileSystem, fs2: FileSystem, overwrite: bool)
    requires Paths.IsSpecialOutput(t.outputName)
    ensures OpenOutput(t, fs1) == OpenOutput(t.(overwrite := overwrite), fs2)
  {
  }

  /** With overwriting allowed, an existing file is never the reason for a
      refusal, and anything accepted without it is still accepted. */
  lemma OverwriteOnlyRelaxes(t: TaskSpec, fs: FileSystem)
    ensures OpenOutput(t.(overwrite := true), fs) != Failure(ERR_OVERWRITE_FILE)
    ensures OpenOutput(t.(overwrite := false), fs).Success? ==> OpenOutput(t.(overwrite := true), fs).Success?
  {
  }

  /** How the compressed stream's constructor ends: built, rejected with
      `IllegalArgumentException` (bad codec, transform or block size), or
      failed with any other exception. */
  datatype SinkSetup = Built | BadArgument | OtherFailure

  /** What one `read` on the input returns: a length (the buffer size, or
      `gcount()` at the end of the input) or a thrown exception. */
  datatype ReadStep = Got(len: int) | ReadFault

  /** How the sink takes one `write`: it accepts the bytes, or throws an
      `IOException` carrying an error code, or throws anything else. */
  datatype WriteStep = Accepted | IoFault(code: int) | OtherFault

  /** Everything the task observes of its input and its sink. `getWritten`
      is the sink's byte counter as a function of the chunks it was given
      and of whether it was closed. */
  datatype TaskEnv = TaskEnv(
    setup: SinkSetup,
    inputs: seq<ReadStep>,
    writes: seq<WriteStep>,
    closeFails: bool,
    getWritten: (seq<int>, bool) -> int)

  datatype LoopEnd = Drained | ReadFailed | WriteFailed(fault: WriteStep)

  /** State of the read loop when it stops: how it stopped, the bytes read
      (the `read` counter) and the chunk lengths forwarded to the sink, in
      order (the sink's append-only log). */
  datatype Pumped = Pumped(end: LoopEnd, read: int, log: seq<int>)

  /** The chunks read so far were all forwarded, in order. */
  ghost predicate Forwarded(inputs: seq<ReadStep>, log: seq<int>) {
    |log| <= |inputs| && forall k :: 0 <= k < |log| ==> log[k] > 0 && inputs[k] == Got(log[k])
  }

  /** The read loop (lines 660-677) from read number `|log|` on. A read of
      `len > 0` bytes is counted and forwarded; `len <= 0` or running out of
      inputs ends the input; a read exception stops with the counts so far; a
      write exception stops after the chunk was counted as read but before
      it reached the log. */
  function Pump(inputs: seq<ReadStep>, writes: seq<WriteStep>, read: int, log: seq<int>): (p: Pumped)
    requires |log| <= |inputs|
    ensures |log| <= |p.log| <= |inputs|
    decreases |inputs| - |log|
  {
    var i := |log|;
    if i == |inputs| then Pumped(Drained, read, log)
    else match inputs[i]
      case ReadFault => Pumped(ReadFailed, read, log)
      case Got(len) =>
        if len <= 0 then Pumped(Drained, read, log)
        else if i < |writes| && !writes[i].Accepted? then Pumped(WriteFailed(writes[i]), read + len, log)
        else Pump(inputs, writes, read + len, log + [len])
  }

  /** How the loop can have stopped, given what it has done so far. */
  ghost predicate StoppedProperly(inputs: seq<ReadStep>, writes: seq<WriteStep>, p: Pumped) {
    Forwarded(inputs, p.log)
    && (p.end.Drained? ==> (p.read == Sum(p.log)
         && (|p.log| == |inputs| || (inputs[|p.log|].Got? && inputs[|p.log|].len <= 0))))
    && (p.end.ReadFailed? ==> (p.read == Sum(p.log) && |p.log| < |inputs| && inputs[|p.log|] == ReadFault))
    && (p.end.WriteFailed? ==>
         (|p.log| < |inputs| && inputs[|p.log|].Got? && inputs[|p.log|].len > 0
          && p.read == Sum(p.log) + inputs[|p.log|].len
          && |p.log| < |writes| && writes[|p.log|] == p.end.fault && !p.end.fault.Accepted?))
  }

  /** The loop keeps its log a prefix of the reads it made, keeps `read`
      equal to what it forwarded, and stops only for one of the three
      reasons. */
  lemma {:induction false} PumpSound(inputs: seq<ReadStep>, writes: seq<WriteStep>, read: int, log: seq<int>)
    requires Forwarded(inputs, log) && read == Sum(log)
    ensures StoppedProperly(inputs, writes, Pump(inputs, writes, read, log))
    ensures Pump(inputs, writes, read, log).log[..|log|] == log
    decreases |inputs| - |log|
  {
    var i := |log|;
    if i < |inputs| && inputs[i].Got? && inputs[i].len > 0 && !(i < |writes| && !writes[i].Accepted?) {
      var log' := log + [inputs[i].len];
      assert log'[..|log'| - 1] == log;
      PumpSound(inputs, writes, read + inputs[i].len, log');
      var p := Pump(inputs, writes, read + inputs[i].len, log');
      assert p.log[..|log|] == p.log[..|log'|][..|log|];
    }
  }

  /** The loop from the start: nothing read, nothing forwarded. */
  function ReadLoop(inputs: seq<ReadStep>, writes: seq<WriteStep>): (p: Pumped)
    ensures StoppedProperly(inputs, writes, p)
  {
    PumpSound(inputs, writes, 0, []);
    Pump(inputs, writes, 0, [])
  }

  /** A sum of chunk lengths that were all positive is positive unless
      there were none. */
  lemma {:induction false} SumOfPositives(log: seq<int>)
    requires forall k :: 0 <= k < |log| ==> log[k] > 0
    ensures Sum(log) >= 0
    ensures Sum(log) == 0 <==> |log| == 0
  {
    if |log| > 0 {
      SumOfPositives(log[..|log| - 1]);
    }
  }

  /** `str.compare(0, 5, "STDIN") == 0` after upper-casing. */
  predicate IsStdin(name: string) {
    HasPrefix(Upper(name), "STDIN")
  }

  /** Whether the input can be opened (lines 619-640). */
  predicate InputOpens(t: TaskSpec, fs: FileSystem) {
    IsStdin(t.inputName) || fs.canOpen(t.inputName)
  }

  /** Every error code an `IOException` of the sink carries is non-zero. */
  predicate FaultCodesNonZero(env: TaskEnv) {
    forall k :: 0 <= k < |env.writes| && env.writes[k].IoFault? ==> env.writes[k].code != 0
  }

  /** The whole task (lines 540-754) and its clean-up (lines 756-803).
      Failures before the compressed stream exists return zero counts and
      send no event. Once the stream exists it is closed on every path: by
      `dispose` before the summary on success, by the destructor when the
      driver deletes the task otherwise. A failing close ends the process
      with `ERR_WRITE_FILE`; only the start event has been sent by then. */
  function RunTask(t: TaskSpec, fs: FileSystem, env: TaskEnv): (o: TaskOutcome)
    ensures OpenOutput(t, fs).Failure? ==>
      o == Returned(TaskResult(OpenOutput(t, fs).error, 0, 0), [])
    ensures OpenOutput(t, fs).Success? && env.setup.BadArgument? ==>
      o == Returned(TaskResult(ERR_CREATE_COMPRESSOR, 0, 0), [])
    ensures o.ProcessExit? <==> OpenOutput(t, fs).Success? && env.setup.Built? && env.closeFails
    ensures o.ProcessExit? ==> o.code == ERR_WRITE_FILE && (o.sent == [] || o.sent == [CompressionStart])
    ensures OpenOutput(t, fs).Success? && env.setup.OtherFailure? ==>
      o == Returned(TaskResult(ERR_CREATE_FILE, 0, 0), [])
    ensures OpenOutput(t, fs).Success? && env.setup.Built? && !env.closeFails && !InputOpens(t, fs) ==>
      o == Returned(TaskResult(ERR_OPEN_FILE, 0, 0), [])
    ensures OpenOutput(t, fs).Success? && env.setup.Built? && !env.closeFails && InputOpens(t, fs) ==>
      var p := ReadLoop(env.inputs, env.writes);
      var start := if |t.listeners| > 0 then [CompressionStart] else [];
      && (p.end.ReadFailed? ==>
            o == Returned(TaskResult(ERR_READ_FILE, p.read, env.getWritten(p.log, false)), start))
      && (p.end.WriteFailed? && p.end.fault.IoFault? ==>
            o == Returned(TaskResult(p.end.fault.code, env.getWritten(p.log, false), 0), start))
      && (p.end.WriteFailed? && p.end.fault.OtherFault? ==>
            o == Returned(TaskResult(ERR_UNKNOWN, p.read, env.getWritten(p.log, false)), start))
    ensures o.Returned? && o.result.code == 0 && FaultCodesNonZero(env) ==>
      var p := ReadLoop(env.inputs, env.writes);
      p.end.Drained? && o.result.read == Sum(p.log) && Forwarded(env.inputs, p.log)
    ensures o.Returned? && o.result.code != 0 && OpenOutput(t, fs).Success? && env.setup.Built? ==>
      !ReadLoop(env.inputs, env.writes).end.Drained? || !InputOpens(t, fs)
    ensures o.Returned? && |o.events| > 0 ==> |t.listeners| > 0 && o.events[0] == CompressionStart
    ensures o.Returned? && CompressionEnd(o.result.written) in o.events ==>
      o.result.code == 0 && o.result.read > 0
  {
    match OpenOutput(t, fs)
    case Failure(code) => Returned(TaskResult(code, 0, 0), [])
    case Success(sink) =>
      if env.setup.BadArgument? then Returned(TaskResult(ERR_CREATE_COMPRESSOR, 0, 0), [])
      else if env.setup.OtherFailure? then Returned(TaskResult(ERR_CREATE_FILE, 0, 0), [])
      else
        var start := if |t.listeners| > 0 then [CompressionStart] else [];
        if env.closeFails then ProcessExit(ERR_WRITE_FILE, if InputOpens(t, fs) then start else [])
        else if !InputOpens(t, fs) then Returned(TaskResult(ERR_OPEN_FILE, 0, 0), [])
        else
          var p := ReadLoop(env.inputs, env.writes);
          match p.end
          case ReadFailed =>
            Returned(TaskResult(ERR_READ_FILE, p.read, env.getWritten(p.log, false)), start)
          case WriteFailed(fault) =>
            if fault.IoFault? then
              // `T(ioe.error(), _cos->getWritten())`: the byte count lands in
              // the second field of the result.
              Returned(TaskResult(fault.code, env.getWritten(p.log, false), 0), start)
            else Returned(TaskResult(ERR_UNKNOWN, p.read, env.getWritten(p.log, false)), start)
          case Drained =>
            SumOfPositives(p.log);
            var written := env.getWritten(p.log, true);
            if p.read == 0 then Returned(TaskResult(0, 0, written), start)
            else if |t.listeners| > 0 then Returned(TaskResult(0, p.read, written), start + [CompressionEnd(written)])
            else Returned(TaskResult(0, p.read, written), start)
  }

  /** An empty input is a success with nothing read, and no end event is
      sent for it. */
  lemma EmptyInputSucceeds(t: TaskSpec, fs: FileSystem, env: TaskEnv)
    requires OpenOutput(t, fs).Success? && env.setup.Built? && !env.closeFails
    requires InputOpens(t, fs)
    requires |env.inputs| > 0 && env.inputs[0] == Got(0)
    ensures RunTask(t, fs, env).Returned?
    ensures RunTask(t, fs, env).result.code == 0 && RunTask(t, fs, env).result.read == 0
    ensures forall w :: CompressionEnd(w) !in RunTask(t, fs, env).events
  {
  }

  /** Output equal to the input is refused before anything is read or
      written, whatever the overwrite flag says. */
  lemma SameFileRefused(t: TaskSpec, fs: FileSystem, env: TaskEnv)
    requires !Paths.IsSpecialOutput(t.outputName) && fs.samePath(t.inputName, t.outputName)
    ensures RunTask(t, fs, env) == Returned(TaskResult(ERR_CREATE_FILE, 0, 0), [])
  {
  }

  /** The input as a sequence of reads: every chunk, then the read that
      reports the end. */
  function Chunks(lens: seq<int>): (r: seq<ReadStep>)
    ensures |r| == |lens| + 1 && r[|lens|] == Got(0)
    ensures forall k :: 0 <= k < |lens| ==> r[k] == Got(lens[k])
  {
    seq(|lens|, k requires 0 <= k < |lens| => Got(lens[k])) + [Got(0)]
  }

  /** The read loop over an input whose chunks the sink all accepts
      forwards every chunk, in order, and counts their total: from the
      `i`-th read on, and hence from the start. */
  lemma {:induction false} PumpAccepted(lens: seq<int>, writes: seq<WriteStep>, i: nat)
    requires i <= |lens|
    requires forall k :: 0 <= k < |lens| ==> lens[k] > 0
    requires forall k :: 0 <= k < |writes| ==> writes[k] == Accepted
    ensures Pump(Chunks(lens), writes, Sum(lens[..i]), lens[..i]) == Pumped(Drained, Sum(lens), lens)
    decreases |lens| - i
  {
    if i == |lens| {
      assert lens[..i] == lens;
    } else {
      var done, next := lens[..i], lens[..i + 1];
      assert next == done + [lens[i]] && next[..i] == done;
      assert Sum(next) == Sum(done) + lens[i];
      assert Chunks(lens)[i] == Got(lens[i]);
      assert Pump(Chunks(lens), writes, Sum(done), done) == Pump(Chunks(lens), writes, Sum(next), next);
      PumpAccepted(lens, writes, i + 1);
    }
  }

  lemma SuccessReadsWholeInput(lens: seq<int>, writes: seq<WriteStep>)
    requires forall k :: 0 <= k < |lens| ==> lens[k] > 0
    requires forall k :: 0 <= k < |writes| ==> writes[k] == Accepted
    ensures ReadLoop(Chunks(lens), writes) == Pumped(Drained, Sum(lens), lens)
  {
    PumpAccepted(lens, writes, 0);
    assert lens[..0] == [];
  }

  /** Once the read loop has drained the input, the task succeeds with the
      bytes it read, and sends the end event when someone listens and
      something was read. */
  lemma DrainedTask(t: TaskSpec, fs: FileSystem, env: TaskEnv, read: int, log: seq<int>)
    requires OpenOutput(t, fs).Success? && env.setup.Built? && !env.closeFails && InputOpens(t, fs)
    requires ReadLoop(env.inputs, env.writes) == Pumped(Drained, read, log)
    requires read == 0 <==> |log| == 0
    ensures RunTask(t, fs, env).Returned?
    ensures RunTask(t, fs, env).result == TaskResult(0, read, env.getWritten(log, true))
    ensures RunTask(t, fs, env).events ==
      (if |t.listeners| > 0 then [CompressionStart] else [])
      + (if |t.listeners| > 0 && |log| > 0 then [CompressionEnd(env.getWritten(log, true))] else [])
  {
  }

  /** A successful task reports the whole input as read, and sends the end
      event carrying the written count when someone listens and the input
      was not empty. */
  lemma SuccessfulTask(t: TaskSpec, fs: FileSystem, env: TaskEnv, lens: seq<int>)
    requires OpenOutput(t, fs).Success? && env.setup.Built? && !env.closeFails && InputOpens(t, fs)
    requires forall k :: 0 <= k < |lens| ==> lens[k] > 0
    requires forall k :: 0 <= k < |env.writes| ==> env.writes[k] == Accepted
    requires env.inputs == Chunks(lens)
    ensures RunTask(t, fs, env).Returned?
    ensures RunTask(t, fs, env).result == TaskResult(0, Sum(lens), env.getWritten(lens, true))
    ensures |t.listeners| > 0 && |lens| > 0 ==>
      RunTask(t, fs, env).events == [CompressionStart, CompressionEnd(env.getWritten(lens, true))]
  {
    SuccessReadsWholeInput(lens, env.writes);
    SumOfPositives(lens);
    DrainedTask(t, fs, env, Sum(lens), lens);
  }
}
