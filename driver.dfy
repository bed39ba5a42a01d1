/**
 * The driver's `main`: parse the command line with the driver's own defaults,
 * then run the codec `repeat` times, each time opening the streams again, and
 * stop at the first failure. A named file is opened afresh in every
 * iteration; a standard stream is the same stream every time, and the first
 * iteration closes it. The codec and the outcomes of `fopen` and
 * `fclose` are outside the driver and arrive as an `Oracle` indexed by the
 * iteration number.
 */
module Driver {
  import opened Wrappers
  import opened ArgParser
  import opened Streams

  /** What the environment answers in iteration `i`. */
  datatype Oracle = Oracle(
    inputOpens: nat -> bool,
    outputOpens: nat -> bool,
    codecSucceeds: nat -> bool,
    inputCloses: nat -> bool,
    outputCloses: nat -> bool)

  datatype Status = Completed | Failed(fault: Fault, iteration: nat)

  /** The end of a run: how it ended, the file system left behind and how many times the codec ran. */
  datatype Outcome = Outcome(status: Status, disk: Disk, codecCalls: nat)

  /** One pass of the loop body: the file system after it, the fault that stops the run if any, and whether the codec ran. */
  datatype Step = Step(disk: Disk, fault: Option<Fault>, codecRan: bool)

  /** Whether iteration `i` would use a standard stream that an earlier iteration has closed. */
  predicate ReusesStandardStream(cfg: Config, i: nat) {
    i >= 1 && (cfg.inputPath.None? || cfg.outputPath.None?)
  }

  function Iteration(cfg: Config, env: Oracle, i: nat, disk: Disk): (s: Step)
    ensures s.codecRan ==> OpenInputFile(cfg.inputPath, disk, env.inputOpens(i)).Opened?
    ensures s.codecRan ==> OpenOutputFile(cfg.outputPath, cfg.force, disk, env.outputOpens(i)).Opened?
    ensures s.codecRan ==> !ReusesStandardStream(cfg, i) && Touched(cfg.outputPath) <= s.disk.truncated
    ensures s.fault.None? <==> s.codecRan && env.codecSucceeds(i) && env.inputCloses(i) && env.outputCloses(i)
    ensures s.fault == Some(CompressionFailed) ==>
      !cfg.decompress && s.codecRan && s.disk.existing == disk.existing - Touched(cfg.outputPath)
    ensures s.fault == Some(CorruptInput) ==> cfg.decompress && s.codecRan && Touched(cfg.outputPath) <= s.disk.existing
    ensures !s.codecRan && s.fault != Some(StandardStreamReused) ==> s.disk == disk
    ensures s.codecRan || s.fault == Some(StandardStreamReused) ==>
      && s.disk.truncated == disk.truncated + Touched(cfg.outputPath)
      && s.disk.existing == if s.fault == Some(CompressionFailed) then disk.existing - Touched(cfg.outputPath)
                            else disk.existing + Touched(cfg.outputPath)
  {
    match OpenInputFile(cfg.inputPath, disk, env.inputOpens(i))
    case Refused(fault) => Step(disk, Some(fault), false)
    case Opened(_) =>
      match OpenOutputFile(cfg.outputPath, cfg.force, disk, env.outputOpens(i))
      case Refused(fault) => Step(disk, Some(fault), false)
      case Opened(written) =>
        if ReusesStandardStream(cfg, i) then Step(written, Some(StandardStreamReused), false)
        else if !env.codecSucceeds(i) then
          if cfg.decompress then Step(written, Some(CorruptInput), true)
          else Step(Unlink(written, cfg.outputPath), Some(CompressionFailed), true)
        else if !env.inputCloses(i) || !env.outputCloses(i) then Step(written, Some(CloseFailed), true)
        else Step(written, None, true)
  }

  function Tally(ran: bool): nat {
    if ran then 1 else 0
  }

  /** Iterations `i`, `i + 1`, ... up to `cfg.repeat`, stopping at the first fault. */
  function RunFrom(cfg: Config, env: Oracle, i: nat, disk: Disk): (r: Outcome)
    ensures r.status.Completed? ==> r.codecCalls == if cfg.repeat <= i then 0 else cfg.repeat - i
    ensures r.status.Failed? ==> i <= r.status.iteration < cfg.repeat
    ensures r.status.Failed? ==>
      r.codecCalls == r.status.iteration - i + Tally(r.status.fault in {CorruptInput, CompressionFailed, CloseFailed})
    decreases cfg.repeat - i
  {
    if cfg.repeat <= i then Outcome(Completed, disk, 0)
    else
      var s := Iteration(cfg, env, i, disk);
      if s.fault.Some? then Outcome(Failed(s.fault.value, i), s.disk, Tally(s.codecRan))
      else
        var rest := RunFrom(cfg, env, i + 1, s.disk);
        rest.(codecCalls := rest.codecCalls + 1)
  }

  function Run(cfg: Config, env: Oracle, disk: Disk): Outcome {
    RunFrom(cfg, env, 0, disk)
  }

  /**
   * The driver's loop: a counter `i` up to `repeat`, the streams opened again
   * in every iteration, and an exit at the first failure.
   */
  method RunLoop(cfg: Config, env: Oracle, disk0: Disk) returns (status: Status, disk: Disk, codecCalls: nat)
    ensures Outcome(status, disk, codecCalls) == Run(cfg, env, disk0)
  {
    disk, codecCalls := disk0, 0;
    var i: nat := 0;
    while i < cfg.repeat
      invariant Run(cfg, env, disk0) == (var rest := RunFrom(cfg, env, i, disk); rest.(codecCalls := codecCalls + rest.codecCalls))
      decreases cfg.repeat - i
    {
      var input := OpenInputFile(cfg.inputPath, disk, env.inputOpens(i));
      if input.Refused? {
        return Failed(input.fault, i), disk, codecCalls;
      }
      var out := OpenOutputFile(cfg.outputPath, cfg.force, disk, env.outputOpens(i));
      if out.Refused? {
        return Failed(out.fault, i), disk, codecCalls;
      }
      disk := out.disk;
      if ReusesStandardStream(cfg, i) {
        return Failed(StandardStreamReused, i), disk, codecCalls;
      }
      codecCalls := codecCalls + 1;
      if !env.codecSucceeds(i) {
        if cfg.decompress {
          return Failed(CorruptInput, i), disk, codecCalls;
        }
        disk := Unlink(disk, cfg.outputPath);
        return Failed(CompressionFailed, i), disk, codecCalls;
      }
      if !env.inputCloses(i) || !env.outputCloses(i) {
        return Failed(CloseFailed, i), disk, codecCalls;
      }
      i := i + 1;
    }
    status := Completed;
  }

  /** The values `main` sets before parsing; the parser keeps them unless a flag overrides them. */
  const DEFAULT_QUALITY := 11
  const DEFAULT_LGWIN := 22
  const DEFAULT_MODE := 0

  /**
   * The whole program: a usage error exits with status 1 before any file is
   * opened; otherwise the run decides the status, 0 only when every
   * iteration completed.
   */
  method Execute(argv: seq<string>, env: Oracle, disk0: Disk) returns (exitCode: int, disk: Disk, codecCalls: nat)
    requires |argv| >= 1
    ensures ParseArgvSpec(argv, DEFAULT_QUALITY, DEFAULT_LGWIN, DEFAULT_MODE).UsageError? ==>
      exitCode == 1 && disk == disk0 && codecCalls == 0
    ensures ParseArgvSpec(argv, DEFAULT_QUALITY, DEFAULT_LGWIN, DEFAULT_MODE).Ok? ==>
      var r := Run(ParseArgvSpec(argv, DEFAULT_QUALITY, DEFAULT_LGWIN, DEFAULT_MODE).config, env, disk0);
      disk == r.disk && codecCalls == r.codecCalls && (exitCode == 0 <==> r.status.Completed?) && exitCode in {0, 1}
  {
    var parsed := ParseArgv(argv, DEFAULT_QUALITY, DEFAULT_LGWIN, DEFAULT_MODE);
    if parsed.UsageError? {
      return 1, disk0, 0;
    }
    var status;
    status, disk, codecCalls := RunLoop(parsed.config, env, disk0);
    exitCode := if status.Completed? then 0 else 1;
  }

  /** Every path other than the output keeps its state: the driver writes or removes nothing else. */
  lemma {:induction false} RunTouchesOnlyOutput(cfg: Config, env: Oracle, i: nat, disk: Disk, q: string)
    requires q !in Touched(cfg.outputPath)
    ensures var after := RunFrom(cfg, env, i, disk).disk;
      (q in after.existing <==> q in disk.existing) && (q in after.truncated <==> q in disk.truncated)
    decreases cfg.repeat - i
  {
    if i < cfg.repeat {
      var s := Iteration(cfg, env, i, disk);
      if s.fault.None? {
        RunTouchesOnlyOutput(cfg, env, i + 1, s.disk, q);
      }
    }
  }

  /** With force, the run never stops because the output exists. */
  lemma {:induction false} ForcedRunNeverRefusesOutput(cfg: Config, env: Oracle, i: nat, disk: Disk)
    requires cfg.force
    ensures RunFrom(cfg, env, i, disk).status.Failed? ==> RunFrom(cfg, env, i, disk).status.fault != OutputExists
    decreases cfg.repeat - i
  {
    if i < cfg.repeat {
      var s := Iteration(cfg, env, i, disk);
      if s.fault.None? {
        ForcedRunNeverRefusesOutput(cfg, env, i + 1, s.disk);
      }
    }
  }

  /**
   * A compression failure removes the output file, and only compression
   * reports it; a decoding failure leaves the partial output in place.
   */
  lemma {:induction false} FailedCompressionUnlinks(cfg: Config, env: Oracle, i: nat, disk: Disk)
    ensures var r := RunFrom(cfg, env, i, disk);
      r.status.Failed? && r.status.fault == CompressionFailed ==>
        !cfg.decompress && Touched(cfg.outputPath) !! r.disk.existing
    ensures var r := RunFrom(cfg, env, i, disk);
      r.status.Failed? && r.status.fault == CorruptInput ==>
        cfg.decompress && Touched(cfg.outputPath) <= r.disk.existing
    decreases cfg.repeat - i
  {
    if i < cfg.repeat {
      var s := Iteration(cfg, env, i, disk);
      if s.fault.None? {
        FailedCompressionUnlinks(cfg, env, i + 1, s.disk);
      }
    }
  }

  /**
   * An output path that exists and is not forced stops the run in its first
   * iteration, before the codec runs and with the file system unchanged.
   */
  lemma ExistingOutputRefused(cfg: Config, env: Oracle, disk: Disk)
    requires cfg.repeat >= 1 && !cfg.force && cfg.outputPath.Some? && cfg.outputPath.value in disk.existing
    requires OpenInputFile(cfg.inputPath, disk, env.inputOpens(0)).Opened?
    ensures Run(cfg, env, disk) == Outcome(Failed(OutputExists, 0), disk, 0)
  {
  }

  /** With no iterations to do, nothing is opened and the run completes. */
  lemma ZeroRepeatCompletes(cfg: Config, env: Oracle, disk: Disk)
    requires cfg.repeat <= 0
    ensures Run(cfg, env, disk) == Outcome(Completed, disk, 0)
  {
  }

  /**
   * Without force, a named output exists after the first iteration has
   * opened it, so a run asked to repeat never completes: it stops in the
   * second iteration at the latest, there because the input cannot be opened
   * or because the output exists.
   */
  lemma RepeatWithoutForceStops(cfg: Config, env: Oracle, disk: Disk)
    requires cfg.repeat >= 2 && !cfg.force && cfg.outputPath.Some?
    ensures Run(cfg, env, disk).status.Failed? && Run(cfg, env, disk).status.iteration <= 1
    ensures Run(cfg, env, disk).status.iteration == 1 ==> Run(cfg, env, disk).status.fault in {InputOpenFailed, OutputExists}
  {
    var s := Iteration(cfg, env, 0, disk);
    if s.fault.None? {
      assert cfg.outputPath.value in s.disk.existing;
      var t := Iteration(cfg, env, 1, s.disk);
      assert t.fault == Some(InputOpenFailed) || t.fault == Some(OutputExists);
      assert RunFrom(cfg, env, 1, s.disk).status == Failed(t.fault.value, 1);
    }
  }

  /** The environment answers yes to everything in every iteration. */
  ghost predicate Cooperative(env: Oracle) {
    forall i: nat :: env.inputOpens(i) && env.outputOpens(i) && env.codecSucceeds(i) && env.inputCloses(i) && env.outputCloses(i)
  }

  /**
   * When the input can be read, the output may be written (it is forced,
   * standard output, or a path that does not exist yet and is written only
   * once) and no standard stream is needed after the first iteration, a run
   * in a cooperative environment completes and runs the codec exactly
   * `repeat` times.
   */
  lemma {:induction false} CooperativeRunCompletes(cfg: Config, env: Oracle, i: nat, disk: Disk)
    requires Cooperative(env)
    requires cfg.inputPath.None? || cfg.inputPath.value in disk.existing
    requires cfg.repeat <= i || cfg.force || cfg.outputPath.None? ||
             (cfg.repeat == i + 1 && cfg.outputPath.value !in disk.existing)
    requires cfg.repeat <= 1 || (cfg.inputPath.Some? && cfg.outputPath.Some?)
    ensures RunFrom(cfg, env, i, disk).status.Completed?
    ensures RunFrom(cfg, env, i, disk).codecCalls == if cfg.repeat <= i then 0 else cfg.repeat - i
    decreases cfg.repeat - i
  {
    if i < cfg.repeat {
      var s := Iteration(cfg, env, i, disk);
      assert env.inputOpens(i) && env.outputOpens(i) && env.codecSucceeds(i) && env.inputCloses(i) && env.outputCloses(i);
      assert s.fault.None?;
      CooperativeRunCompletes(cfg, env, i + 1, s.disk);
    }
  }

  /**
   * A run that reads standard input or writes standard output cannot go past
   * its first iteration: the second one would use the stream the first one
   * closed, if nothing stopped it earlier.
   */
  lemma StandardStreamOnlyOnce(cfg: Config, env: Oracle, disk: Disk)
    requires cfg.repeat >= 2 && (cfg.inputPath.None? || cfg.outputPath.None?)
    ensures Run(cfg, env, disk).status.Failed? && Run(cfg, env, disk).status.iteration <= 1
  {
    var s := Iteration(cfg, env, 0, disk);
    if s.fault.None? {
      var t := Iteration(cfg, env, 1, s.disk);
      assert t.fault.Some?;
      assert RunFrom(cfg, env, 1, s.disk).status == Failed(t.fault.value, 1);
    }
  }
}
