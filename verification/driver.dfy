/**
 `main` of the LLVMIR2OBJ driver: it checks that the command line holds exactly
 three positional tokens (the program, the input IR file and the output object
 file), then runs a fixed pipeline of LLVM calls. The first call that fails
 decides the exit code; when none fails the output file is kept and the exit
 code is 1.

 The LLVM library is not modelled: each call whose failure `main` checks is an
 arbitrary function in a `Backend` value, so every property below holds
 whatever LLVM does.
 */
module Driver {
  import opened Strings
  import opened CommandLine

  /** What the driver reads from a parsed IR module: its target triple. */
  datatype IRModule = IRModule(triple: string)

  /** A target found in LLVM's target registry. */
  datatype Target = Target(name: string)

  /** A target machine created for a target and a triple. */
  datatype Machine = Machine(target: Target, triple: string)

  /**
   The LLVM calls whose results `main` checks:
   `parseIRFile` (None for a null module), `TargetRegistry::lookupTarget`
   (None for a null target), `Target::createTargetMachine` (None for a null
   machine), whether a `ToolOutputFile` object was obtained for the output
   path, and `addPassesToEmitFile` (true when the machine cannot emit an
   object file, as LLVM reports it).
   */
  datatype Backend = Backend(
    parseIRFile: string -> Option<IRModule>,
    lookupTarget: string -> Option<Target>,
    createTargetMachine: (Target, string) -> Option<Machine>,
    outputFileCreated: string -> bool,
    addPassesToEmitFile: Machine -> bool)

  /** The checked steps of the pipeline. */
  datatype Stage = ParseIR | LookupTarget | CreateTargetMachine | OpenOutputFile | AddPassesToEmitFile

  /** The order in which `main` runs the stages. */
  const Pipeline: seq<Stage> := [ParseIR, LookupTarget, CreateTargetMachine, OpenOutputFile, AddPassesToEmitFile]

  /** The exit code for a command line without exactly three positional tokens. */
  const UsageError: int := -1

  /** The exit code when every stage succeeds. */
  const Success: int := 1

  /** The exit code `main` returns when a stage fails. */
  function StageCode(stage: Stage): int
  {
    match stage
    case ParseIR => -2
    case LookupTarget => -3
    case CreateTargetMachine => -4
    case OpenOutputFile => -5
    case AddPassesToEmitFile => -6
  }

  /**
   Whether each stage of `Pipeline` succeeds for the given paths. A stage
   that needs the result of an earlier failing one counts as failing; only the
   first failure matters.
   */
  function StageOutcomes(input: string, output: string, backend: Backend): seq<bool>
  {
    var irModule := backend.parseIRFile(input);
    var target := if irModule.Some? then backend.lookupTarget(irModule.value.triple) else None;
    var machine := if target.Some? then backend.createTargetMachine(target.value, irModule.value.triple) else None;
    [ irModule.Some?,
      target.Some?,
      machine.Some?,
      backend.outputFileCreated(output),
      machine.Some? && !backend.addPassesToEmitFile(machine.value) ]
  }

  /** The index of the first `false` in `oks`, or `|oks|` when every entry is true. */
  function FirstFailure(oks: seq<bool>): (k: nat)
    ensures k <= |oks|
    ensures forall j :: 0 <= j < k ==> oks[j]
    ensures k < |oks| ==> !oks[k]
  {
    if oks == [] then 0
    else if !oks[0] then 0
    else 1 + FirstFailure(oks[1..])
  }

  /** The first `false` is at `k` when `oks[k]` is false and every entry before it is true. */
  lemma FirstFailureAt(oks: seq<bool>, k: nat)
    requires k < |oks| && !oks[k]
    requires forall j :: 0 <= j < k ==> oks[j]
    ensures FirstFailure(oks) == k
  {
  }

  /** The exit code `main` is meant to return: usage error, else the code of the first failing stage, else success. */
  function ExitCode(argv: seq<string>, backend: Backend): int
  {
    var args := Positionals(argv);
    if |args| != 3 then UsageError
    else
      var k := FirstFailure(StageOutcomes(args[1], args[2], backend));
      if k == |Pipeline| then Success else StageCode(Pipeline[k])
  }

  /** How many stages `main` runs: none on a usage error, else all up to and including the first that fails. */
  function StagesRun(argv: seq<string>, backend: Backend): nat
  {
    var args := Positionals(argv);
    if |args| != 3 then 0
    else
      var k := FirstFailure(StageOutcomes(args[1], args[2], backend));
      if k == |Pipeline| then k else k + 1
  }

  /**
   `main(argc, argv)`. Returns the exit code, the stages it ran, in order, and
   whether it called `keep()` on the output file, which is what makes the
   object file outlive `ToolOutputFile`: that happens exactly on success.
   */
  method Run(argv: seq<string>, backend: Backend) returns (ret: int, ran: seq<Stage>, kept: bool)
    ensures ret == ExitCode(argv, backend)
    ensures ran == Pipeline[..StagesRun(argv, backend)]
    ensures kept <==> ret == Success
  {
    var cmdLine := ParseCommandLine(argv);
    var args := Lookup(cmdLine, "");
    if |args| != 3 {
      ret, ran, kept := -1, [], false;
      return;
    }
    var inputIRFile, outputObjFile := args[1], args[2];
    ret, ran, kept := RunPipeline(inputIRFile, outputObjFile, backend);
  }

  /**
   The body of `main`'s `do { ... } while (0)` after the usage check: each
   stage in turn, leaving at the first that fails with its exit code.
   */
  method RunPipeline(inputIRFile: string, outputObjFile: string, backend: Backend)
    returns (ret: int, ran: seq<Stage>, kept: bool)
    ensures var k := FirstFailure(StageOutcomes(inputIRFile, outputObjFile, backend));
      && ret == (if k == |Pipeline| then Success else StageCode(Pipeline[k]))
      && ran == Pipeline[..if k == |Pipeline| then k else k + 1]
    ensures kept <==> ret == Success
  {
    ghost var oks := StageOutcomes(inputIRFile, outputObjFile, backend);
    ret, ran, kept := 0, [], false;
    label pipeline: {
      ran := ran + [ParseIR];
      var irModule := backend.parseIRFile(inputIRFile);
      assert oks[0] == irModule.Some?;
      if irModule.None? {
        FirstFailureAt(oks, 0);
        ret := -2;
        break pipeline;
      }
      var triple := irModule.value.triple;

      ran := ran + [LookupTarget];
      var target := backend.lookupTarget(triple);
      assert oks[1] == target.Some?;
      if target.None? {
        FirstFailureAt(oks, 1);
        ret := -3;
        break pipeline;
      }

      ran := ran + [CreateTargetMachine];
      var machine := backend.createTargetMachine(target.value, triple);
      assert oks[2] == machine.Some?;
      if machine.None? {
        FirstFailureAt(oks, 2);
        ret := -4;
        break pipeline;
      }

      ran := ran + [OpenOutputFile];
      if !backend.outputFileCreated(outputObjFile) {
        FirstFailureAt(oks, 3);
        ret := -5;
        break pipeline;
      }

      ran := ran + [AddPassesToEmitFile];
      assert oks[4] == !backend.addPassesToEmitFile(machine.value);
      if backend.addPassesToEmitFile(machine.value) {
        FirstFailureAt(oks, 4);
        ret := -6;
        break pipeline;
      }

      assert forall j :: 0 <= j < |oks| ==> oks[j];
      kept := true;
      ret := 1;
    }
  }

  /** The usage error is returned exactly when the positional count is not 3, and then no stage runs. */
  lemma UsageErrorIff(argv: seq<string>, backend: Backend)
    ensures ExitCode(argv, backend) == UsageError <==> |Positionals(argv)| != 3
    ensures ExitCode(argv, backend) == UsageError <==> StagesRun(argv, backend) == 0
  {
    var args := Positionals(argv);
    if |args| == 3 {
      var k := FirstFailure(StageOutcomes(args[1], args[2], backend));
      if k < |Pipeline| {
        assert StageCode(Pipeline[k]) <= -2;
      }
    }
  }

  /** Success is returned exactly when there are three positional tokens and every stage succeeds; then every stage ran. */
  lemma SuccessIff(argv: seq<string>, backend: Backend)
    ensures ExitCode(argv, backend) == Success <==>
      |Positionals(argv)| == 3 &&
      forall j :: 0 <= j < |Pipeline| ==> StageOutcomes(Positionals(argv)[1], Positionals(argv)[2], backend)[j]
    ensures ExitCode(argv, backend) == Success ==> StagesRun(argv, backend) == |Pipeline|
  {
    var args := Positionals(argv);
    if |args| == 3 {
      var oks := StageOutcomes(args[1], args[2], backend);
      var k := FirstFailure(oks);
      if k < |Pipeline| {
        assert StageCode(Pipeline[k]) <= -2;
        assert !oks[k];
      }
    }
  }

  /**
   Stage `k` decides the exit code exactly when there are three positional
   tokens, every stage before it succeeds and it fails; it is then the last
   stage run.
   */
  lemma FailingStageIff(argv: seq<string>, backend: Backend, k: nat)
    requires k < |Pipeline|
    ensures ExitCode(argv, backend) == StageCode(Pipeline[k]) <==>
      |Positionals(argv)| == 3 &&
      var oks := StageOutcomes(Positionals(argv)[1], Positionals(argv)[2], backend);
      !oks[k] && forall j :: 0 <= j < k ==> oks[j]
    ensures ExitCode(argv, backend) == StageCode(Pipeline[k]) ==> StagesRun(argv, backend) == k + 1
  {
    var args := Positionals(argv);
    if |args| == 3 {
      var oks := StageOutcomes(args[1], args[2], backend);
      var first := FirstFailure(oks);
      if first < |Pipeline| && StageCode(Pipeline[first]) == StageCode(Pipeline[k]) {
        assert first == k;
      }
      if !oks[k] && forall j :: 0 <= j < k ==> oks[j] {
        assert first == k;
      }
    }
  }

  /** On every failure after the usage check, the exit code is that of the last stage run. */
  lemma LastStageRunDecides(argv: seq<string>, backend: Backend)
    requires ExitCode(argv, backend) !in {Success, UsageError}
    ensures 0 < StagesRun(argv, backend) <= |Pipeline|
    ensures ExitCode(argv, backend) == StageCode(Pipeline[StagesRun(argv, backend) - 1])
  {
    UsageErrorIff(argv, backend);
  }
}
