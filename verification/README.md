# LLVMIR2OBJ command line and exit-code dispatch, in Dafny

LLVMIR2OBJ is a command-line tool. It reads an LLVM IR module, in text or
bitcode form, and writes a native object file for the module's target triple.
Code generation is done by the LLVM library. The tool itself contributes three
things, and this project models all three:

- `strings.dfy` (module `Strings`): `startsWith`, a prefix test, and `split`,
  which cuts a string at a delimiter into at most `max` pieces.
  `std::string::find` is modelled as `Find`.
- `command_line.dfy` (module `CommandLine`): `parseCommandLine`. It turns
  `argv` into a map from keys to value lists.
  - Arguments that do not begin with `--` are positional. They go under the
    empty key, in order. `argv[0]` is included unless it begins with `--`.
  - `--key=value` appends `value` under `--key`.
  - A bare `--key` registers `--key` with no value.
  - The map is proved equal to an independent per-key description of what
    each argument contributes (`KeyOf`, `ValuesOf`, `ValuesFor`).
- `driver.dfy` (module `Driver`): `main`.
  - The usage check needs exactly three positional tokens. Otherwise the
    exit code is -1.
  - Then a fixed pipeline of LLVM calls runs: parse the IR (-2), look up the
    target (-3), create the target machine (-4), create the output file (-5),
    add the object-emission passes (-6).
  - The first failure decides the exit code.
  - The output file is kept, and 1 returned, only when no stage fails.
  - Each LLVM call is an arbitrary function held in a `Backend` value, so the
    dispatch properties hold whatever LLVM does.

The usage check counts positional tokens, not all tokens: `tool --x in out` passes
it, because switches are filed apart (LLVMIR2OBJ.cpp:83-84). The model follows
the code.

`split` is modelled twice. `Strings.Split` is the loop with each search starting
at the current position. The `Strings.AsWritten...` functions replay the loop as
written, where every search starts at index 0. The two agree for `max = 2`, the
only value the parser passes, so the parser's behaviour is the same under both
(see "## Findings").

## Model

| member | source | states |
|---|---|---|
| `Strings.StartsWith` | LLVMIR2OBJ.cpp:33-36 | true exactly when `prefix` fits in `s` and agrees with it position by position; then `s` is `prefix` followed by the rest |
| `Strings.Find` | LLVMIR2OBJ.cpp:42 | the index found holds the character and is the first at or after `from`; None means the character does not occur from `from` on |
| `Strings.Split` | LLVMIR2OBJ.cpp:38-51 | the pieces joined with the delimiter give back `s`; no piece but the last holds the delimiter; at most `max` pieces (no bound for the default `max`, and `max = 0` wraps around); the last holds the delimiter only when the bound was reached; with `max = 2` the result is the split at the first delimiter |
| `Strings.SplitFirstParts` | LLVMIR2OBJ.cpp:38-51 | with a delimiter in `s`, two parts: the first is free of it, and part, delimiter, part rebuild `s`; without one, exactly `[s]` |
| `Strings.SplitFirstUnique` | LLVMIR2OBJ.cpp:38-51 | any one- or two-piece split that rebuilds `s`, with no delimiter in its first piece and two pieces whenever `s` holds one, is the split at the first delimiter |
| `Strings.AsWrittenRound` | LLVMIR2OBJ.cpp:42-46 | a round of the loop as written adds one piece and leaves `start` within the string or at `npos` |
| `Strings.AsWrittenAtTwo` | LLVMIR2OBJ.cpp:38-51 | with `max = 2`, the loop as written returns after one round with the split at the first delimiter |
| `Strings.AsWrittenDuplicates` | LLVMIR2OBJ.cpp:41-49 | with `max = 3`, the loop as written turns `"a=b=c"` into `["a", "b=c", "b=c"]`, and those pieces do not rebuild the input |
| `Strings.AsWrittenStuck` | LLVMIR2OBJ.cpp:41-47 | once `start` is one past the first delimiter, the loop under the default `max` runs any number of rounds without returning |
| `Strings.AsWrittenNeverReturns` | LLVMIR2OBJ.cpp:38-51 | under the default `max`, the loop as written never returns for a string that holds the delimiter |
| `CommandLine.ParseCommandLine` | LLVMIR2OBJ.cpp:54-73 | the map built by the parser's two loops; its empty key holds exactly the positional arguments in order; every other key is a switch name |
| `CommandLine.StepFilesUnderKey` | LLVMIR2OBJ.cpp:60-70 | one argument registers its key and appends its values under it, and leaves every other key as it was |
| `CommandLine.SwitchKeyShape` | LLVMIR2OBJ.cpp:61-64 | the key of a switch begins with `--` and holds no `=` |
| `CommandLine.SwitchWithValue` | LLVMIR2OBJ.cpp:61-67 | `--name=value` appends the whole text after the first `=` under `--name`, so `--a=b=c` files `b=c` under `--a` |
| `CommandLine.BareSwitch` | LLVMIR2OBJ.cpp:61-66 | a switch without `=` registers its whole text as a key, adds no value and keeps the values already there |
| `CommandLine.ParseLookup` | LLVMIR2OBJ.cpp:54-73 | under every key the map holds exactly the values the arguments contribute to it, in order of appearance |
| `CommandLine.ParseDomain` | LLVMIR2OBJ.cpp:59-70 | a key is in the map exactly when some argument files under it |
| `CommandLine.EmptyKeyIsPositionals` | LLVMIR2OBJ.cpp:61-69 | no switch contributes to the empty key, so it gets exactly the arguments not starting with `--` |
| `CommandLine.PositionalsInOrder` | LLVMIR2OBJ.cpp:54-70 | the parsed positional list is the arguments not starting with `--` in their original order, `argv[0]` included under the same rule |
| `CommandLine.KeysAreSwitchNames` | LLVMIR2OBJ.cpp:59-70 | every key other than the empty one begins with `--` and holds no `=` |
| `CommandLine.ValuesForAppend` | LLVMIR2OBJ.cpp:60-70 | the values later arguments contribute come after those of earlier ones |
| `CommandLine.ValuesAccumulate` | LLVMIR2OBJ.cpp:60-70 | reading more arguments keeps every key, and keeps each key's earlier values as a prefix of its list |
| `CommandLine.TotalValues` | LLVMIR2OBJ.cpp:60-70 | the map holds as many values as there are positional arguments plus switches containing `=` |
| `Driver.FirstFailure` | LLVMIR2OBJ.cpp:81-165 | the index returned is the first failing stage: every stage before it succeeded and it failed, or all succeeded |
| `Driver.Run` | LLVMIR2OBJ.cpp:78-168 | the exit code is -1 without three positional tokens. Otherwise it is the code of the first failing stage, run on `Args[1]` and `Args[2]`, or 1. The stages run in pipeline order up to the first failure, and the output is kept exactly on success |
| `Driver.RunPipeline` | LLVMIR2OBJ.cpp:93-165 | the stages run in order and stop at the first failure, whose code is returned; 1 and `keep()` only when none fails |
| `Driver.UsageErrorIff` | LLVMIR2OBJ.cpp:82-88 | -1 is returned exactly when the positional count is not 3, and exactly when no stage runs |
| `Driver.SuccessIff` | LLVMIR2OBJ.cpp:93-164 | 1 is returned exactly when there are three positional tokens and every stage succeeds, and then all five stages ran |
| `Driver.FailingStageIff` | LLVMIR2OBJ.cpp:93-159 | a stage's code is returned exactly when every earlier stage succeeded and it failed, and it is then the last stage run |
| `Driver.LastStageRunDecides` | LLVMIR2OBJ.cpp:93-159 | on any failure after the usage check, the exit code belongs to the last stage that ran |

## Left out

- The checked LLVM calls are not modelled beyond success or failure. These are `parseIRFile`, `TargetRegistry::lookupTarget`, `createTargetMachine`, `ToolOutputFile` and `addPassesToEmitFile`. Each is an arbitrary function in `Driver.Backend`.
- `Triple::setTriple` and `PassManager::run` are not modelled at all. `setTriple` returns nothing and is not checked; `PM.run` is covered by the next line.
- `InitializeAllTargets` and the other `InitializeAll*` calls are left out: they cannot fail and return nothing.
- `PM.run(M)` is not a stage: its result is not checked, and `keep()` follows it unconditionally.
- Console and diagnostic printing is left out (the usage string, the triple and the error messages). It is output only.
- The `DataLayout` and pointer-size read is left out: nothing uses its result.
- Switch values are parsed but not used later, as in the source.
- The output-file stage is the source's null check on the `ToolOutputFile` object. That check cannot fail for an object from `std::make_unique`. The source never reads the open error code `ECC`, so an unopenable path does not produce -5. The model takes the null check as an arbitrary outcome and does not model `ECC`.
- `Strings.AsWrittenNeverReturns`: divergence is proved for the default `max` only. Under `max = 0` the bound wraps to 2^64 - 1 rounds, which is not stated.
- `argc`/`argv` are a sequence of strings, and `argc` is its length.
- Positions are naturals with an explicit not-found case, instead of the source's `int`/`size_t`/`npos` conversions. The model takes a 64-bit `size_t` (`Strings.SizeMax` is 2^64 - 1); the source does not fix its width.
- `Strings.AsWrittenSplit` and `Strings.AsWrittenFrom` take a bound on loop rounds, because the loop as written need not terminate.

## Findings

| source | as written | input that shows it | evidently intended | confidence | as-written member | corrected member |
|---|---|---|---|---|---|---|
| LLVMIR2OBJ.cpp:42-44 | every round of `split` searches for the delimiter from index 0. From the second round on it finds the first delimiter again, before `start`, so `pos - start` wraps around and the piece runs to the end | `split("a=b=c", '=', 3)` gives `["a", "b=c", "b=c"]` | search from `start` (`s.find(delim, start)`), giving `["a", "b", "c"]` | high; not executed | `Strings.AsWrittenDuplicates` | `Strings.Split` |
| LLVMIR2OBJ.cpp:41-46 | with the default `max` the loop stops only when `start` becomes `npos`. Every search from index 0 finds the first delimiter again, so `start` never gets there | `split("a=b", '=')` does not return | cut at every delimiter and return the pieces | high; not executed | `Strings.AsWrittenNeverReturns` | `Strings.Split` |

The parser calls `split` only with `max = 2`, where both versions return the split
at the first delimiter (`Strings.AsWrittenAtTwo`, `Strings.Split`), so neither
defect shows in the tool's behaviour.
