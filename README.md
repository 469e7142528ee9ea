# lamlight helpers, modelled in Dafny

This project models the helper module of lamlight, a tool that packages a
local project for an AWS Lambda function (`lamlight/helper.py`). It covers
three parts.

- **The project configuration file and the change detector.** The INI file
  named by `consts.LAMLIGHT_CONF` is an `Option<Store>`: `None` when the file does not
  exist, otherwise a map from section name to a map from option name to
  string value. The file system is a map from path to integer mtime.
  - `requirement_changed` decides whether `requirements.txt` changed since
    its mtime was last recorded. It is always true when no `PROJECT_DETAILS`
    section exists. Otherwise it is true iff the recorded and current mtimes
    differ, so an older mtime also counts as changed.
  - `update_last_modified_time` records a file's mtime as decimal text in
    `PROJECT_DETAILS`.
  - `save_lamlight_conf` replaces the whole file with one `LAMBDA_FUNCTION`
    section. Its option is `funtionname`, spelled as in the code.
  - Python's `str(n)` on integers is modelled exactly, and `int` is exact on
    the text `str` produces (other inputs are narrowed, see "## Left out").
    This lets the model prove the round trip: record the mtime, then check with the file
    untouched, and the answer is "unchanged".
- **The dependent-command runner** (`run_dependent_commands`). Each
  command, with its arguments already bound, is a function from a world
  state to a status and a new world. The runner runs the commands in order
  and stops after the first one whose status is truthy (non-zero).
- **The test-tree pruner** (`remove_trees`). The directory walk is given as
  the list of directories it produces, in walk order. For each one the model
  knows two things: whether it is still a directory, and whether deleting it
  would raise. The pruner tries to delete every directory whose name
  contains `tests`. It returns 1 at the first deletion that raises and 0
  when none does.

Modules and files:
- `wrappers.dfy`: `Option` and `Result`.
- `config_store.dfy`: the store, the section and option names, reading the
  file, and the parser's `set`.
- `int_text.dfy`: `str(n)` and `int(s)` for integers.
- `change_detector.dfy`: the mtime lookup, `requirement_changed`, the
  configuration that `update_last_modified_time` writes, and the lemmas
  that connect them.
- `project_dir.dfy`: the class `Project`, which holds the configuration file
  and the file times. Its two methods are the helpers that rewrite the file.
- `command_runner.dfy`: the runner.
- `test_pruner.dfy`: the pruner.

Python exceptions are modelled as `Err` values:
- `KeyError`: a missing dictionary entry or a missing option.
- `ValueError`: the recorded mtime is not an integer.
- `FileNotFoundError`: `os.stat` of a missing file.

Some details of the code, modelled as written:
- `save_lamlight_conf` opens the file for writing before it looks up
  `FunctionName`. When that key is missing, the file is left empty and
  `KeyError` is raised.
- `requirement_changed` reads and parses the recorded value before it stats
  `requirements.txt`. A bad recorded value is therefore reported even when
  the manifest is missing.
- `update_last_modified_time` stats the file first. A missing file raises
  and nothing is written.

Three places where the code behaves differently from what a reader might
expect. The model follows the code in each:
- The pruner does not go on after a failed deletion. It returns 1 at once,
  and later directories are not attempted.
- The runner signals failure by raising `AssertionError`. It does not
  return a step index. The model reports `FailedAt(index, status)` as what
  the exception stands for.
- Binding the project to a function does not merge into the existing file.
  It replaces the whole file, so recorded dependency state is lost.

## Model

| member | source | states |
|---|---|---|
| ConfigStore.ReadConfigurationFile | lamlight/helper.py:126-128 | a missing configuration file reads as an empty configuration; an existing one reads as its stored sections |
| ConfigStore.SetOption | lamlight/helper.py:184-185 | setting an option in an existing section gives it the new value and keeps every other section, and every other option of that section, unchanged |
| IntText.IntToString | lamlight/helper.py:185 | `str(n)` is non-empty decimal digits, led by a minus sign exactly when n is negative, with no leading zero (it starts with `0` only for 0) |
| IntText.ParseInt | lamlight/helper.py:164 | `int(s)` succeeds exactly on a non-empty run of ASCII digits, optionally after one sign; a negative result comes only from a leading minus; the digits after an optional sign parse to the number they denote, negated after a minus (weaker — admitted under "## Left out") |
| IntText.ParseIntToString | lamlight/helper.py:164 | `int(str(n)) == n` for every integer n |
| IntText.IntToStringInjective | lamlight/helper.py:185 | distinct mtimes are recorded as distinct text |
| ChangeDetector.GetFileModifiedTime | lamlight/helper.py:190-206 | returns the file's mtime when it exists and raises FileNotFoundError for that path otherwise |
| ChangeDetector.RequirementChanged | lamlight/helper.py:149-167 | true when PROJECT_DETAILS is absent; otherwise false iff the recorded value parses to the current mtime of requirements.txt, and true iff it parses to a different one (older or newer); KeyError when the option is missing, ValueError when it does not parse, FileNotFoundError for a missing manifest only after a good recorded value |
| ChangeDetector.RecordModifiedTime | lamlight/helper.py:180-187 | fails exactly when the file is missing; otherwise PROJECT_DETAILS exists with the option set to `str(mtime)`, the section set is the old one plus PROJECT_DETAILS, other sections are unchanged, an existing PROJECT_DETAILS keeps its other options, and a new one holds only that option |
| ChangeDetector.RecordThenCheck | lamlight/helper.py:164-167 | after recording the mtime of any file, the check answers whether that mtime differs from the manifest's |
| ChangeDetector.RecordThenUnchanged | lamlight/helper.py:184-185 | record the manifest's mtime, leave it untouched, and the check says unchanged |
| ChangeDetector.RecordThenTouched | lamlight/helper.py:167 | record the manifest's mtime, then give it any other mtime, newer or older, and the check says changed |
| ChangeDetector.RecordIdempotent | lamlight/helper.py:182-185 | recording the same file twice writes the same configuration as recording it once (the section is reused, not duplicated) |
| ChangeDetector.FreshProjectChanged | lamlight/helper.py:159-162 | with no configuration file, reading gives no sections and the manifest counts as changed |
| ChangeDetector.TouchScenario | lamlight/helper.py:164-167 | recorded 1000 against a manifest at 1000 is unchanged; at 1001 it is changed |
| ProjectDir.Project.SaveLamlightConf | lamlight/helper.py:109-113 | succeeds iff FunctionName is given; the file then holds exactly LAMBDA_FUNCTION with only `funtionname`; without it the file is emptied and KeyError raised; file times unchanged; afterwards the manifest always counts as changed |
| ProjectDir.Project.UpdateLastModifiedTime | lamlight/helper.py:180-187 | on a missing file raises FileNotFoundError and leaves the configuration alone; otherwise writes exactly the recorded configuration; file times unchanged; recording requirements.txt makes the check say unchanged |
| CommandRunner.Pipe | lamlight/helper.py:33-34 | running commands in sequence: the empty list leaves the world alone, and running a list is running all but its last command, then the last one on the world they leave |
| CommandRunner.Run | lamlight/helper.py:33-34 | at most every command runs, every command before the last one that ran succeeded, and the run ends early only after a failing command |
| CommandRunner.RunWorldIsPrefixEffect | lamlight/helper.py:33-34 | the final world is the effect of exactly the commands that ran, in list order |
| CommandRunner.RunStatusIsCommandResult | lamlight/helper.py:33-34 | each recorded status is what that command returned on the world its predecessors left |
| CommandRunner.RunIgnoresLaterCommands | lamlight/helper.py:33-34 | once a command fails, commands after it make no difference: no later command runs |
| CommandRunner.RunAllSucceed | lamlight/helper.py:33-34 | when every command succeeds, every command runs exactly once, in order |
| CommandRunner.RunDependentCommands | lamlight/helper.py:20-34 | the loop leaves the world of the fail-fast run and reports the position and status of the failing command, or completion when every status is zero |
| CommandRunner.FailureScenario | lamlight/helper.py:33-34 | with steps A (succeeds), B (fails), C (succeeds), A and B run, C does not, and B is the failure |
| TestPruner.Contains | lamlight/helper.py:55 | `'tests' in dir`: the substring test holds exactly when the substring occurs at some position of the name |
| TestPruner.Eligible | lamlight/helper.py:55 | the guard `isdir and 'tests' in dir`: the entry is still a directory and `tests` occurs somewhere in its name |
| TestPruner.Prune | lamlight/helper.py:52-60 | only existing directories whose name contains `tests` are attempted, each once and in walk order; the exit code is 0 or 1 |
| TestPruner.PruneCode | lamlight/helper.py:56-60 | the exit code is 0 exactly when no eligible directory's deletion raises |
| TestPruner.PruneAttemptsAllOnSuccess | lamlight/helper.py:52-57 | with exit code 0, every eligible directory was deleted |
| TestPruner.PruneEndsAtFailure | lamlight/helper.py:56-59 | with exit code 1, the last attempted deletion is one that raised |
| TestPruner.PruneStopsAtFirstFailure | lamlight/helper.py:58-59 | no attempt except the last one raised, so nothing is attempted after a failure |
| TestPruner.PruneSkipsNothingBeforeLast | lamlight/helper.py:52-57 | every eligible directory before the last attempt was attempted |
| TestPruner.RemoveTrees | lamlight/helper.py:37-60 | the loop returns the exit code and deletion attempts of the pruning specification |
| TestPruner.PackageScenario | lamlight/helper.py:55 | a walk over pkgA/tests, pkgB/lib and pkgC/unit_tests deletes `tests` and `unit_tests` and exits with 0 |

## Left out

- `download_object` (lamlight/helper.py:63-81): a network fetch into a temporary directory. This is pure I/O.
- `extract_zipped_code` (lamlight/helper.py:84-94): a wrapper over zip extraction. This is pure I/O.
- `create_package` (lamlight/helper.py:131-146): a directory copy plus an empty manifest file. Its success test depends on the return value of `copy_tree`, whose source is not part of this model.
- The INI text format is not modelled. The store is an abstract map, so these are left out:
  - serialisation and parse errors of a malformed file;
  - lower-casing of option names (both names used here are already lower case);
  - interpolation of `%` in values;
  - the fallback of option lookups to the DEFAULT section.
- I/O failures are not modelled: an unwritable configuration file raising on `open`, and the unclosed file handle in `save_lamlight_conf`.
- Writing the configuration file does not update that file's own mtime in the file-time map.
- The clock and `os.stat` are not modelled. Mtimes are given integers.
- The pruner's walk listing, including whether each entry is still a directory and whether its deletion raises, is a given input.
  - The real traversal order of `os.walk` is not modelled.
  - Neither is the effect of a deletion on later `isdir` checks.
  - Exceptions that are not `Exception` subclasses are not modelled.
- A command that itself raises (the call at lamlight/helper.py:34 propagates its exception, and no later command runs) is represented by a non-zero status: commands are total functions and cannot raise.
- Command results are integers (0 is falsy). Python's other falsy values (`None`, `False`, empty containers) are not modelled.
- Under `python -O` the runner's `assert` is stripped and every command runs. The model gives the intended fail-fast behaviour.
- ProjectDir.Project.SaveLamlightConf: the values of the lambda information dictionary are assumed to be strings. A non-string `FunctionName` makes the assignment at lamlight/helper.py:112 raise TypeError after the file was already emptied at lamlight/helper.py:109; that error path is not modelled.
- IntText.ParseInt: accepts only an optional sign followed by ASCII digits. Python's `int` also accepts surrounding whitespace, underscores between digits and non-ASCII decimal digits. Such a hand-edited value is reported as ValueError here, where Python would parse it.
