# aichat command helpers, modelled in Dafny

This project models the decision logic of aichat's command helpers
(`src/utils/command.rs`). The helpers do three things:

- **OS tag** (`detect_os`): the build-time OS name, refined on Linux to
  `linux/<id>` by the first `ID=` line of `/etc/os-release`.
- **Shell resolution** (`Shell`, `detect_shell`): the interpreter used to run a
  one-line script. On Windows it is chosen from `PSModulePath`; elsewhere from
  the last path segment of `SHELL`, checked against an allow-list.
- **Process primitives and loader protocol** (`run_command`,
  `run_command_with_output`, `run_loader_command`): a document loader runs a
  configured command template on an input file. `$1` is replaced by the input
  path and `$2` by a temporary output path, and the result is either the
  loader's standard output or the contents of that output file.

All I/O is an explicit input. The OS name, the environment variables and the
release file are snapshot values. In the loader, the collaborators are
function-typed fields of `Loader.LoaderEnv`: the shell-word splitter, the
temporary directory, the digest that names the output file, the two process
runners and the file reader. A runner maps the requested `Invocation` to what
the system reports for it (`StatusOutcome` or `OutputOutcome`).

Modules: `Wrappers` (Option/Result), `Strings` (the Rust `str` operations used:
the prefix test of `strip_prefix`, `contains`, `replace`, `split`, `rsplit_once`, ASCII
`to_lowercase`), `Platform`, `Shells`, `Process` and `Loader`.

Behaviours of the code worth knowing:

- A child that ends without an exit code (killed by a signal) is treated as
  exit code 0 (`unwrap_or_default`, line 78). In output-file mode it is
  therefore a success, not a failure.
- `$2` is searched for after `$1` has been substituted (lines 108-114). An input
  path that holds `$2`, or one that forms `$2` with a preceding `$`, switches on
  output-file mode (`Loader.DollarTwoInPathSelectsOutputFile`,
  `Loader.DollarTwoFormedAcrossTheBoundary`).
- Invalid UTF-8 in the captured streams is not a separate error kind. The
  "Unable to run …, perhaps … is not installed?" context wraps the whole result
  of `run_command_with_output`, so it is reported as `NotInstalled` with cause
  `InvalidUtf8(stream)`.
- An empty word list (for example an empty template) makes `split_at(1)` panic
  (line 120). This is the `Panicked` outcome of `Loader.RunLoader`.

## Model

| member | source | states |
|---|---|---|
| `Platform.FirstId` | src/utils/command.rs:11-15 | The result is the text after `ID=` on the first line that starts with `ID=`. It is `None` exactly when no line starts with `ID=`. |
| `Platform.DetectOs` | src/utils/command.rs:7-19 | A non-Linux OS name is returned unchanged. On Linux the tag is `linux/` followed by the value of the first `ID=` line. It is plain `linux` when the release file is unreadable or has no `ID=` line. |
| `Platform.DetectOsFirstIdWins` | src/utils/command.rs:8-18 | A line that is not an `ID=` line, then `ID=<first>`, then `ID=<second>` (such as `NAME=…`, `ID=ubuntu`, `ID=debian`) give `linux/<first>`: the first `ID=` line wins. |
| `Strings.StartsWithIsPrefix` | src/utils/command.rs:12 | The prefix test behind `strip_prefix` holds exactly when the line is the prefix followed by some rest. |
| `Strings.Contains` | src/utils/command.rs:43 | `contains` holds exactly when the pattern occurs at some index. |
| `Strings.ContainsTransitive` | src/utils/command.rs:108-111 | A pattern inside a substring is inside the whole string. |
| `Strings.ReplaceAbsent` | src/utils/command.rs:108-114 | `replace` with a pattern that does not occur returns the string unchanged. So the `contains` guards before each `replace` change nothing. |
| `Strings.Replace` | src/utils/command.rs:109 | `replace` of a pattern by itself returns the string unchanged. |
| `Strings.ReplaceIsSplitJoin` | src/utils/command.rs:109 | `replace` equals splitting at the pattern and joining the pieces with the replacement. By `Strings.SplitPiecesFree` no piece holds the pattern, so every occurrence is replaced. |
| `Strings.SplitPiecesFree` | src/utils/command.rs:109 | No piece of a split holds the separator. So the split behind `replace` cuts at every occurrence of the pattern, and together with `Strings.SplitJoinRoundTrip` the pieces are those between consecutive occurrences. |
| `Strings.SplitJoinRoundTrip` | src/utils/command.rs:42 | Joining the pieces of a split with the separator gives back the original string. |
| `Strings.SplitCount` | src/utils/command.rs:42 | Splitting at a character yields one more piece than that character's occurrences, so an empty value still has one segment. |
| `Strings.ReplaceInsertsRep` | src/utils/command.rs:109 | When the pattern occurs, the replacement text appears in the result. |
| `Strings.RSplitOnce` | src/utils/command.rs:58 | `None` exactly when the character is absent. Otherwise `before + c + after` rebuilds the string and `after` holds no `c`, so the split is at the last occurrence. |
| `Strings.ToLowerEachChar` | src/utils/command.rs:41 | Lower-casing keeps the length. Each upper-case ASCII letter becomes its lower-case letter (code point plus 32), and every other character stays as it is. |
| `Strings.ToLowerKeepsNonLetters` | src/utils/command.rs:41-42 | Lower-casing does not change how often a non-letter such as `;` occurs. |
| `Shells.BaseName` | src/utils/command.rs:58-61 | The shell's short name is the longest `/`-free suffix of the path. It is preceded by `/` unless it is the whole path. |
| `Shells.SegmentCount` | src/utils/command.rs:42 | The `;`-segment count of the lower-cased value is the number of `;` in it plus one. |
| `Shells.WindowsShell` | src/utils/command.rs:39-55 | `cmd` exactly when `PSModulePath` is unset or has fewer than two `;`. `pwsh` exactly when it has at least two `;` and its lower-cased value contains `powershell\7\`. Windows PowerShell otherwise. |
| `Shells.UnixShell` | src/utils/command.rs:57-65 | The flag is always `-c` and the name equals the executable. The short name of `SHELL` (default `/bin/sh`) is used when it is bash, zsh, fish or pwsh. Otherwise the result is `sh`. |
| `Shells.DetectShell` | src/utils/command.rs:37-67 | On Windows only `PSModulePath` matters. Elsewhere only `SHELL` matters. |
| `Shells.ZshExample` | src/utils/command.rs:57-64 | `SHELL=/usr/bin/zsh` gives `("zsh", "zsh", "-c")`. |
| `Shells.TcshExample` | src/utils/command.rs:57-64 | `SHELL=/usr/bin/tcsh` falls back to `("sh", "sh", "-c")`. |
| `Shells.UnsetShellExample` | src/utils/command.rs:57-64 | An unset `SHELL` is read as `/bin/sh` and gives `sh`, even when `PSModulePath` is set. |
| `Shells.WindowsPowerShellExample` | src/utils/command.rs:42-46 | `a;b;c` has three segments and no PowerShell 7 marker, so it selects Windows PowerShell. |
| `Shells.EmptyPsModulePathExample` | src/utils/command.rs:40-54 | An empty `PSModulePath` is one segment and selects `cmd`. `SHELL` is ignored on Windows. |
| `Process.ChildEnvironment` | src/utils/command.rs:74-77 | Without overrides the child inherits the environment unchanged. With overrides, the keys are the union and override values win over inherited ones. |
| `Process.RunCommand` | src/utils/command.rs:69-79 | A spawn failure is the only error. An exit code is passed through. A missing exit code reads as 0, so the result is `Success(0)` exactly for exit code 0 or none. |
| `Process.RunCommandWithOutput` | src/utils/command.rs:81-94 | Spawn failure, invalid UTF-8 in stdout and invalid UTF-8 in stderr (checked in that order) are the only errors. Otherwise the success flag and both texts come back verbatim. |
| `Loader.TempOutputPath` | src/utils/command.rs:101-104 | The output path is the temp directory followed by `aichat-output-<digest>`, or the same with `/` between them. The `/` is there exactly when the temp directory is non-empty and does not already end in `/`. |
| `Loader.TempOutputPathInjective` | src/utils/command.rs:101-104 | The same temp directory and different digests never give the same output path. |
| `Loader.OutputPath` | src/utils/command.rs:101-104 | The output path of an input is the temp directory followed by `aichat-output-` and the input's digest, with a `/` between them exactly when the temp directory is non-empty and does not end in `/`. |
| `Loader.DistinctDigestsDistinctOutputPaths` | src/utils/command.rs:101-104 | Input paths with different digests get different output files. |
| `Loader.SubstituteWord` | src/utils/command.rs:107-116 | A word becomes `replace(replace(w, "$1", path), "$2", outpath)` and is unchanged when it has neither token. `$2` is reported exactly when it occurs after `$1` has been substituted. |
| `Loader.SubstituteAll` | src/utils/command.rs:105-117 | The list keeps its length and order, and each word is substituted as above. Output-file mode is chosen exactly when some word holds `$2` after its `$1` is substituted. |
| `Loader.DollarTwoInPathSelectsOutputFile` | src/utils/command.rs:108-114 | An input path that holds `$2`, used by any `$1` word, switches on output-file mode, whatever the output path. |
| `Loader.DollarTwoFormedAcrossTheBoundary` | src/utils/command.rs:108-114 | `$$1` with a path `2<rest>` (such as `2.pdf`, with no `$` in the rest) forms a new `$2`. That `$2` is replaced by the output path, giving `<outpath><rest>`, and output-file mode is selected. |
| `Loader.PlainWordUnchanged` | src/utils/command.rs:107-116 | A word without `$` passes through unchanged and does not request an output file. |
| `Loader.BareInputWord` | src/utils/command.rs:108-110 | A bare `$1` becomes exactly the input path when the path holds no `$`. |
| `Loader.CatTemplateExample` | src/utils/command.rs:105-117 | `cat $1` becomes `cat <path>` in stdout mode when the path holds no `$`. |
| `Loader.BareOutputWord` | src/utils/command.rs:111-114 | A bare `$2` becomes exactly the output path and requests the output file, whatever the input path. |
| `Loader.ConvertTemplateExample` | src/utils/command.rs:105-117 | `<program> $1 $2` becomes `<program> <path> <outpath>` in output-file mode when neither the program nor the path holds `$`. |
| `Loader.StdoutResult` | src/utils/command.rs:123-135 | A run error gives `NotInstalled` naming the program and the cause, and nothing else does. Success gives stdout. Failure with non-empty stderr gives that stderr. Failure with empty stderr gives the non-zero-exit error. |
| `Loader.OutputFileResult` | src/utils/command.rs:137-145 | A run error gives `NotInstalled` naming the program and the cause, and nothing else does. A non-zero exit code gives the non-zero-exit error. Exit code 0 gives the output file's contents, or `ReadFailed` exactly when the file cannot be read. |
| `Loader.LoaderInvocation` | src/utils/command.rs:118-121 | The program is the first substituted word, the arguments are the remaining substituted words in order, and no environment overrides are passed. |
| `Loader.RunLoader` | src/utils/command.rs:96-147 | A template that does not split gives the invalid-loader error naming the extension and template, and is the only source of that error. The call panics exactly when the split gives no words. A loaded text is the captured stdout of a successful run in stdout mode, or the output file's contents in output-file mode. |
| `Loader.StdoutModeOutcomes` | src/utils/command.rs:122-135 | In stdout mode: a spawn failure or invalid UTF-8 gives `NotInstalled`. Failure with non-empty stderr gives that stderr. Failure with empty stderr gives the non-zero-exit error. Success gives stdout untrimmed. |
| `Loader.OutputFileModeOutcomes` | src/utils/command.rs:136-146 | In output-file mode: a spawn failure gives `NotInstalled`, and a non-zero exit code gives the non-zero-exit error. Exit code 0 or none gives the output file's contents, or `ReadFailed` when it cannot be read. |
| `Loader.ParseFailureConsultsNothing` | src/utils/command.rs:97-99 | When the template does not split, the result does not depend on the temp directory, digest, runners or file reader. |
| `Loader.StdoutModeIgnoresOutputFile` | src/utils/command.rs:122-135 | In stdout mode the status runner and the file reader do not affect the result. |
| `Loader.OutputFileModeIgnoresCapture` | src/utils/command.rs:136-146 | In output-file mode the capturing runner does not affect the result. |

## Left out

- Spawning and waiting for processes, reading environment variables and reading files are not modelled. Their results are inputs: runner outcomes, `Option` snapshots and the `readFile` field.
- `edit_file` is not modelled. It only spawns the editor, waits and discards the exit status, so the only thing to state would be that a spawn error propagates.
- `shell_words::split` is not modelled; its result is an input (the `splitWords` field). `shell_words::join` is not modelled either. It only feeds the `debug!` log and error text, so errors carry the substituted word list instead of the joined string.
- `sha256` and `env::temp_dir` are an uninterpreted `digest` function and a `tempDir` value. Only determinism and injectivity in the digest are used.
- The splitting of the release file into lines (`str::lines`) is not modelled; `Platform.DetectOs` receives the lines.
- Strings.ToLowerEachChar, Strings.ToLower: lower-case ASCII letters only, whereas Rust's `to_lowercase` is Unicode-aware. Lower-casing never adds or removes `;`. The only non-ASCII characters whose lower case contains ASCII letters yield `i` or `k`, and `powershell\7\` contains neither. So the Windows decision is the same either way.
- Strings.Replace: requires a non-empty pattern, while Rust's `replace` also accepts an empty one. The helpers only ever pass `$1` and `$2`.
- Loader.TempOutputPath: models `Path::join` with Unix `/` separators. Windows separators and path prefixes are not modelled, and neither is the lossy `display()` conversion of a non-UTF-8 temp directory.
- Error text and `anyhow` context chaining are not modelled. Errors are kinds carrying the extension, template, command words, program, stderr or cause.
- An environment variable that is set but not valid Unicode makes `env::var` fail. It is represented, like an unset variable, by `None` in the snapshot.
- The race between concurrent loader runs on the same input path, which share one output file, is not modelled because it is a concurrency issue.
