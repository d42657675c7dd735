/** `run_loader_command` (src/utils/command.rs): run a configured document
    loader on an input file and return the text it produces.

    The template is split into shell words, `$1` is replaced by the input path
    and `$2` by a temporary output path in every word, and the first word is
    run with the rest as arguments. Without `$2` the loader's standard output
    is the document ("stdout mode"); with `$2` the loader writes the document
    to the temporary path, which is read back ("output-file mode").

    Everything the function asks of its surroundings is a field of
    `LoaderEnv`: the shell-word splitter, the temporary directory, the digest
    that names the output file, the two process runners and the file reader. */
module Loader {
  import opened Wrappers
  import opened Strings
  import opened Process

  const InputToken := "$1"
  const OutputToken := "$2"
  const OutputFilePrefix := "aichat-output-"

  /** How the loaded text is retrieved, decided from the words alone. */
  datatype Mode = StdoutMode | OutputFileMode

  /** The failures of a loader run, by kind. */
  datatype LoaderError =
      /** The template does not split into shell words. */
    | InvalidLoader(extension: string, template: string)
      /** The loader could not be run, or its output was not UTF-8 text. */
    | NotInstalled(command: seq<string>, program: string, cause: RunError)
      /** The loader failed and said why on standard error. */
    | CommandFailed(stderr: string)
      /** The loader failed without a message, or exited non-zero. */
    | ExitedNonZero(command: seq<string>)
      /** The loader's output file could not be read back. */
    | ReadFailed

  /** A call either returns or panics (`split_at(1)` on an empty word list). */
  datatype Run<+T> = Returned(value: T) | Panicked

  /** The collaborators of a loader run. */
  datatype LoaderEnv = LoaderEnv(
    splitWords: string -> Option<seq<string>>,  // shell_words::split
    tempDir: string,                            // env::temp_dir()
    digest: string -> string,                   // sha256
    status: Invocation -> StatusOutcome,        // the runner behind run_command
    output: Invocation -> OutputOutcome,        // the runner behind run_command_with_output
    readFile: string -> Option<string>)         // std::fs::read_to_string

  /** `PathBuf::join` of a relative file name onto a Unix directory: a `/` is
      put between them unless the directory is empty or already ends in one. */
  function JoinPath(dir: string, name: string): string {
    if |dir| == 0 || dir[|dir| - 1] == '/' then dir + name else dir + "/" + name
  }

  /** The temporary output file for an input whose digest is `digest`. */
  function TempOutputPath(tempDir: string, digest: string): (p: string)
    ensures p == tempDir + OutputFilePrefix + digest || p == tempDir + "/" + OutputFilePrefix + digest
    ensures (|tempDir| > 0 && tempDir[|tempDir| - 1] != '/') <==> p == tempDir + "/" + OutputFilePrefix + digest
  {
    var name := OutputFilePrefix + digest;
    assert tempDir + "/" + name != tempDir + name by {
      assert |tempDir + "/" + name| != |tempDir + name|;
    }
    JoinPath(tempDir, name)
  }

  /** Distinct digests name distinct output files. */
  lemma TempOutputPathInjective(tempDir: string, d1: string, d2: string)
    requires TempOutputPath(tempDir, d1) == TempOutputPath(tempDir, d2)
    ensures d1 == d2
  {
    var p := TempOutputPath(tempDir, d1);
    var sep := if |tempDir| > 0 && tempDir[|tempDir| - 1] != '/' then "/" else "";
    var head := tempDir + sep + OutputFilePrefix;
    var k := |head|;
    assert p == head + d1;
    assert p == head + d2;
    assert (head + d1)[k..] == d1;
    assert (head + d2)[k..] == d2;
  }

  /** The output path of an input path: fixed by the path alone. */
  function OutputPath(env: LoaderEnv, path: string): (p: string)
    ensures var name := OutputFilePrefix + env.digest(path);
      p == env.tempDir + name || p == env.tempDir + "/" + name
    ensures (|env.tempDir| > 0 && env.tempDir[|env.tempDir| - 1] != '/') <==>
      p == env.tempDir + "/" + OutputFilePrefix + env.digest(path)
  {
    TempOutputPath(env.tempDir, env.digest(path))
  }

  /** Two inputs whose digests differ never share an output file. */
  lemma DistinctDigestsDistinctOutputPaths(env: LoaderEnv, path1: string, path2: string)
    requires env.digest(path1) != env.digest(path2)
    ensures OutputPath(env, path1) != OutputPath(env, path2)
  {
    if OutputPath(env, path1) == OutputPath(env, path2) {
      TempOutputPathInjective(env.tempDir, env.digest(path1), env.digest(path2));
    }
  }

  /** The substitution of one word: `$1` first, then `$2` in what results.
      The second component reports whether `$2` was found. */
  function SubstituteWord(word: string, path: string, outpath: string): (r: (string, bool))
    ensures r.0 == Replace(Replace(word, InputToken, path), OutputToken, outpath)
    ensures r.1 <==> Contains(Replace(word, InputToken, path), OutputToken)
    ensures !Contains(word, InputToken) && !Contains(word, OutputToken) ==> r.0 == word
  {
    var v := if Contains(word, InputToken) then Replace(word, InputToken, path) else word;
    assert v == Replace(word, InputToken, path) by {
      if !Contains(word, InputToken) {
        ReplaceAbsent(word, InputToken, path);
      }
    }
    assert !Contains(v, OutputToken) ==> v == Replace(v, OutputToken, outpath) by {
      if !Contains(v, OutputToken) {
        ReplaceAbsent(v, OutputToken, outpath);
      }
    }
    if Contains(v, OutputToken) then (Replace(v, OutputToken, outpath), true) else (v, false)
  }

  /** Some word, once its `$1` is substituted, holds `$2`. */
  ghost predicate RequestsOutputFile(words: seq<string>, path: string) {
    exists i :: 0 <= i < |words| && Contains(Replace(words[i], InputToken, path), OutputToken)
  }

  /** Some word requests the output file exactly when the first one does or
      one of the others does. */
  lemma RequestsOutputFileCons(words: seq<string>, path: string)
    requires |words| > 0
    ensures RequestsOutputFile(words, path) <==>
      Contains(Replace(words[0], InputToken, path), OutputToken) || RequestsOutputFile(words[1..], path)
  {

  }

  /** The substitution of the whole word list, and the mode it selects. */
  function SubstituteAll(words: seq<string>, path: string, outpath: string): (r: (seq<string>, Mode))
    ensures |r.0| == |words|
    ensures forall i :: 0 <= i < |words| ==>
      r.0[i] == Replace(Replace(words[i], InputToken, path), OutputToken, outpath)
    ensures r.1 == OutputFileMode <==> RequestsOutputFile(words, path)
    decreases |words|
  {
    if |words| == 0 then ([], StdoutMode)
    else
      var (word, requested) := SubstituteWord(words[0], path, outpath);
      var (rest, mode) := SubstituteAll(words[1..], path, outpath);
      var all := [word] + rest;
      assert forall i :: 1 <= i < |words| ==> words[1..][i - 1] == words[i] && all[i] == rest[i - 1];
      RequestsOutputFileCons(words, path);
      (all, if requested then OutputFileMode else mode)
  }

  /** If the input path itself holds `$2`, any word using `$1` switches on
      output-file mode: `$1` is substituted before `$2` is looked for. */
  lemma DollarTwoInPathSelectsOutputFile(words: seq<string>, path: string, outpath: string, i: int)
    requires 0 <= i < |words| && Contains(words[i], InputToken)
    requires Contains(path, OutputToken)
    ensures SubstituteAll(words, path, outpath).1 == OutputFileMode
  {
    ReplaceInsertsRep(words[i], InputToken, path);
    ContainsTransitive(Replace(words[i], InputToken, path), path, OutputToken);
  }

  /** The same can happen without `$2` in the path: `$` before `$1` and a path
      starting with `2` (such as `2.pdf`) form a new `$2`, which is then
      replaced by the output path. */
  lemma DollarTwoFormedAcrossTheBoundary(rest: string, outpath: string)
    requires '$' !in rest
    ensures SubstituteWord("$$1", "2" + rest, outpath) == (outpath + rest, true)
  {
    var word, path := "$$1", "2" + rest;
    assert !StartsWith(word, InputToken) by {
      assert word[..2][1] != InputToken[1];
    }
    assert word[1..] == InputToken && InputToken[2..] == [];
    assert Replace(InputToken, InputToken, path) == path + Replace([], InputToken, path);
    var v := Replace(word, InputToken, path);
    assert v == ['$'] + path;
    assert StartsWith(v, OutputToken) && v[2..] == rest;
    NoDollarNoToken(rest);
    ReplaceAbsent(rest, OutputToken, outpath);
    assert Replace(v, OutputToken, outpath) == outpath + Replace(rest, OutputToken, outpath);
    assert OccursAt(v, OutputToken, 0);
  }

  /** A word without `$` holds neither token. */
  lemma NoDollarNoToken(s: string)
    requires '$' !in s
    ensures !Contains(s, InputToken) && !Contains(s, OutputToken)
  {
    forall i | 0 <= i && i + 2 <= |s|
      ensures !OccursAt(s, InputToken, i) && !OccursAt(s, OutputToken, i)
    {
      assert s[i] in s;
      assert s[i..i + 2][0] == s[i];
    }
  }

  /** A word without `$` is left as it is. */
  lemma PlainWordUnchanged(word: string, path: string, outpath: string)
    requires '$' !in word
    ensures SubstituteWord(word, path, outpath) == (word, false)
  {
    NoDollarNoToken(word);
    ReplaceAbsent(word, InputToken, path);
  }

  /** A bare `$1` becomes the input path, which cannot form `$2` when it
      holds no `$`. */
  lemma BareInputWord(path: string, outpath: string)
    requires '$' !in path
    ensures SubstituteWord(InputToken, path, outpath) == (path, false)
  {
    NoDollarNoToken(path);
    ReplaceAbsent(path, OutputToken, outpath);
    assert StartsWith(InputToken, InputToken) && InputToken[|InputToken|..] == [];
    assert Replace(InputToken, InputToken, path) == path + Replace([], InputToken, path);
    assert path + [] == path;
  }

  /** `cat $1` substitutes the input path and stays in stdout mode. */
  lemma CatTemplateExample(path: string, outpath: string)
    requires '$' !in path
    ensures SubstituteAll(["cat", "$1"], path, outpath) == (["cat", path], StdoutMode)
  {
    assert '$' !in "cat";
    PlainWordUnchanged("cat", path, outpath);
    BareInputWord(path, outpath);
    var words := ["cat", InputToken];
    var r := SubstituteAll(words, path, outpath);
    assert r.0[0] == "cat" && r.0[1] == path;
    assert r.0 == ["cat", path];
    assert !RequestsOutputFile(words, path);
  }

  /** A bare `$2` becomes exactly the output path and requests the output
      file, whatever the input path. */
  lemma BareOutputWord(path: string, outpath: string)
    ensures SubstituteWord(OutputToken, path, outpath) == (outpath, true)
  {
    assert OutputToken[..2][1] != InputToken[1];
    assert OutputToken[1..] == "2" && "2"[1..] == [];
    ReplaceAbsent(OutputToken, InputToken, path);
    assert StartsWith(OutputToken, OutputToken) && OutputToken[|OutputToken|..] == [];
    assert Replace(OutputToken, OutputToken, outpath) == outpath + Replace([], OutputToken, outpath);
    assert outpath + [] == outpath;
    assert OccursAt(OutputToken, OutputToken, 0);
  }

  /** `<program> $1 $2` names the input and the output file and selects
      output-file mode. */
  lemma ConvertTemplateExample(program: string, path: string, outpath: string)
    requires '$' !in program && '$' !in path
    ensures SubstituteAll([program, "$1", "$2"], path, outpath) == ([program, path, outpath], OutputFileMode)
  {
    PlainWordUnchanged(program, path, outpath);
    BareInputWord(path, outpath);
    BareOutputWord(path, outpath);
    var words := [program, InputToken, OutputToken];
    var r := SubstituteAll(words, path, outpath);
    assert r.0[0] == SubstituteWord(words[0], path, outpath).0 == program;
    assert r.0[1] == SubstituteWord(words[1], path, outpath).0 == path;
    assert r.0[2] == SubstituteWord(words[2], path, outpath).0 == outpath;
    assert r.0 == [program, path, outpath];
    assert RequestsOutputFile(words, path) by {
      assert SubstituteWord(words[2], path, outpath).1;
    }
  }

  /** Stdout mode: the captured standard output, verbatim, on success. */
  function StdoutResult(command: seq<string>, ran: Result<(bool, string, string), RunError>): (r: Result<string, LoaderError>)
    requires |command| > 0
    ensures r.Success? <==> ran.Success? && ran.value.0
    ensures r.Success? ==> r.value == ran.value.1
    ensures ran.Failure? <==> r.Failure? && r.error.NotInstalled?
    ensures ran.Failure? ==> r == Failure(NotInstalled(command, command[0], ran.error))
    ensures r.Failure? && r.error.CommandFailed? <==> ran.Success? && !ran.value.0 && ran.value.2 != ""
    ensures r.Failure? && r.error.CommandFailed? ==> r.error.stderr == ran.value.2
    ensures r == Failure(ExitedNonZero(command)) <==> ran.Success? && !ran.value.0 && ran.value.2 == ""
    ensures r.Failure? ==> !r.error.ReadFailed? && !r.error.InvalidLoader?
  {
    match ran
    case Failure(e) => Failure(NotInstalled(command, command[0], e))
    case Success((ok, out, err)) =>
      if ok then Success(out)
      else if err != "" then Failure(CommandFailed(err))
      else Failure(ExitedNonZero(command))
  }

  /** Output-file mode: the output file's contents after a zero exit code. */
  function OutputFileResult(command: seq<string>, ran: Result<ExitCode, RunError>,
                            readFile: string -> Option<string>, outpath: string): (r: Result<string, LoaderError>)
    requires |command| > 0
    ensures r.Success? <==> ran == Success(0) && readFile(outpath).Some?
    ensures r.Success? ==> Some(r.value) == readFile(outpath)
    ensures r == Failure(ReadFailed) <==> ran == Success(0) && readFile(outpath).None?
    ensures r == Failure(ExitedNonZero(command)) <==> ran.Success? && ran.value != 0
    ensures ran.Failure? <==> r.Failure? && r.error.NotInstalled?
    ensures ran.Failure? ==> r == Failure(NotInstalled(command, command[0], ran.error))
    ensures r.Failure? ==> !r.error.CommandFailed? && !r.error.InvalidLoader?
  {
    match ran
    case Failure(e) => Failure(NotInstalled(command, command[0], e))
    case Success(code) =>
      if code != 0 then Failure(ExitedNonZero(command))
      else match readFile(outpath)
        case None => Failure(ReadFailed)
        case Some(contents) => Success(contents)
  }

  /** The invocation of a split template: its first substituted word is the
      program, the others are its arguments, and no environment is added. */
  function LoaderInvocation(words: seq<string>, path: string, env: LoaderEnv): (inv: Invocation)
    requires |words| > 0
    ensures inv.envs.None? && 1 + |inv.args| == |words|
    ensures var outpath := OutputPath(env, path);
      && inv.program == Replace(Replace(words[0], InputToken, path), OutputToken, outpath)
      && forall i :: 0 <= i < |inv.args| ==>
           inv.args[i] == Replace(Replace(words[i + 1], InputToken, path), OutputToken, outpath)
  {
    var args := SubstituteAll(words, path, OutputPath(env, path)).0;
    Invocation(args[0], args[1..], None)
  }

  /** `run_loader_command`: the loaded text for input `path`, whose file
      extension is `extension`, with loader template `template`. */
  function RunLoader(path: string, extension: string, template: string, env: LoaderEnv): (r: Run<Result<string, LoaderError>>)
    ensures env.splitWords(template).None? ==> r == Returned(Failure(InvalidLoader(extension, template)))
    ensures r.Panicked? <==> env.splitWords(template) == Some([])
    ensures r.Returned? && r.value.Failure? && r.value.error.InvalidLoader? ==> env.splitWords(template).None?
    ensures r.Returned? && r.value.Success? ==>
      && env.splitWords(template).Some?
      && |env.splitWords(template).value| > 0
      && var words := env.splitWords(template).value;
         var inv := LoaderInvocation(words, path, env);
         var o := env.output(inv);
         || (!RequestsOutputFile(words, path) && o.Captured? && o.success && o.stdout == Some(r.value.value))
         || (RequestsOutputFile(words, path) && env.readFile(OutputPath(env, path)) == Some(r.value.value))
  {
    match env.splitWords(template)
    case None => Returned(Failure(InvalidLoader(extension, template)))
    case Some(words) =>
      var outpath := OutputPath(env, path);
      var (args, mode) := SubstituteAll(words, path, outpath);
      if |args| == 0 then
        Panicked
      else if mode == StdoutMode then
        Returned(StdoutResult(args, RunCommandWithOutput(env.output, args[0], args[1..], None)))
      else
        Returned(OutputFileResult(args, RunCommand(env.status, args[0], args[1..], None), env.readFile, outpath))
  }

  /** Stdout mode, case by case, in terms of what the system reports. */
  lemma StdoutModeOutcomes(path: string, extension: string, template: string, env: LoaderEnv, words: seq<string>)
    requires env.splitWords(template) == Some(words) && |words| > 0
    requires !RequestsOutputFile(words, path)
    ensures var inv := LoaderInvocation(words, path, env);
      var command := [inv.program] + inv.args;
      var o := env.output(inv);
      var r := RunLoader(path, extension, template, env);
      && (o.OutputSpawnFailed? ==> r == Returned(Failure(NotInstalled(command, inv.program, SpawnFailed))))
      && (o.Captured? && o.stdout.None? ==>
            r == Returned(Failure(NotInstalled(command, inv.program, InvalidUtf8(Stdout)))))
      && (o.Captured? && o.stdout.Some? && o.stderr.None? ==>
            r == Returned(Failure(NotInstalled(command, inv.program, InvalidUtf8(Stderr)))))
      && (o.Captured? && !o.success && o.stdout.Some? && o.stderr == Some("") ==>
            r == Returned(Failure(ExitedNonZero(command))))
      && (o.Captured? && !o.success && o.stdout.Some? && o.stderr.Some? && o.stderr.value != "" ==>
            r == Returned(Failure(CommandFailed(o.stderr.value))))
      && (o.Captured? && o.success && o.stdout.Some? && o.stderr.Some? ==>
            r == Returned(Success(o.stdout.value)))
  {
  }

  /** Output-file mode, case by case, in terms of what the system reports.
      A child that ends without an exit code counts as a success. */
  lemma OutputFileModeOutcomes(path: string, extension: string, template: string, env: LoaderEnv, words: seq<string>)
    requires env.splitWords(template) == Some(words) && |words| > 0
    requires RequestsOutputFile(words, path)
    ensures var inv := LoaderInvocation(words, path, env);
      var command := [inv.program] + inv.args;
      var s := env.status(inv);
      var r := RunLoader(path, extension, template, env);
      && (s.StatusSpawnFailed? ==> r == Returned(Failure(NotInstalled(command, inv.program, SpawnFailed))))
      && (s.Exited? && s.code.Some? && s.code.value != 0 ==> r == Returned(Failure(ExitedNonZero(command))))
      && (s in {Exited(None), Exited(Some(0))} && env.readFile(OutputPath(env, path)).None? ==>
            r == Returned(Failure(ReadFailed)))
      && (s in {Exited(None), Exited(Some(0))} && env.readFile(OutputPath(env, path)).Some? ==>
            r == Returned(Success(env.readFile(OutputPath(env, path)).value)))
  {
  }

  /** A template that does not split fails before anything else is consulted. */
  lemma ParseFailureConsultsNothing(path: string, extension: string, template: string, env: LoaderEnv,
                                    tempDir: string, digest: string -> string,
                                    status: Invocation -> StatusOutcome, output: Invocation -> OutputOutcome,
                                    readFile: string -> Option<string>)
    requires env.splitWords(template).None?
    ensures RunLoader(path, extension, template, env) ==
      RunLoader(path, extension, template,
                env.(tempDir := tempDir, digest := digest, status := status, output := output, readFile := readFile))
  {
  }

  /** In stdout mode neither the status runner nor the file reader matters. */
  lemma StdoutModeIgnoresOutputFile(path: string, extension: string, template: string, env: LoaderEnv,
                                    status: Invocation -> StatusOutcome, readFile: string -> Option<string>)
    requires env.splitWords(template).Some? && !RequestsOutputFile(env.splitWords(template).value, path)
    ensures RunLoader(path, extension, template, env) ==
      RunLoader(path, extension, template, env.(status := status, readFile := readFile))
  {
  }

  /** In output-file mode the capturing runner does not matter. */
  lemma OutputFileModeIgnoresCapture(path: string, extension: string, template: string, env: LoaderEnv,
                                     output: Invocation -> OutputOutcome)
    requires env.splitWords(template).Some? && RequestsOutputFile(env.splitWords(template).value, path)
    ensures RunLoader(path, extension, template, env) ==
      RunLoader(path, extension, template, env.(output := output))
  {
  }
}
