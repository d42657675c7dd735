/** The two process primitives of src/utils/command.rs, `run_command` and
    `run_command_with_output`, reduced to how they shape what the operating
    system reports. Spawning and waiting are not modelled: a runner is a
    function from the requested invocation to the outcome the system reports
    for it. */
module Process {
  import opened Wrappers

  /** A 32-bit exit code (`i32`). */
  newtype ExitCode = x: int | -0x8000_0000 <= x < 0x8000_0000

  /** What is asked of the system: the program, its arguments and the
      optional environment overrides. */
  datatype Invocation = Invocation(program: string, args: seq<string>, envs: Option<map<string, string>>)

  /** What the system reports for a status-only run: the spawn failed, or the
      child ended, with no exit code when a signal ended it. */
  datatype StatusOutcome = StatusSpawnFailed | Exited(code: Option<ExitCode>)

  /** What the system reports for a captured run: the spawn failed, or the
      child ended with a success flag and its two streams, each decoded as
      UTF-8 (`None` when the bytes are not valid UTF-8). */
  datatype OutputOutcome =
    | OutputSpawnFailed
    | Captured(success: bool, stdout: Option<string>, stderr: Option<string>)

  datatype Stream = Stdout | Stderr

  /** The errors the two primitives return: the I/O error of a failed spawn,
      or the "Invalid UTF-8 in stdout/stderr" context error. */
  datatype RunError = SpawnFailed | InvalidUtf8(stream: Stream)

  /** The environment a child sees: the inherited one with the overrides
      laid on top (`.envs(envs.unwrap_or_default())`). */
  function ChildEnvironment(inherited: map<string, string>, envs: Option<map<string, string>>): (env: map<string, string>)
    ensures envs.None? ==> env == inherited
    ensures envs.Some? ==> env.Keys == inherited.Keys + envs.value.Keys
    ensures envs.Some? ==> forall k :: k in envs.value ==> env[k] == envs.value[k]
    ensures forall k :: k in inherited && (envs.None? || k !in envs.value) ==> k in env && env[k] == inherited[k]
  {
    inherited + envs.GetOr(map[])
  }

  /** `run_command`: the exit code of the child, zero when it has none. */
  function RunCommand(run: Invocation -> StatusOutcome, program: string, args: seq<string>,
                      envs: Option<map<string, string>>): (r: Result<ExitCode, RunError>)
    ensures r == Failure(SpawnFailed) <==> run(Invocation(program, args, envs)).StatusSpawnFailed?
    ensures r.Failure? ==> r.error == SpawnFailed
    ensures r == Success(0) <==>
      run(Invocation(program, args, envs)) in {Exited(None), Exited(Some(0))}
    ensures forall c :: run(Invocation(program, args, envs)) == Exited(Some(c)) ==> r == Success(c)
  {
    match run(Invocation(program, args, envs))
    case StatusSpawnFailed => Failure(SpawnFailed)
    case Exited(code) => Success(code.GetOr(0))
  }

  /** `run_command_with_output`: the success flag and both streams as text,
      failing when the spawn fails or a stream is not valid UTF-8 (stdout is
      checked first). */
  function RunCommandWithOutput(run: Invocation -> OutputOutcome, program: string, args: seq<string>,
                                envs: Option<map<string, string>>): (r: Result<(bool, string, string), RunError>)
    ensures var o := run(Invocation(program, args, envs));
      && (r == Failure(SpawnFailed) <==> o.OutputSpawnFailed?)
      && (r == Failure(InvalidUtf8(Stdout)) <==> o.Captured? && o.stdout.None?)
      && (r == Failure(InvalidUtf8(Stderr)) <==> o.Captured? && o.stdout.Some? && o.stderr.None?)
    ensures r.Success? <==>
      exists ok, out, err :: run(Invocation(program, args, envs)) == Captured(ok, Some(out), Some(err))
    ensures forall ok, out, err :: run(Invocation(program, args, envs)) == Captured(ok, Some(out), Some(err)) ==>
      r == Success((ok, out, err))
  {
    match run(Invocation(program, args, envs))
    case OutputSpawnFailed => Failure(SpawnFailed)
    case Captured(ok, out, err) =>
      if out.None? then Failure(InvalidUtf8(Stdout))
      else if err.None? then Failure(InvalidUtf8(Stderr))
      else Success((ok, out.value, err.value))
  }
}
