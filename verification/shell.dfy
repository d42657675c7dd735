/** `Shell` and `detect_shell` (src/utils/command.rs): the interpreter used to
    run a one-line script, chosen from the build-time OS name and a snapshot
    of the `SHELL` and `PSModulePath` environment variables (`None` when
    unset). */
module Shells {
  import opened Wrappers
  import opened Strings

  /** How to ask an interpreter to run an inline script: its display name,
      its executable and the flag that introduces the script. */
  datatype Shell = Shell(name: string, cmd: string, arg: string)

  const Cmd := Shell("cmd", "cmd.exe", "/C")
  const Pwsh := Shell("pwsh", "pwsh.exe", "-c")
  const WindowsPowerShell := Shell("powershell", "powershell.exe", "-Command")
  const Posix := Shell("sh", "sh", "-c")

  /** Unix shells that are used under their own name. */
  const KnownShells: set<string> := {"bash", "zsh", "fish", "pwsh"}

  /** Marker of a PowerShell 7 module directory in the lower-cased `PSModulePath`. */
  const Pwsh7Marker := "powershell\\7\\"

  /** The text after the last `/` of a shell path, or all of it when it has
      none: the longest `/`-free suffix. */
  function BaseName(path: string): (b: string)
    ensures '/' !in b
    ensures |b| <= |path| && path[|path| - |b|..] == b
    ensures |b| < |path| ==> path[|path| - |b| - 1] == '/'
  {
    match RSplitOnce(path, '/')
    case Some((before, after)) =>
      assert path == (before + ['/']) + after;
      after
    case None => path
  }

  /** Number of `;`-separated segments of `PSModulePath` (`split(';').count()`). */
  function SegmentCount(v: string): (n: nat)
    ensures n == multiset(v)[';'] + 1
  {
    SplitCount(v, ';');
    |Split(v, [';'])|
  }

  /** The Windows choice for a `PSModulePath` value. */
  function WindowsShell(psModulePath: Option<string>): (sh: Shell)
    ensures sh == Cmd <==> psModulePath.None? || multiset(psModulePath.value)[';'] < 2
    ensures sh == Pwsh <==>
      psModulePath.Some? && multiset(psModulePath.value)[';'] >= 2 &&
      Contains(ToLower(psModulePath.value), Pwsh7Marker)
    ensures sh in {Cmd, Pwsh, WindowsPowerShell}
  {
    match psModulePath
    case None => Cmd
    case Some(v) =>
      var lower := ToLower(v);
      ToLowerKeepsNonLetters(v, ';');
      if SegmentCount(lower) >= 3 then
        if Contains(lower, Pwsh7Marker) then Pwsh else WindowsPowerShell
      else
        Cmd
  }

  /** The Unix choice for a `SHELL` value (`/bin/sh` when unset). */
  function UnixShell(shellVar: Option<string>): (sh: Shell)
    ensures sh.arg == "-c" && sh.name == sh.cmd
    ensures BaseName(shellVar.GetOr("/bin/sh")) in KnownShells ==>
      sh.name == BaseName(shellVar.GetOr("/bin/sh"))
    ensures BaseName(shellVar.GetOr("/bin/sh")) !in KnownShells ==> sh == Posix
    ensures sh.name in KnownShells + {"sh"}
  {
    var b := BaseName(shellVar.GetOr("/bin/sh"));
    if b in KnownShells then Shell(b, b, "-c") else Posix
  }

  /** `detect_shell` for the build-time OS name `os`. */
  function DetectShell(os: string, shellVar: Option<string>, psModulePath: Option<string>): (sh: Shell)
    ensures os == "windows" ==> sh == WindowsShell(psModulePath)
    ensures os != "windows" ==> sh == UnixShell(shellVar)
  {
    if os == "windows" then WindowsShell(psModulePath) else UnixShell(shellVar)
  }

  /** `SHELL=/usr/bin/zsh` selects zsh. */
  lemma ZshExample()
    ensures DetectShell("linux", Some("/usr/bin/zsh"), None) == Shell("zsh", "zsh", "-c")
  {
  }

  /** `SHELL=/usr/bin/tcsh` is not recognised and degrades to `sh`. */
  lemma TcshExample()
    ensures DetectShell("linux", Some("/usr/bin/tcsh"), None) == Posix
  {
  }

  /** An unset `SHELL` is read as `/bin/sh`, giving `sh`. */
  lemma UnsetShellExample()
    ensures DetectShell("macos", None, Some("a;b;c")) == Posix
  {
  }

  /** Three segments without the marker select Windows PowerShell. */
  lemma WindowsPowerShellExample()
    ensures DetectShell("windows", None, Some("a;b;c")) == WindowsPowerShell
  {
  }

  /** On Windows an empty `PSModulePath` still counts as one segment. */
  lemma EmptyPsModulePathExample()
    ensures DetectShell("windows", Some("/bin/zsh"), Some("")) == Cmd
  {
  }
}
