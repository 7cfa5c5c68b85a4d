/** How `run_single_command` starts a command: the platform and the
    background flag select a mechanism; on platforms other than Windows and
    macOS a visible terminal is sought in a fixed order, with a plain shell
    launch as the last resort. Starting a process is an oracle `spawn`. */
module Launching {
  import opened Commands
  import opened Registry

  /** The three branches on `sys.platform`. */
  datatype Platform = Windows | MacOS | OtherUnix

  /** `sys.platform.startswith('win')`, then `startswith('darwin')`, else the rest. */
  function PlatformOf(sysPlatform: string): (p: Platform)
    ensures p == Windows <==> |sysPlatform| >= 3 && sysPlatform[..3] == "win"
    ensures p == MacOS <==> !(|sysPlatform| >= 3 && sysPlatform[..3] == "win")
                            && |sysPlatform| >= 6 && sysPlatform[..6] == "darwin"
  {
    if |sysPlatform| >= 3 && sysPlatform[..3] == "win" then Windows
    else if |sysPlatform| >= 6 && sysPlatform[..6] == "darwin" then MacOS
    else OtherUnix
  }

  /** The `subprocess.Popen` calls the launcher can make. */
  datatype Strategy =
    | ShellNewProcessGroup           // shell=True in a new process group (Windows, background)
    | Shell                          // shell=True (background elsewhere, and the terminal fallback)
    | WindowsConsole                 // `cmd /c start cmd /k <command>`
    | AppleScriptTerminal            // `osascript` driving Terminal
    | TerminalEmulator(program: string)  // `<program> -- bash -c` / `<program> -e bash -c`

  /** The emulators tried, in order, for a visible terminal. */
  const Terminals: seq<string> := ["gnome-terminal", "konsole", "xterm", "xfce4-terminal"]

  datatype SpawnError = FileNotFound | OtherError(message: string)

  /** What one `Popen` call does: start a process, or raise. */
  datatype Spawn = Started(process: Pid) | Raised(error: SpawnError)

  datatype LaunchResult = Launched(strategy: Strategy, process: Pid) | LaunchFailed(cause: SpawnError)

  /** One `Popen` whose exception, of any kind, ends the launch. */
  function Attempt(s: Strategy, spawn: Strategy -> Spawn): (r: LaunchResult)
    ensures r.Launched? <==> spawn(s).Started?
    ensures r.Launched? ==> r.strategy == s && r.process == spawn(s).process
    ensures r.LaunchFailed? ==> r.cause == spawn(s).error
  {
    match spawn(s)
    case Started(p) => Launched(s, p)
    case Raised(e) => LaunchFailed(e)
  }

  predicate Missing(program: string, spawn: Strategy -> Spawn) {
    spawn(TerminalEmulator(program)) == Raised(FileNotFound)
  }

  /** The `for ... else` over the emulators: a missing program moves on to
      the next, any other exception ends the launch, and running out of
      programs falls back to a plain shell launch. */
  function TryTerminals(ts: seq<string>, spawn: Strategy -> Spawn): (r: LaunchResult)
    ensures r.Launched? ==> spawn(r.strategy) == Started(r.process)
    ensures r.Launched? ==> r.strategy == Shell || (r.strategy.TerminalEmulator? && r.strategy.program in ts)
    ensures r.Launched? && r.strategy.TerminalEmulator? ==> !Missing(r.strategy.program, spawn)
    ensures r.LaunchFailed? && r.cause == FileNotFound ==> spawn(Shell) == Raised(FileNotFound)
  {
    if ts == [] then Attempt(Shell, spawn)
    else if Missing(ts[0], spawn) then TryTerminals(ts[1..], spawn)
    else Attempt(TerminalEmulator(ts[0]), spawn)
  }

  /** `run_single_command` from the branch on the background flag to the
      end of the `Popen` calls. */
  function Launch(platform: Platform, background: bool, spawn: Strategy -> Spawn): (r: LaunchResult)
    ensures r.Launched? ==> spawn(r.strategy) == Started(r.process)
    ensures background && r.Launched? ==> r.strategy == (if platform == Windows then ShellNewProcessGroup else Shell)
    ensures !background && r.Launched? ==> r.strategy != ShellNewProcessGroup
    ensures r.Launched? && r.strategy.TerminalEmulator? ==> !background && platform == OtherUnix
  {
    if background then
      Attempt(if platform == Windows then ShellNewProcessGroup else Shell, spawn)
    else
      match platform
      case Windows => Attempt(WindowsConsole, spawn)
      case MacOS => Attempt(AppleScriptTerminal, spawn)
      case OtherUnix => TryTerminals(Terminals, spawn)
  }

  /** The position of the first program that does not raise `FileNotFoundError`,
      or `|ts|` when every one of them does. */
  function FirstFound(ts: seq<string>, spawn: Strategy -> Spawn): (k: nat)
    ensures k <= |ts|
    ensures forall j :: 0 <= j < k ==> Missing(ts[j], spawn)
    ensures k < |ts| ==> !Missing(ts[k], spawn)
  {
    if ts == [] || !Missing(ts[0], spawn) then 0
    else 1 + FirstFound(ts[1..], spawn)
  }

  /** The terminal search uses the first program that is found, and the
      plain shell only when none is. */
  lemma {:induction false} TryTerminalsUsesFirstFound(ts: seq<string>, spawn: Strategy -> Spawn)
    ensures var k := FirstFound(ts, spawn);
            TryTerminals(ts, spawn)
            == if k < |ts| then Attempt(TerminalEmulator(ts[k]), spawn) else Attempt(Shell, spawn)
  {
    if ts != [] && Missing(ts[0], spawn) {
      TryTerminalsUsesFirstFound(ts[1..], spawn);
    }
  }

  /** A foreground launch with no emulator installed still starts the command
      through the shell (when the shell itself starts). */
  lemma NoTerminalFallsBackToShell(spawn: Strategy -> Spawn)
    requires forall j :: 0 <= j < |Terminals| ==> Missing(Terminals[j], spawn)
    ensures Launch(OtherUnix, false, spawn) == Attempt(Shell, spawn)
  {
    TryTerminalsUsesFirstFound(Terminals, spawn);
  }

  // ---------------------------------------------------------------------
  // The choice stated over which programs are installed

  /** The first of `ts` that is installed, else the plain shell. */
  function FirstAvailable(ts: seq<string>, available: set<string>): (s: Strategy)
    ensures s.TerminalEmulator? ==> s.program in available && s.program in ts
    ensures s.TerminalEmulator? ==> exists k :: 0 <= k < |ts| && ts[k] == s.program
                                      && forall j :: 0 <= j < k ==> ts[j] !in available
    ensures s.Shell? <==> forall j :: 0 <= j < |ts| ==> ts[j] !in available
    ensures s.TerminalEmulator? || s.Shell?
  {
    if ts == [] then Shell
    else if ts[0] in available then TerminalEmulator(ts[0])
    else FirstAvailable(ts[1..], available)
  }

  /** The mechanism chosen for a platform, mode and set of installed emulators. */
  function ChooseStrategy(platform: Platform, background: bool, available: set<string>): (s: Strategy)
    ensures s == ShellNewProcessGroup <==> background && platform == Windows
    ensures background ==> s == ShellNewProcessGroup || s == Shell
    ensures s.TerminalEmulator? ==> !background && platform == OtherUnix && s.program in available
    ensures !background && platform == OtherUnix && Terminals[0] in available ==> s == TerminalEmulator(Terminals[0])
    ensures !background && platform == Windows ==> s == WindowsConsole
    ensures !background && platform == MacOS ==> s == AppleScriptTerminal
    ensures !background && platform == OtherUnix && s.TerminalEmulator? ==>
              exists k :: 0 <= k < |Terminals| && Terminals[k] == s.program
                          && forall j :: 0 <= j < k ==> Terminals[j] !in available
    ensures !background && platform == OtherUnix ==>
              (s.Shell? <==> forall j :: 0 <= j < |Terminals| ==> Terminals[j] !in available)
  {
    if background then (if platform == Windows then ShellNewProcessGroup else Shell)
    else
      match platform
      case Windows => WindowsConsole
      case MacOS => AppleScriptTerminal
      case OtherUnix => FirstAvailable(Terminals, available)
  }

  /** `spawn` raises `FileNotFoundError` for exactly the emulators of `ts`
      not in `available`. */
  predicate FoundExactly(ts: seq<string>, spawn: Strategy -> Spawn, available: set<string>) {
    forall j :: 0 <= j < |ts| ==> (Missing(ts[j], spawn) <==> ts[j] !in available)
  }

  lemma {:induction false} TryTerminalsFollowsAvailability(ts: seq<string>, spawn: Strategy -> Spawn, available: set<string>)
    requires FoundExactly(ts, spawn, available)
    ensures TryTerminals(ts, spawn) == Attempt(FirstAvailable(ts, available), spawn)
  {
    if ts != [] {
      assert Missing(ts[0], spawn) <==> ts[0] !in available;
      if Missing(ts[0], spawn) {
        assert FoundExactly(ts[1..], spawn, available) by {
          forall j | 0 <= j < |ts| - 1
            ensures Missing(ts[1..][j], spawn) <==> ts[1..][j] !in available
          {
            assert ts[1..][j] == ts[j + 1];
          }
        }
        TryTerminalsFollowsAvailability(ts[1..], spawn, available);
      }
    }
  }

  /** Launching is one `Popen` of the chosen mechanism: the outcome is that
      of `ChooseStrategy`'s strategy whenever the oracle finds exactly the
      installed emulators. */
  lemma LaunchFollowsChoice(platform: Platform, background: bool, spawn: Strategy -> Spawn, available: set<string>)
    requires FoundExactly(Terminals, spawn, available)
    ensures Launch(platform, background, spawn) == Attempt(ChooseStrategy(platform, background, available), spawn)
  {
    if !background && platform == OtherUnix {
      TryTerminalsFollowsAvailability(Terminals, spawn, available);
    }
  }

  // ---------------------------------------------------------------------
  // Tracking

  /** `if process and self.run_in_background.get()`: only a started process
      in background mode is tracked. */
  predicate Tracked(background: bool, r: LaunchResult)
    ensures Tracked(background, r) ==> r.Launched?
    ensures !background ==> !Tracked(background, r)
  {
    background && r.Launched?
  }

  /** The tracking list after one launch of `cmd`. */
  function Register(registry: seq<ProcessInfo>, background: bool, cmd: Command, r: LaunchResult): (after: seq<ProcessInfo>)
    ensures |after| == |registry| + (if Tracked(background, r) then 1 else 0)
    ensures after[..|registry|] == registry
    ensures Tracked(background, r) ==> after[|registry|] == ProcessInfo(r.process, cmd.name, cmd.command)
  {
    if Tracked(background, r) then registry + [ProcessInfo(r.process, cmd.name, cmd.command)] else registry
  }

  /** The tracking list after a series of launches, one after another. */
  function RegisterAll(registry: seq<ProcessInfo>, background: bool, launches: seq<(Command, LaunchResult)>): seq<ProcessInfo>
  {
    if launches == [] then registry
    else
      var last := launches[|launches| - 1];
      Register(RegisterAll(registry, background, launches[..|launches| - 1]), background, last.0, last.1)
  }

  /** Foreground launches add no entry, whatever their outcome. */
  lemma {:induction false} ForegroundRegistersNothing(registry: seq<ProcessInfo>, launches: seq<(Command, LaunchResult)>)
    ensures RegisterAll(registry, false, launches) == registry
  {
    if launches != [] {
      ForegroundRegistersNothing(registry, launches[..|launches| - 1]);
    }
  }

  /** N background launches that all start add exactly N entries, one per
      command in launch order. */
  lemma {:induction false} RegisterAllCounts(registry: seq<ProcessInfo>, background: bool, launches: seq<(Command, LaunchResult)>)
    requires forall i :: 0 <= i < |launches| ==> launches[i].1.Launched?
    ensures background ==> |RegisterAll(registry, background, launches)| == |registry| + |launches|
    ensures background ==> RegisterAll(registry, background, launches)[..|registry|] == registry
    ensures background ==> forall i :: 0 <= i < |launches| ==>
              RegisterAll(registry, background, launches)[|registry| + i]
              == ProcessInfo(launches[i].1.process, launches[i].0.name, launches[i].0.command)
  {
    if launches != [] {
      var front := launches[..|launches| - 1];
      RegisterAllCounts(registry, background, front);
      var mid := RegisterAll(registry, background, front);
      if background {
        var after := RegisterAll(registry, background, launches);
        assert after == mid + [ProcessInfo(launches[|launches| - 1].1.process, launches[|launches| - 1].0.name, launches[|launches| - 1].0.command)];
        forall i | 0 <= i < |launches|
          ensures after[|registry| + i] == ProcessInfo(launches[i].1.process, launches[i].0.name, launches[i].0.command)
        {
          if i < |front| {
            assert front[i] == launches[i];
          }
        }
      }
    }
  }
}
