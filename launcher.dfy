/** The `CommandLauncher` application object without its widgets: the saved
    command list, the tracked background processes, the background toggle
    and the status line, with the operations its buttons and timers run. */
module Launcher {
  import opened Wrappers
  import opened Text
  import opened Commands
  import opened Registry
  import opened Launching

  class CommandLauncher {
    var commands: seq<Command>
    var runningProcesses: seq<ProcessInfo>
    var runInBackground: bool
    var status: string
    const platform: Platform

    /** Starts with the list read from the command file (`loaded`), nothing
        tracked, background mode off and the status "Ready". */
    constructor (sysPlatform: string, loaded: seq<Command>)
      ensures platform == PlatformOf(sysPlatform)
      ensures commands == loaded && runningProcesses == []
      ensures !runInBackground && status == Ready
    {
      platform := PlatformOf(sysPlatform);
      commands := loaded;
      runningProcesses := [];
      runInBackground := false;
      status := Ready;
    }

    /** The "Run in Background" checkbox. */
    method SetRunInBackground(on: bool)
      modifies this`runInBackground
      ensures runInBackground == on
    {
      runInBackground := on;
    }

    /** "Add Command": appends the dialog's result, if it produced one. */
    method AddCommand(dialogResult: Option<Command>)
      modifies this`commands, this`status
      ensures dialogResult.Some? ==> commands == old(commands) + [dialogResult.value]
                                     && status == "Added command: " + dialogResult.value.name
      ensures dialogResult.None? ==> commands == old(commands) && status == old(status)
    {
      if dialogResult.Some? {
        var c := dialogResult.value;
        commands := commands + [c];
        status := "Added command: " + c.name;
      }
    }

    /** "Edit Command": with exactly one row selected, replaces that entry by
        the dialog's result; every other entry and the length stay. */
    method EditCommand(selection: seq<nat>, dialogResult: Option<Command>)
      requires ValidSelection(selection, |commands|)
      modifies this`commands, this`status
      ensures |commands| == |old(commands)|
      ensures |selection| == 1 && dialogResult.Some? ==>
                commands[selection[0]] == dialogResult.value
                && status == "Updated command: " + dialogResult.value.name
      ensures forall i :: 0 <= i < |commands| && !(|selection| == 1 && dialogResult.Some? && i == selection[0])
                ==> commands[i] == old(commands)[i]
      ensures !(|selection| == 1 && dialogResult.Some?) ==> status == old(status)
    {
      if |selection| == 0 || |selection| > 1 {
        return;
      }
      var idx := selection[0];
      if dialogResult.Some? {
        var c := dialogResult.value;
        commands := commands[idx := c];
        status := "Updated command: " + c.name;
      }
    }

    /** "Delete Command": once confirmed, deletes the selected rows one by
        one from the highest position down, which removes exactly the
        selected entries. */
    method DeleteCommand(selection: seq<nat>, confirmed: bool)
      requires ValidSelection(selection, |commands|)
      modifies this`commands, this`status
      ensures selection != [] && confirmed ==>
                commands == RemoveIndices(old(commands), Elems(selection))
                && status == "Deleted " + NatToDecimal(|selection|) + " command(s)"
      ensures !(selection != [] && confirmed) ==> commands == old(commands) && status == old(status)
    {
      if selection == [] || !confirmed {
        return;
      }
      ghost var original := commands;
      var indices := SortDescending(selection);
      SortedSelection(selection, |commands|);
      RemoveIndicesAbove(original, {});
      assert Elems(indices[..0]) == {};
      var i := 0;
      while i < |indices|
        invariant 0 <= i <= |indices|
        invariant commands == RemoveIndices(original, Elems(indices[..i]))
      {
        var idx := indices[i];
        DeleteDescendingStep(original, indices, i);
        commands := commands[..idx] + commands[idx + 1..];
        i := i + 1;
      }
      assert indices[..i] == indices;
      status := "Deleted " + NatToDecimal(|selection|) + " command(s)";
    }

    /** "Duplicate Command": with exactly one row selected, appends a copy
        of it whose name carries " (Copy)"; all existing entries stay. */
    method DuplicateCommand(selection: seq<nat>)
      requires ValidSelection(selection, |commands|)
      modifies this`commands, this`status
      ensures |selection| == 1 ==>
                commands == old(commands) + [Duplicate(old(commands)[selection[0]])]
                && status == "Duplicated command: " + Duplicate(old(commands)[selection[0]]).name
      ensures |selection| != 1 ==> commands == old(commands) && status == old(status)
    {
      if |selection| == 0 || |selection| > 1 {
        return;
      }
      var copy := Duplicate(commands[selection[0]]);
      commands := commands + [copy];
      status := "Duplicated command: " + copy.name;
    }

    /** Starts one command and tracks it when it runs in the background.
        `spawn` stands for the `Popen` calls. */
    method RunSingleCommand(cmd: Command, spawn: Strategy -> Spawn) returns (r: LaunchResult)
      modifies this`runningProcesses, this`status
      ensures r == Launch(platform, runInBackground, spawn)
      ensures runningProcesses == Register(old(runningProcesses), runInBackground, cmd, r)
      ensures status == if Tracked(runInBackground, r) then "Started background process: " + cmd.name
                        else old(status)
    {
      if runInBackground {
        r := Attempt(if platform == Windows then ShellNewProcessGroup else Shell, spawn);
      } else if platform == Windows {
        r := Attempt(WindowsConsole, spawn);
      } else if platform == MacOS {
        r := Attempt(AppleScriptTerminal, spawn);
      } else {
        var i := 0;
        var found: Option<LaunchResult> := None;
        while found.None? && i < |Terminals|
          invariant 0 <= i <= |Terminals|
          invariant found.None? ==> TryTerminals(Terminals[i..], spawn) == TryTerminals(Terminals, spawn)
          invariant found.Some? ==> found.value == TryTerminals(Terminals, spawn)
          decreases |Terminals| - i, if found.None? then 1 else 0
        {
          var program := Terminals[i];
          assert Terminals[i..] == [program] + Terminals[i + 1..];
          match spawn(TerminalEmulator(program))
          case Started(p) =>
            found := Some(Launched(TerminalEmulator(program), p));
          case Raised(FileNotFound) =>
            i := i + 1;
          case Raised(OtherError(m)) =>
            found := Some(LaunchFailed(OtherError(m)));
        }
        if found.Some? {
          r := found.value;
        } else {
          r := Attempt(Shell, spawn);
        }
      }
      if runInBackground && r.Launched? {
        runningProcesses := runningProcesses + [ProcessInfo(r.process, cmd.name, cmd.command)];
        status := "Started background process: " + cmd.name;
      }
    }

    /** "Terminate All": on an empty list nothing happens; once confirmed,
        `terminate()` is sent to every entry, the calls that do not raise
        are counted, and the list is emptied whatever the outcome. */
    method TerminateAll(confirmed: bool, terminate: Pid -> bool) returns (terminated: nat)
      modifies this`runningProcesses, this`status
      ensures old(runningProcesses) == [] || !confirmed ==>
                runningProcesses == old(runningProcesses) && status == old(status) && terminated == 0
      ensures old(runningProcesses) != [] && confirmed ==>
                terminated == CountTerminated(old(runningProcesses), terminate)
                && terminated <= |old(runningProcesses)|
                && runningProcesses == []
                && status == "Terminated " + NatToDecimal(terminated) + " background process(es)"
    {
      terminated := 0;
      if runningProcesses == [] || !confirmed {
        return;
      }
      var i := 0;
      while i < |runningProcesses|
        invariant 0 <= i <= |runningProcesses|
        invariant terminated == CountTerminated(runningProcesses[..i], terminate)
      {
        assert runningProcesses[..i + 1][..i] == runningProcesses[..i];
        if terminate(runningProcesses[i].process) {
          terminated := terminated + 1;
        }
        i := i + 1;
      }
      assert runningProcesses[..i] == runningProcesses;
      runningProcesses := [];
      status := "Terminated " + NatToDecimal(terminated) + " background process(es)";
    }

    /** `get_running_processes_count`. */
    function RunningProcessesCount(): (n: nat)
      reads this
      ensures n == 0 <==> runningProcesses == []
    {
      |runningProcesses|
    }

    /** Shows how many background processes are tracked, or "Ready". */
    method UpdateStatusWithProcessCount()
      modifies this`status
      ensures status == ProcessCountStatus(|runningProcesses|)
      ensures status == Ready <==> runningProcesses == []
    {
      status := ProcessCountStatus(RunningProcessesCount());
    }

    /** The periodic cleanup: keeps exactly the entries whose `poll()`
        reports no exit, in order. */
    method CleanupFinishedProcesses(poll: Pid -> Option<int>)
      modifies this`runningProcesses
      ensures runningProcesses == StillRunning(old(runningProcesses), poll)
      ensures IsSubsequence(runningProcesses, old(runningProcesses))
      ensures forall e :: e in runningProcesses <==> e in old(runningProcesses) && poll(e.process).None?
    {
      StillRunningKeepsOrder(runningProcesses, poll);
      runningProcesses := StillRunning(runningProcesses, poll);
    }
  }
}
