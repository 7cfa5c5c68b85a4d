# Command Launcher — a Dafny model of its command list and process tracking

Command Launcher is a small Tk desktop program that keeps a list of named
shell commands and launches them, either in a visible terminal or silently
in the background, tracking the background processes so that they can all
be terminated at once. This project models, without the widgets, the parts
of `CommandLauncher` and `CommandDialog` that hold state and decisions:

- **the command list** (`commands`): add, edit at the selected row, delete
  the selected rows (highest position first), duplicate with a `" (Copy)"`
  suffix, and the dialog's strip-and-check validation;
- **the background-process registry** (`running_processes`): one entry per
  background launch that started, the periodic cleanup that keeps the
  entries whose `poll()` reports no exit, `terminate_all`, and the status
  text built from the number of tracked processes;
- **the launch strategy**: the platform and the background flag choose a
  `Popen` mechanism; outside Windows and macOS a visible terminal is sought
  among `gnome-terminal`, `konsole`, `xterm`, `xfce4-terminal` in that order,
  with a plain shell launch as the last resort.

Operating-system calls are parameters: `spawn: Strategy -> Spawn` says what
each `Popen` does (start a process with some identity, raise
`FileNotFoundError`, or raise something else), `poll: Pid -> Option<int>`
gives each process's exit status if it has one, and `terminate: Pid -> bool`
says whether `terminate()` returned without raising. Confirmation dialogs
are a `confirmed: bool` argument, and the add/edit dialog's outcome is an
`Option<Command>` argument.

Files: `wrappers.dfy` (Option), `text.dfy` (Python's `str.strip()` and
`str(n)`), `commands.dfy` (records, selection, delete specification,
validation), `registry.dfy` (process entries, cleanup filter, termination
count, status text), `launching.dfy` (platforms, strategies, the ordered
fallback, tracking), `dialog.dfy` (`CommandDialog`), `launcher.dfy`
(`CommandLauncher`, the class whose methods update the list and the
registry in place).

Facts about the code that the model keeps:
- the plain shell launch that ends the terminal search (main.py:329) is not
  tracked, because the tracking test at main.py:332 checks the background
  flag, not how the process was started;
- `force_kill_remaining` is empty, so nothing is force-killed after the
  grace period;
- failed `terminate()` calls are only printed, not collected;
- the registry is a list in launch order, with no removal by identifier.

## Model

| member | source | states |
|---|---|---|
| Text.Strip | main.py:474-475 | the stripped field has no whitespace at either end and is empty exactly when the field is all whitespace |
| Text.StripOfPadded | main.py:474-475 | stripping a trimmed core padded by any whitespace on both sides gives back exactly that core |
| Text.StripIdempotent | main.py:474-475 | stripping an already stripped field changes nothing |
| Text.NatToDecimal | main.py:385 | the count is printed as a non-empty run of decimal digits with no leading zero |
| Text.DecimalRoundTrip | main.py:385 | reading the printed count back as a decimal number gives the count |
| Text.NatToDecimalInjective | main.py:385 | two different counts never print the same |
| Commands.Duplicate | main.py:237-239 | the copy has the original command line and the original name followed by " (Copy)" |
| Commands.RemoveIndices | main.py:218-220 | the reference for the deletion: the entries at unselected positions in their original order; never longer than the list, and the whole list when nothing is selected |
| Commands.SortDescending | main.py:218 | the selected positions sorted in reverse are strictly decreasing and are the same positions |
| Commands.SortedSelection | main.py:218 | sorting a valid selection keeps exactly its positions, all inside the list |
| Commands.DeleteBelow | main.py:217-220 | when every position already deleted lies above `i`, entry `i` is still in place and deleting it there equals removing `i` from the original list |
| Commands.DeleteDescendingStep | main.py:218-220 | one turn of the descending delete loop turns "first i selected positions removed" into "first i + 1 removed" |
| Commands.RemoveSelectionLength | main.py:216-224 | deleting a selection of distinct in-range rows shortens the list by the number selected |
| Commands.RemoveIndicesMultiset | main.py:219-220 | the survivors and the deleted entries together are exactly the original entries |
| Commands.Validate | main.py:473-485 | an accepted entry has a non-empty name and command; a rejection carries one of the two warnings |
| Commands.ValidateMeaning | main.py:473-485 | a result exists exactly when neither field is blank, and is then the stripped pair; otherwise the warning names the name first, then the command |
| Commands.RevalidateAccepted | main.py:196-199 | when neither field is blank the dialog accepts, and pressing OK again on the accepted entry without typing yields the same entry |
| Commands.ValidateIgnoresPadding | main.py:474-475 | whitespace typed around either field never changes the dialog's outcome |
| Registry.StillRunning | main.py:389-393 | cleanup keeps exactly the entries whose process has not exited, never adding one |
| Registry.StillRunningKeepsOrder | main.py:392-393 | the kept entries are in their original order |
| Registry.StillRunningCounts | main.py:392-393 | every running entry keeps all its occurrences and every exited entry loses all of them |
| Registry.StillRunningIdempotent | main.py:389-396 | a second cleanup with the same liveness answers removes nothing more |
| Registry.CountTerminated | main.py:352-358 | the number of `terminate()` calls that did not raise is at most the registry size, equals it exactly when all succeed and is zero exactly when all fail |
| Registry.ProcessCountStatus | main.py:381-387 | the status is "Ready" exactly when no background process is tracked |
| Registry.ProcessCountStatusInjective | main.py:381-387 | the status text determines the number of tracked processes |
| Launching.PlatformOf | main.py:296-300 | Windows when the platform name starts with "win", macOS when it starts with "darwin", otherwise the terminal-emulator branch |
| Launching.Attempt | main.py:287-308 | a single `Popen` launches with its mechanism exactly when it starts a process, and any exception it raises fails the launch |
| Launching.TryTerminals | main.py:312-329 | the terminal search launches only a listed emulator that was found, or the plain shell, and only with a process that `Popen` really started |
| Launching.Launch | main.py:285-329 | a background launch uses the shell (in a new process group on Windows); a terminal emulator is used only for a foreground launch outside Windows and macOS; a launched process is the one `Popen` started |
| Launching.FirstFound | main.py:312-326 | the position of the first emulator whose start does not raise `FileNotFoundError`; all earlier ones do |
| Launching.TryTerminalsUsesFirstFound | main.py:312-329 | the terminal search launches with the first emulator found, and with the plain shell only when none is |
| Launching.NoTerminalFallsBackToShell | main.py:327-329 | with no emulator installed a foreground launch is a plain shell launch |
| Launching.FirstAvailable | main.py:312-326 | the chosen emulator is installed and is the first installed one in list order; the plain shell is chosen exactly when none of the listed emulators is installed |
| Launching.ChooseStrategy | main.py:285-329 | a new process group exactly for Windows background launches; a background launch always uses the shell; a foreground launch uses the Windows console on Windows and Terminal through AppleScript on macOS; elsewhere it uses the first installed emulator in list order, and the plain shell exactly when none is installed |
| Launching.TryTerminalsFollowsAvailability | main.py:312-329 | when the missing emulators are exactly the uninstalled ones, the search launches the first installed one or the shell |
| Launching.LaunchFollowsChoice | main.py:285-329 | launching is one `Popen` of the mechanism chosen from platform, background flag and installed emulators |
| Launching.Tracked | main.py:332 | only a launch that started is tracked, and a foreground launch never is |
| Launching.Register | main.py:331-337 | a launch adds one entry, with its process, name and command, exactly when it is a background launch that started; earlier entries stay |
| Launching.RegisterAllCounts | main.py:331-337 | N started background launches add exactly N entries, in launch order |
| Launching.ForegroundRegistersNothing | main.py:331-337 | foreground launches add no entry, whatever their outcome |
| Dialog.CommandDialog.constructor | main.py:416-417 | the dialog opens with the given field values and no result |
| Dialog.CommandDialog.OkClicked | main.py:473-486 | on valid input the stripped pair becomes the result and the dialog closes; otherwise the first applicable warning is returned and nothing changes |
| Dialog.CommandDialog.CancelClicked | main.py:488-489 | cancel closes the dialog and leaves the result unchanged |
| Launcher.CommandLauncher.constructor | main.py:27-46 | the list is the loaded one, nothing is tracked, background mode is off, status is "Ready" |
| Launcher.CommandLauncher.SetRunInBackground | main.py:124-125 | the "Run in Background" checkbox sets the mode later launches read, and changes nothing else |
| Launcher.CommandLauncher.AddCommand | main.py:172-180 | a dialog result is appended at the end and nothing else in the list changes |
| Launcher.CommandLauncher.EditCommand | main.py:182-202 | with exactly one row selected and a result, only that entry is replaced; the length and every other entry stay |
| Launcher.CommandLauncher.DeleteCommand | main.py:204-224 | once confirmed, the loop over the selection in descending order removes exactly the selected entries, survivors in order |
| Launcher.CommandLauncher.DuplicateCommand | main.py:226-244 | with exactly one row selected, the copy is appended and every existing entry stays |
| Launcher.CommandLauncher.RunSingleCommand | main.py:280-342 | the loop's outcome is the specified launch, and the registry grows by one entry exactly for a started background launch |
| Launcher.CommandLauncher.TerminateAll | main.py:344-369 | an empty registry or a refusal changes nothing; once confirmed, the count is that of the `terminate()` calls that did not raise and the registry is emptied |
| Launcher.CommandLauncher.RunningProcessesCount | main.py:377-379 | the count is zero exactly when no background process is tracked |
| Launcher.CommandLauncher.UpdateStatusWithProcessCount | main.py:377-387 | the status shows the tracked count, and is "Ready" exactly when nothing is tracked |
| Launcher.CommandLauncher.CleanupFinishedProcesses | main.py:389-396 | the registry becomes the running entries of the old registry, in order |

## Left out

- Reading and writing `commands.json` (`load_commands`, `save_commands`) and the data-directory choice: file I/O and JSON library calls; the constructor takes the loaded list as an argument and the save after each edit is not modelled.
- Widgets: the tree refresh, message boxes, labels' colours, keyboard bindings and the dialog's modal wait. Warnings shown for an empty or multiple selection are modelled only as "nothing changes".
- `run_selected`, `run_all`, `execute_commands`: they build the list to run, warn and return when it is empty, set the status to "Running N command(s)..." and start one thread per command; none of this is modelled. Threads and the `root.after` timers (status refresh, the 5-second cleanup repeat, the 3-second sweep) are out, and each operation is one sequential step. `RegisterAllCounts` covers launches applied one after another.
- The `Popen` arguments: the command-line strings handed to `cmd`, `osascript`, the emulators and `bash -c` are not modelled, only which mechanism is used; the command text is passed to the shell unchecked.
- Launcher.CommandLauncher.RunSingleCommand: reads the background flag once, where the source reads it again when deciding to track; the error message box for a failed launch is left out.
- `force_kill_remaining`: an empty method in the source; no escalation is modelled or claimed.
- `on_closing`: best-effort termination followed by save and window teardown (I/O and UI).
- The text printed for a failed `terminate()`.
- Whitespace for stripping is Python's `str.isspace()` set written out as code points; no other Unicode processing is modelled.
