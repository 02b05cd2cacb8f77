# ExportFonts in Dafny

ExportFonts installs the font files of a folder into the Windows fonts
folder, registers them under
`HKLM\SOFTWARE\Microsoft\Windows NT\CurrentVersion\Fonts`, records the
installation in a Rainmeter variables file, and restarts Rainmeter. It comes
as two programs: a native one (`ExportFonts.cpp`) and a managed one
(`Program.cs`). Almost everything either program does is a call into
Windows. This project models the rules between those calls, with every
Windows answer turned into an input:

- how a font's display name, destination path and registry value are
  derived from its file name, in both programs;
- how each program quotes its arguments when it relaunches itself
  elevated;
- the native scan of a process snapshot for the first process to
  terminate, and the restart that follows;
- the exit-code decision of the native `wmain` and the guard order of the
  managed `Main`;
- the text of the native marker file, and the managed update of the
  variables file's lines;
- the managed extension filter and the per-font installation with its
  error paths.

Side effects are recorded as an ordered trace of `Effects.Effect` values:
copies, registry writes, font loads and the "fonts changed" broadcast. A
recorded call is an attempt. Whether it worked is an input.

Modules: `Text` (string helpers, `Option`), `Paths` (file name, extension,
`Path.Combine`), `Effects` (the trace), `Elevation` (argument forwarding of
both programs), `NativeFonts`, `NativeProcesses`, `NativeMain` (the native
program), `ManagedFonts`, `VariablesFile`, `ManagedMain` (the managed
program).

Two behaviours of the code that are easy to miss:

- `CopyFile(..., FALSE)` at ExportFonts/ExportFonts.cpp:101 overwrites an
  existing font file, so the native model has no overwrite rule: whether
  the copy works is an input. Only the managed program skips the copy when
  the destination exists, and `ManagedFonts.InstallFontCopies` proves that.
- The native `wmain` insists on exactly two arguments and returns 1 on a
  usage error. The managed `Main` accepts two or more arguments, ignores
  the rest, also requires the variables file to exist, and always returns
  normally.

## Model

| member | source | states |
|---|---|---|
| `Text.LastIndexOf` | ExportFonts/ExportFonts.cpp:97 | `find_last_of('.')`: no result exactly when the character is absent; otherwise the position holds it and nothing after it does |
| `Paths.FileName` | ExportFonts/ExportFonts.cpp:96 | the file name holds no separator, is no longer than the path, and is preceded by a separator unless it is the whole path |
| `Paths.FileNameIsSuffix` | ExportFonts/ExportFonts.cpp:96 | the file name is the final stretch of the path |
| `Paths.FileNameOfTail` | ExportFonts/Program.cs:137-138 | a separator-free final stretch of a path is also a final stretch of its file name |
| `Paths.WithoutExtension` | ExportFonts/ExportFonts.cpp:96-97 | the font name is a prefix of the file name; it is the whole name when there is no `.`; otherwise the removed part starts with `.` and holds no other `.` |
| `Paths.WithoutExtensionOfDotted` | ExportFonts/ExportFonts.cpp:97 | removing the extension of `stem.ext` (no `.` in `ext`) gives back `stem`, whatever dots `stem` holds |
| `Paths.NameExtension` | ExportFonts/Program.cs:148 | the extension is empty, or it starts with `.`, holds no other `.`, is at least two characters and ends the file name; it is empty exactly when the name has no `.` or ends with one |
| `Paths.StemAndExtension` | ExportFonts/Program.cs:137-148 | the name without extension followed by the extension is the file name, for names not ending in `.` |
| `Paths.Combine` | ExportFonts/Program.cs:138 | the destination path ends with the file name; for a non-empty folder and a non-empty name that does not start with a separator, it starts with the folder; nothing is put between the two when the folder ends in a separator, and exactly one `\` otherwise |
| `Paths.CombineFileName` | ExportFonts/Program.cs:138 | the file name of the destination is the source's file name |
| `Paths.NameExtensionOfTail` | ExportFonts/Program.cs:148 | a name ending in `.` plus characters other than `.` has exactly that ending as its extension |
| `Paths.ExtensionOfTail` | ExportFonts/Program.cs:148 | a path ending in `.` plus characters that are neither `.` nor separators has exactly that ending as its extension |
| `NativeFonts.CombineIsDestination` | ExportFonts/Program.cs:138 | for a fonts folder not ending in a separator and a bare file name, the managed `Path.Combine` destination is the native fonts folder + `\` + file name |
| `NativeFonts.EntryEffects` | ExportFonts/ExportFonts.cpp:92-106 | one directory entry makes at most two calls |
| `NativeFonts.EntryEffectsOrder` | ExportFonts/ExportFonts.cpp:92-106 | an entry that is not a regular file makes no call; a regular file's copy comes first, a registry write can only come second, and no other call is made |
| `NativeFonts.EntriesMakeOnlyCopiesAndWrites` | ExportFonts/ExportFonts.cpp:91-106 | the directory walk makes at most two calls per entry, all of them copies and registry writes; it makes no broadcast |
| `NativeFonts.DestinationKeepsFileName` | ExportFonts/ExportFonts.cpp:100 | fonts folder + `\` + file name has that file name as its last component |
| `NativeFonts.DisplayNameExamples` | ExportFonts/ExportFonts.cpp:96-105 | `Arial Custom.ttf` is registered as `Arial Custom` with data `Arial Custom.ttf`; `a.b.ttf` gives `a.b` |
| `NativeFonts.InstallFontsFromFolder` | ExportFonts/ExportFonts.cpp:87-120 | failed fonts-folder lookup: no calls at all; otherwise the per-entry calls in directory order, then one broadcast |
| `NativeFonts.EntryEffectsSummary` | ExportFonts/ExportFonts.cpp:92-106 | one entry gives one copy if it is a regular file, and one registry value only if that copy succeeded |
| `NativeFonts.CopiesOfEntries` | ExportFonts/ExportFonts.cpp:91-101 | one copy per regular file, in order, from its path to fonts folder + `\` + file name |
| `NativeFonts.RegistrationsOfEntries` | ExportFonts/ExportFonts.cpp:91-106 | one registry value per successfully copied regular file, in order: truncated name mapped to bare file name |
| `NativeFonts.AllCopiedAllRegistered` | ExportFonts/ExportFonts.cpp:91-106 | when every copy succeeds, N regular files give N copies and N registry values |
| `NativeFonts.RegistryDataIsFileName` | ExportFonts/ExportFonts.cpp:105 | every registry value's data is a bare file name with no separator, and its name is that file name without its extension |
| `Elevation.NativeParams` | ExportFonts/ExportFonts.cpp:34-39 | the native parameter string is empty exactly when there is nothing to forward |
| `Elevation.ManagedArguments` | ExportFonts/Program.cs:110 | the managed argument string is empty exactly when there are no arguments, and otherwise starts with a quote |
| `Elevation.RelaunchAsAdmin` | ExportFonts/ExportFonts.cpp:30-53 | the loop builds exactly the quoted, space-terminated form of `argv[1..]`; exit status 0 when the elevated start worked, else 1 |
| `Elevation.NativeParamsLength` | ExportFonts/ExportFonts.cpp:34-39 | the parameter string is as long as the sum of `|argv[i]| + 3` |
| `Elevation.NativeParamsRoundTrip` | ExportFonts/ExportFonts.cpp:34-39 | the native parameter string reads back as the forwarded arguments when none holds `"` |
| `Elevation.NativeIsManagedWithTrailingSpace` | ExportFonts/Program.cs:110 | the managed string is the native string without its trailing space, and both are empty for no arguments |
| `Elevation.ManagedArgumentsLength` | ExportFonts/Program.cs:110 | for a non-empty argument list, the managed string is one character shorter than the native one |
| `Elevation.ManagedArgumentsRoundTrip` | ExportFonts/Program.cs:110 | the managed argument string reads back as the arguments when none holds `"` |
| `NativeProcesses.FirstTerminable` | ExportFonts/ExportFonts.cpp:131-146 | the chosen process is the first whose image name equals the wanted name exactly and which can be opened; none when no process is both |
| `NativeProcesses.KillProcessByName` | ExportFonts/ExportFonts.cpp:122-147 | no snapshot: nothing terminated (false); otherwise the scan terminates exactly the first terminable process, or none |
| `NativeProcesses.UnopenableMatchIsSkipped` | ExportFonts/ExportFonts.cpp:133-142 | a matching process that cannot be opened does not stop the scan |
| `NativeProcesses.CaseMatters` | ExportFonts/ExportFonts.cpp:133 | `rainmeter.exe` is not taken for `Rainmeter.exe` |
| `NativeProcesses.RestartRainmeter` | ExportFonts/ExportFonts.cpp:149-174 | at most one termination, of the first terminable `Rainmeter.exe`, and always a launch of `Rainmeter.exe` at the end |
| `NativeMain.MarkerText` | ExportFonts/ExportFonts.cpp:180-181 | the marker text `[Variables]\n` + `Installed_Fonts=1\n` is the two marker lines, each ended by a line feed |
| `NativeMain.MarkerTextLines` | ExportFonts/ExportFonts.cpp:180-181 | the marker text reads back as exactly the lines `[Variables]` and `Installed_Fonts=1` |
| `NativeMain.Wmain` | ExportFonts/ExportFonts.cpp:194-219 | exit status 0 exactly when (as administrator) there are three `argv` entries and the folder is an existing directory, or (not administrator) the elevated start worked; install, marker and restart run, in that order, only in the valid branch |
| `Text.LinesUnlines` | ExportFonts/Program.cs:156-174 | lines written one per line read back as the same lines |
| `VariablesFile.FirstInstalledLine` | ExportFonts/Program.cs:159-167 | the found line is the first that starts with `Installed_Fonts=`; none exactly when no line does |
| `VariablesFile.UpdatedLines` | ExportFonts/Program.cs:159-172 | the update keeps every line or adds one; a line it changes was a key line and becomes `Installed_Fonts=1`; an added line is `Installed_Fonts=1` at the end |
| `VariablesFile.UpdateVariablesFile` | ExportFonts/Program.cs:154-176 | the loop with its flag and `break`, plus the conditional add, computes the updated lines |
| `VariablesFile.ReplacesFirstKeyLine` | ExportFonts/Program.cs:159-167 | with a key line present, the first one becomes `Installed_Fonts=1`, the count is unchanged and every other line keeps its value and place |
| `VariablesFile.AppendsWhenMissing` | ExportFonts/Program.cs:169-172 | with no key line, `Installed_Fonts=1` is appended and nothing else changes |
| `VariablesFile.UpdatedHasInstalledLine` | ExportFonts/Program.cs:159-172 | after the update the first key line is `Installed_Fonts=1` |
| `VariablesFile.UpdateIdempotent` | ExportFonts/Program.cs:159-172 | updating twice gives the same lines as updating once |
| `VariablesFile.MarkerIsUpToDate` | ExportFonts/Program.cs:154-176 | the native marker file is left unchanged by the managed update |
| `ManagedFonts.IsFontFile` | ExportFonts/Program.cs:59-60 | a path that passes the filter ends in a `.` followed by three characters |
| `ManagedFonts.FilterFonts` | ExportFonts/Program.cs:58-61 | every kept path ends in `.ttf` or `.otf`, ignoring ASCII case |
| `ManagedFonts.FilterFontsCount` | ExportFonts/Program.cs:58-61 | each font path is kept as often as it occurs; every other path is dropped |
| `ManagedFonts.FilterFontsAppend` | ExportFonts/Program.cs:58-61 | filtering keeps enumeration order (filtering a concatenation concatenates the filtered parts) |
| `ManagedFonts.FilterFontsKeepsFonts` | ExportFonts/Program.cs:58-61 | a list of font paths passes unchanged |
| `ManagedFonts.RegistryName` | ExportFonts/Program.cs:148 | the registry name starts with the file name without its extension and holds no path separator |
| `ManagedFonts.OpenTypeExactlyForOtf` | ExportFonts/Program.cs:148 | for a filtered path, the registry name is the name without extension plus ` (OpenType)` exactly when the path ends in `.otf` (any case); otherwise it is the bare name |
| `ManagedFonts.InstallFontAs` | ExportFonts/Program.cs:124-153 | at most four calls per font; the registry value is written exactly when no error ends the installation, and then as the last call |
| `ManagedFonts.InstallFont` | ExportFonts/Program.cs:124-153 | a font installed without error ends with the write of (registry name, bare file name) |
| `ManagedFonts.InstallFontSummary` | ExportFonts/Program.cs:124-153 | a font raises no error exactly when every check passes, and only then is it registered, under its registry name with its bare file name as data |
| `ManagedFonts.InstallFontCopies` | ExportFonts/Program.cs:126-141 | a copy into the fonts folder is attempted only after the font has loaded, and only when no file of that name is there yet: an existing font file is never copied over |
| `ManagedFonts.InstallFontsAppend` | ExportFonts/Program.cs:63-73 | the loop over two lists makes the calls of the first list, then those of the second: what happens to one font does not depend on the fonts before it |
| `ManagedFonts.RegistrationsOfFonts` | ExportFonts/Program.cs:63-73 | the loop registers exactly the fonts that install without error, in order, whatever failed around them |
| `ManagedMain.MainDecision` | ExportFonts/Program.cs:22-61 | relaunch exactly when not administrator, with the joined quoted arguments; then fewer than 2 arguments, a missing folder and a missing variables file stop the run, checked in that order; only a run that passes all four installs the filtered files |
| `ManagedMain.ExtraArgumentsIgnored` | ExportFonts/Program.cs:31-39 | for an administrator run, arguments after the second change nothing |

## Left out

- Privilege checks (`IsRunAsAdmin`, `IsAdministrator`) are boolean inputs, because they are Windows security queries.
- Elevated relaunch (`ShellExecuteEx`, `Process.Start`) is an input saying whether the start worked. The managed program only logs that failure.
- Windows' own command-line splitting in the elevated instance, with its backslash escapes, is not modelled. The round-trip lemmas use a reference reader of the quoted format instead, and they exclude arguments that hold `"`.
- `Elevation.NativeParamsRoundTrip` and `Elevation.ManagedArgumentsRoundTrip` promise nothing about the elevated instance's own `argv`. An argument ending in `\`, such as the folder `C:\Fonts\`, is forwarded as `"C:\Fonts\"`. Windows' splitter reads that `\"` as a literal quote, so the elevated instance gets different arguments from the ones it was given.
- File copying (`CopyFile`, `File.Copy`) is an input per file. The native copy's overwrite behaviour is Windows' and is not modelled beyond that.
- Directory enumeration is an input sequence. An error raised by the native directory walk in the middle of the loop is not modelled.
- The fonts-folder lookup (`SHGetKnownFolderPath`, `Environment.GetFolderPath`) is an input. A failed native lookup is `None`.
- Registry writes are recorded as (name, data) pairs. The native `RegOpenKeyEx`/`RegSetValueEx` failures are only logged and are not modelled. The managed `SetValue` is taken to succeed once the key opens. The REG_SZ byte length is not modelled.
- `AddFontResource` and the `WM_FONTCHANGE` broadcast are recorded as effects and nothing more.
- The process snapshot is an input sequence, and termination is the returned position. Opening a process is an input per entry. `TerminateProcess` and `ShellExecute` results are not modelled, because the source ignores the first and only logs the second.
- The managed `RestartRainmeter` is not modelled, because `Process.GetProcessesByName`, `Kill` and `WaitForExit` are library process semantics that this code cannot show.
- File reading and writing in `UpdateVariablesFile` and `WriteVariablesFile`: the model takes and gives lines, and lines are split at `\n` only. `\r\n` and `\r` splitting and text-mode newline translation are not modelled. A native marker file that cannot be opened is only logged.
- `VariablesFile.FirstInstalledLine` and `VariablesFile.UpdateVariablesFile` test the key with an ordinal prefix comparison. `StartsWith(string)` at ExportFonts/Program.cs:161 is culture-sensitive. The two disagree on lines holding code points that the culture comparison ignores, such as U+00AD: `Ins\u00ADtalled_Fonts=0` matches in .NET, but the model appends a new line. Culture tables cannot be seen from this code.
- `NativeMain.Wmain` has no abnormal-termination outcome. ExportFonts/ExportFonts.cpp:208 calls the throwing `std::filesystem::exists` and `is_directory` outside any `try`. When the operating system reports an error other than "not found", the program ends with an uncaught exception instead of returning 1. File-system errors are not modelled.
- Console and error output, and the outer `try`/`catch` plumbing of both programs. The managed `Main`'s catch of `UnauthorizedAccessException` and other exceptions is not modelled.
- `ManagedMain.MainDecision`: the installation branch ends with the filtered font list and the variables-file path. The steps that follow are modelled separately (`ManagedFonts.InstallFonts`, `VariablesFile.UpdateVariablesFile`); the restart is not modelled.
- `NativeMain.Wmain`: the install, marker and restart steps are named in order. Their contents are modelled in `NativeFonts`, `NativeMain.MarkerTextLines` and `NativeProcesses`.
- Case folding is ASCII-only. Culture-specific `ToLower` and the full `OrdinalIgnoreCase` table cannot be seen from this code.
- Paths: `\` and `/` are the only separators. Drive-relative names (`C:name`) and `Path.Combine`'s treatment of a drive-rooted second part are not modelled.
